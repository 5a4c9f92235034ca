/** The flat bit-string view of byte data: bits are taken from each byte least
    significant first, as section 22 and Appendix F of GIF89a lay codes out. */
module BitString {

  type byte = x: int | 0 <= x < 256

  /** C's 1 << n. */
  function Pow2(n: nat): (r: nat)
    ensures r >= 1
  {
    if n == 0 then 1 else 2 * Pow2(n - 1)
  }

  /** C's x >> n on unsigned values. */
  function ShiftRight(x: nat, n: nat): nat {
    if n == 0 then x else ShiftRight(x / 2, n - 1)
  }

  /** C's x & ((1 << n) - 1). */
  function Mask(x: nat, n: nat): nat {
    if n == 0 then 0 else x % 2 + 2 * Mask(x / 2, n - 1)
  }

  /** The n low bits of x, least significant first. */
  ghost function LowBits(x: nat, n: nat): (r: seq<bool>)
    ensures |r| == n
  {
    if n == 0 then [] else [x % 2 == 1] + LowBits(x / 2, n - 1)
  }

  /** All bits of a byte string. */
  ghost function Bits(b: seq<byte>): (r: seq<bool>)
    ensures |r| == 8 * |b|
  {
    if b == [] then [] else LowBits(b[0], 8) + Bits(b[1..])
  }

  /** The number a bit string denotes, least significant bit first. */
  ghost function Value(bits: seq<bool>): nat {
    if bits == [] then 0 else (if bits[0] then 1 else 0) + 2 * Value(bits[1..])
  }

  /** The number a byte string denotes, least significant byte first. */
  ghost function LittleEndian(b: seq<byte>): nat {
    if b == [] then 0 else b[0] + 256 * LittleEndian(b[1..])
  }

  lemma {:induction false} Pow2Monotone(m: nat, n: nat)
    requires m <= n
    ensures Pow2(m) <= Pow2(n)
    decreases n
  {
    if m == n {
    } else {
      Pow2Monotone(m, n - 1);
    }
  }

  function BitLength(n: nat): nat {
    if n == 0 then 0 else 1 + BitLength(n / 2)
  }

  lemma {:induction false} BitLengthIs(n: nat, k: nat)
    requires k > 0 && Pow2(k - 1) <= n < Pow2(k)
    ensures BitLength(n) == k
    decreases k
  {
    if k <= 1 {
    } else {
      BitLengthIs(n / 2, k - 1);
    }
  }

  lemma Pow2Of12()
    ensures Pow2(12) == 4096 && Pow2(11) == 2048
  {
  }

  lemma {:induction false} ValueBound(bits: seq<bool>)
    ensures Value(bits) < Pow2(|bits|)
  {
    if bits == [] {
    } else {
      ValueBound(bits[1..]);
    }
  }

  lemma {:induction false} ValueOfLowBits(x: nat, n: nat)
    ensures Value(LowBits(x, n)) == Mask(x, n)
  {
    if n == 0 {
    } else {
      ValueOfLowBits(x / 2, n - 1);
      assert LowBits(x, n)[1..] == LowBits(x / 2, n - 1);
    }
  }

  lemma {:induction false} LowBitsSplit(x: nat, m: nat, n: nat)
    ensures LowBits(x, m + n) == LowBits(x, m) + LowBits(ShiftRight(x, m), n)
  {
    if m == 0 {
    } else {
      LowBitsSplit(x / 2, m - 1, n);
      assert LowBits(x, m) + LowBits(ShiftRight(x, m), n)
          == [x % 2 == 1] + (LowBits(x / 2, m - 1) + LowBits(ShiftRight(x / 2, m - 1), n));
    }
  }

  /** Low bits do not see what is added above them. */
  lemma {:induction false} LowBitsAbove(x: nat, n: nat, y: nat)
    ensures LowBits(x + Times2(y, n), n) == LowBits(x, n)
    ensures ShiftRight(x + Times2(y, n), n) == ShiftRight(x, n) + y
    decreases n
  {
    if n == 0 {
    } else {
      assert (x + Times2(y, n)) / 2 == x / 2 + Times2(y, n - 1);
      assert (x + Times2(y, n)) % 2 == x % 2;
      LowBitsAbove(x / 2, n - 1, y);
    }
  }

  /** y << n. */
  ghost function Times2(y: nat, n: nat): nat {
    if n == 0 then y else 2 * Times2(y, n - 1)
  }

  lemma ByteAbove(b: byte, y: nat)
    ensures LowBits(b + 256 * y, 8) == LowBits(b, 8)
    ensures ShiftRight(b + 256 * y, 8) == y
  {
    LowBitsAbove(b, 8, y);
    assert Times2(y, 8) == 256 * y by {
      assert Times2(y, 8) == 4 * Times2(y, 6);
      assert Times2(y, 6) == 4 * Times2(y, 4);
      assert Times2(y, 4) == 4 * Times2(y, 2);
      assert Times2(y, 1) == 2 * Times2(y, 0);
    }
    assert ShiftRight(b, 8) == 0 by {
      assert ShiftRight(b, 8) == ShiftRight(b / 2 / 2, 6);
      assert ShiftRight(b / 2 / 2, 6) == ShiftRight(b / 2 / 2 / 2 / 2, 4);
      assert ShiftRight(b / 2 / 2 / 2 / 2, 4) == ShiftRight(b / 2 / 2 / 2 / 2 / 2 / 2, 2);
    }
  }

  lemma {:induction false} BitsConcat(a: seq<byte>, b: seq<byte>)
    ensures Bits(a + b) == Bits(a) + Bits(b)
  {
    if a == [] {
      assert a + b == b;
    } else {
      assert (a + b)[1..] == a[1..] + b;
      BitsConcat(a[1..], b);
    }
  }

  /** Packing bytes little-endian keeps their bit string. */
  lemma {:induction false} BitsOfLittleEndian(b: seq<byte>)
    ensures LowBits(LittleEndian(b), 8 * |b|) == Bits(b)
  {
    if b == [] {
    } else {
      BitsOfLittleEndian(b[1..]);
      LowBitsSplit(LittleEndian(b), 8, 8 * (|b| - 1));
      ByteAbove(b[0], LittleEndian(b[1..]));
    }
  }

  /** Shifting and masking a little-endian window reads the bits at an offset. */
  lemma WindowCode(b: seq<byte>, offset: nat, size: nat)
    requires offset + size <= 8 * |b|
    ensures Mask(ShiftRight(LittleEndian(b), offset), size) == Value(Bits(b)[offset..offset + size])
  {
    var w := LittleEndian(b);
    var n := 8 * |b| - offset;
    BitsOfLittleEndian(b);
    LowBitsSplit(w, offset, n);
    assert Bits(b)[offset..] == LowBits(ShiftRight(w, offset), n);
    LowBitsSplit(ShiftRight(w, offset), size, n - size);
    assert Bits(b)[offset..offset + size] == Bits(b)[offset..][..size];
    ValueOfLowBits(ShiftRight(w, offset), size);
  }
}
