/** Hashing, lower-casing and comparing the bytes of strings. */
module StringHash {
  type Byte = bv8

  const OFFSET: bv32 := 0x811c9dc5
  const PRIME: bv32 := 0x01000193

  /** A plain char, which is signed, as the hash sees it. */
  function Widen(c: Byte): bv32 {
    if c >= 0x80 then 0xffff_ff00 | (c as bv32) else c as bv32
  }

  function Mix(z: bv32, c: Byte): bv32 {
    (z * PRIME) ^ Widen(c)
  }

  function Hash(s: seq<Byte>): bv32 {
    if s == [] then OFFSET else Mix(Hash(s[..|s| - 1]), s[|s| - 1])
  }

  /** lwc__dolower */
  function LowerByte(c: Byte): Byte {
    if 65 <= c <= 90 then c + 32 else c
  }

  function Lower(s: seq<Byte>): (r: seq<Byte>)
    ensures |r| == |s| && forall i :: 0 <= i < |s| ==> r[i] == LowerByte(s[i])
  {
    seq(|s|, i requires 0 <= i < |s| => LowerByte(s[i]))
  }

  /** Two bytes are the same, or the upper and the lower case of one ASCII letter. */
  ghost predicate SameLetter(a: Byte, b: Byte) {
    a == b || ('A' as bv8 <= a <= 'Z' as bv8 && b - a == 'a' as bv8 - 'A' as bv8)
           || ('A' as bv8 <= b <= 'Z' as bv8 && a - b == 'a' as bv8 - 'A' as bv8)
  }

  ghost predicate SameIgnoringCase(a: seq<Byte>, b: seq<Byte>) {
    |a| == |b| && forall i :: 0 <= i < |a| ==> SameLetter(a[i], b[i])
  }

  lemma LowerByteSame(a: Byte, b: Byte)
    ensures LowerByte(a) == LowerByte(b) <==> SameLetter(a, b)
  {
  }

  /** Equal lower-case forms mean equal but for the case of letters. */
  lemma LowerSame(a: seq<Byte>, b: seq<Byte>)
    ensures Lower(a) == Lower(b) <==> SameIgnoringCase(a, b)
  {
    hide LowerByte, SameLetter;
    if |a| == |b| {
      forall i | 0 <= i < |a| ensures Lower(a)[i] == Lower(b)[i] <==> SameLetter(a[i], b[i]) { LowerByteSame(a[i], b[i]); }
    }
  }

  /** lwc__calculate_hash */
  method CalculateHash(s: seq<Byte>) returns (z: bv32)
    ensures z == Hash(s)
  {
    hide Mix;
    z := OFFSET;
    var i := 0;
    while i < |s|
      invariant 0 <= i <= |s| && z == Hash(s[..i])
    {
      assert s[..i + 1][..i] == s[..i];
      z := Mix(z, s[i]);
      i := i + 1;
    }
    assert s[..|s|] == s;
  }

  /** lwc__calculate_lcase_hash: the plain hash of the lower-case string, without making it. */
  method CalculateLcaseHash(s: seq<Byte>) returns (z: bv32)
    ensures z == Hash(Lower(s))
  {
    hide Mix, LowerByte;
    z := OFFSET;
    var i := 0;
    while i < |s|
      invariant 0 <= i <= |s| && z == Hash(Lower(s)[..i])
    {
      assert Lower(s)[..i + 1][..i] == Lower(s)[..i];
      z := Mix(z, LowerByte(s[i]));
      i := i + 1;
    }
    assert Lower(s)[..|s|] == Lower(s);
  }

  /** What strncmp finds equal over the whole length: it stops where both have a NUL. */
  ghost predicate StrnEqual(a: seq<Byte>, b: seq<Byte>)
    requires |a| == |b|
  {
    a == [] || (a[0] == b[0] && (a[0] == 0 || StrnEqual(a[1..], b[1..])))
  }

  ghost predicate NulFree(s: seq<Byte>) {
    forall i :: 0 <= i < |s| ==> s[i] != 0
  }

  lemma {:induction false} StrnEqualSelf(a: seq<Byte>)
    ensures StrnEqual(a, a)
  {
    if a == [] {
    } else {
      StrnEqualSelf(a[1..]);
    }
  }

  lemma {:induction false} StrnEqualNulFree(a: seq<Byte>, b: seq<Byte>)
    requires |a| == |b| && (NulFree(a) || NulFree(b))
    ensures StrnEqual(a, b) <==> a == b
  {
    if a == [] {
    } else {
      assert NulFree(a) ==> NulFree(a[1..]);
      assert NulFree(b) ==> NulFree(b[1..]);
      StrnEqualNulFree(a[1..], b[1..]);
      assert a == [a[0]] + a[1..] && b == [b[0]] + b[1..];
    }
  }

  /** strncmp(a, b, n) == 0 */
  method Strncmp(a: seq<Byte>, b: seq<Byte>) returns (same: bool)
    requires |a| == |b|
    ensures same <==> StrnEqual(a, b)
  {
    var i := 0;
    while i < |a|
      invariant 0 <= i <= |a| && (StrnEqual(a, b) <==> StrnEqual(a[i..], b[i..]))
    {
      if a[i] != b[i] { return false; }
      if a[i] == 0 { return true; }
      assert a[i..][1..] == a[i + 1..] && b[i..][1..] == b[i + 1..];
      i := i + 1;
    }
    same := true;
  }

  /** lwc__lcase_strncmp(a, b, n) == 0 */
  method LcaseStrncmp(a: seq<Byte>, b: seq<Byte>) returns (same: bool)
    requires |a| == |b|
    ensures same <==> a == Lower(b)
  {
    hide LowerByte;
    var i := 0;
    while i < |a|
      invariant 0 <= i <= |a| && forall j :: 0 <= j < i ==> a[j] == LowerByte(b[j])
    {
      if a[i] != LowerByte(b[i]) {
        assert a[i] != Lower(b)[i];
        return false;
      }
      i := i + 1;
    }
    same := true;
  }

  /** Two different strings that strncmp calls equal and that have the same hash. */
  lemma NulCollision()
    ensures var a, b := [0, 77, 78, 66, 74], [0, 31, 17, 105, 86];
            a != b && |a| == |b| && StrnEqual(a, b) && Hash(a) == Hash(b)
  {
    var a: seq<Byte>, b: seq<Byte> := [0, 77, 78, 66, 74], [0, 31, 17, 105, 86];
    assert Hash(a) == 0x796dc6d2 by { FiveBytes(0, 77, 78, 66, 74); }
    assert Hash(b) == 0x796dc6d2 by { FiveBytes(0, 31, 17, 105, 86); }
  }

  /** The published FNV-1 value of "fooba". */
  lemma FnvValue()
    ensures Hash([0x66, 0x6f, 0x6f, 0x62, 0x61]) == 0xfdc80fb0
  {
    FiveBytes(0x66, 0x6f, 0x6f, 0x62, 0x61);
  }

  lemma FiveBytes(a: Byte, b: Byte, c: Byte, d: Byte, e: Byte)
    ensures Hash([a, b, c, d, e]) == Mix(Mix(Mix(Mix(Mix(OFFSET, a), b), c), d), e)
  {
    hide Mix, Hash;
    HashAppend([], a);
    HashAppend([a], b);
    HashAppend([a, b], c);
    HashAppend([a, b, c], d);
    HashAppend([a, b, c, d], e);
    assert [] + [a] == [a] && [a] + [b] == [a, b] && [a, b] + [c] == [a, b, c];
    assert [a, b, c] + [d] == [a, b, c, d] && [a, b, c, d] + [e] == [a, b, c, d, e];
  }

  lemma HashAppend(s: seq<Byte>, c: Byte)
    ensures Hash(s + [c]) == Mix(Hash(s), c) && Hash([]) == OFFSET
  {
  }
}
