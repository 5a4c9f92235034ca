/** Reading variable-width codes from data cut into sub-blocks (section 15 of
    GIF89a): struct lzw_read_ctx of lzw.c. */
module LzwReader {
  import opened BitString

  datatype LzwResult =
    | Ok        // success
    | OkEod     // reached a zero-length sub-block
    | NoData    // out of data
    | EoiCode   // end of information code
    | NoColour  // no colour map provided
    | BadIcode  // bad initial code
    | BadParam  // bad parameter
    | BadCode   // bad code

  const CODE_MAX := 12

  /** Sub-blocks joined back together, and why they stopped. */
  datatype Flat = Flat(bytes: seq<byte>, end: LzwResult)

  /** The data of all whole sub-blocks from pos to the terminator or the truncation. */
  ghost function Flatten(data: seq<byte>, pos: nat): (f: Flat)
    ensures f.end == OkEod || f.end == NoData
    decreases |data| - pos
  {
    if pos >= |data| || pos + data[pos] >= |data| then Flat([], NoData)
    else if data[pos] == 0 then Flat([], OkEod)
    else
      var rest := Flatten(data, pos + data[pos] + 1);
      Flat(data[pos + 1..pos + 1 + data[pos]] + rest.bytes, rest.end)
  }

  function Min(a: nat, b: nat): nat {
    if a < b then a else b
  }

  /** b << (8 * n), as the bytes of a window are put together. */
  function Weigh(b: byte, n: nat): nat {
    if n == 0 then b else if n == 1 then b as int * 256 else b as int * 65536
  }

  /** How many bits of each byte of a code are used; the third wraps at 8 bits. */
  function BitsUsed(currentBit: nat, codeSize: nat): (r: seq<nat>)
    requires currentBit < 8
    ensures |r| == 3
  {
    var bitsRemaining0 := if codeSize < 8 - currentBit then codeSize else 8 - currentBit;
    var bitsRemaining1 := codeSize - bitsRemaining0;
    [bitsRemaining0, Min(bitsRemaining1, 8), (bitsRemaining1 - 8) % 256]
  }

  lemma BitsUsedOf(currentBit: nat, codeSize: nat, last: nat, tail: nat, n: nat)
    requires currentBit < 8 && 1 <= codeSize <= CODE_MAX && n <= last
    requires last == (currentBit + codeSize) / 8 && tail == (currentBit + codeSize) % 8
    ensures n <= 2 && tail < 8
    ensures var offset := if n == 0 then currentBit else 0;
            offset + BitsUsed(currentBit, codeSize)[n] == if n < last then 8 else tail
  {
  }

  class ReadContext {
    var data: seq<byte>     // all input data
    var dataSbNext: nat     // offset of the next sub-block size byte
    var sbData: nat         // offset of the current sub-block's data
    var sbBit: nat          // current bit in the sub-block
    var sbBitCount: nat     // bits in the sub-block

    ghost predicate Valid()
      reads this
    {
      && sbBit <= sbBitCount
      && sbBitCount % 8 == 0
      && sbData + sbBitCount / 8 <= |data|
    }

    /** The bytes still to be read, from the one holding the current bit. */
    ghost function Rest(): seq<byte>
      reads this
      requires Valid()
    {
      data[sbData + sbBit / 8..sbData + sbBitCount / 8] + Flatten(data, dataSbNext).bytes
    }

    /** The bits still to be read. */
    ghost function Remaining(): seq<bool>
      reads this
      requires Valid()
    {
      Bits(Rest())[sbBit % 8..]
    }

    /** Why reading will stop. */
    ghost function End(): (r: LzwResult)
      reads this
      ensures r == OkEod || r == NoData
    {
      Flatten(data, dataSbNext).end
    }

    constructor ()
      ensures Valid()
    {
      data, dataSbNext, sbData, sbBit, sbBitCount := [], 0, 0, 0, 0;
    }

    /** The input half of lzw_decode_init. */
    method Init(input: seq<byte>, pos: nat)
      modifies this
      ensures Valid() && data == input
      ensures Remaining() == Bits(Flatten(input, pos).bytes)
      ensures End() == Flatten(input, pos).end
    {
      data := input;
      dataSbNext := pos;
      sbData := 0;
      sbBit := 0;
      sbBitCount := 0;
      assert Rest() == Flatten(input, pos).bytes;
    }

    /** lzw__block_advance, called when the current sub-block is used up. */
    method BlockAdvance() returns (res: LzwResult)
      requires Valid() && sbBit == sbBitCount
      modifies this
      ensures Valid() && data == old(data)
      ensures res == Ok <==> old(Rest()) != []
      ensures res == Ok ==> sbBit == 0 < sbBitCount && Rest() == old(Rest()) && End() == old(End())
      ensures res != Ok ==> res == old(End())
    {
      var nextBlockPos := dataSbNext;
      if nextBlockPos >= |data| {
        return NoData;
      }
      var blockSize: nat := data[nextBlockPos];
      if nextBlockPos + blockSize >= |data| {
        return NoData;
      }
      sbBit := 0;
      sbBitCount := blockSize * 8;
      if blockSize == 0 {
        dataSbNext := dataSbNext + 1;
        return OkEod;
      }
      sbData := nextBlockPos + 1;
      dataSbNext := dataSbNext + blockSize + 1;
      return Ok;
    }

    /** lzw__read_code: however the data is cut into sub-blocks, the next codeSize bits of the
        flat bit string, provided strictly more than codeSize bits remain. */
    method ReadCode(codeSize: nat) returns (res: LzwResult, code: nat)
      requires Valid() && 1 <= codeSize <= CODE_MAX
      modifies this
      ensures Valid() && data == old(data)
      ensures res == Ok <==> codeSize < |old(Remaining())|
      ensures res == Ok ==> code == Value(old(Remaining())[..codeSize])
      ensures res == Ok ==> Remaining() == old(Remaining())[codeSize..] && End() == old(End())
      ensures res != Ok ==> res == old(End())
    {
      hide Bits, Value, LittleEndian, Mask, ShiftRight, Flatten;
      ghost var bytes, k := Rest(), 3;
      var currentBit := sbBit % 8;
      if sbBit + 24 <= sbBitCount {
        code := ReadFast(codeSize);
        res := Ok;
      } else {
        k := (currentBit + codeSize) / 8 + 1;
        res, code := ReadSlow(codeSize);
        if res != Ok { return res, 0; }
      }
      TakeBits(bytes, currentBit, codeSize, k);
      code := Mask(ShiftRight(code, currentBit), codeSize);
    }

    /** The fast path of lzw__read_code: three bytes of this sub-block. */
    method ReadFast(codeSize: nat) returns (code: nat)
      requires Valid() && 1 <= codeSize <= CODE_MAX && sbBit + 24 <= sbBitCount
      modifies this`sbBit
      ensures Valid() && |old(Rest())| >= 3
      ensures code == LittleEndian(old(Rest())[..3])
      ensures Rest() == old(Rest())[(old(sbBit) % 8 + codeSize) / 8..]
      ensures sbBit % 8 == (old(sbBit) % 8 + codeSize) % 8
    {
      ghost var bytes := Rest();
      var p := sbData + sbBit / 8;
      code := Weigh(data[p], 0) + Weigh(data[p + 1], 1) + Weigh(data[p + 2], 2);
      assert bytes[0] == data[p] && bytes[1] == data[p + 1] && bytes[2] == data[p + 2];
      LittleEndianOf3(bytes[..3]);
      ghost var cut := (sbBit % 8 + codeSize) / 8;
      assert (sbBit + codeSize) / 8 == sbBit / 8 + cut;
      sbBit := sbBit + codeSize;
    }

    /** Read the byte holding the current bit and move on by used bits of it. */
    method TakeByte(used: nat) returns (b: byte)
      requires Valid() && sbBit < sbBitCount && sbBit % 8 + used <= 8
      modifies this`sbBit
      ensures Valid() && old(Rest()) != [] && b == old(Rest())[0]
      ensures if old(sbBit) % 8 + used == 8
              then sbBit % 8 == 0 && Rest() == old(Rest())[1..]
              else sbBit % 8 == old(sbBit) % 8 + used && Rest() == old(Rest())
    {
      b := data[sbData + sbBit / 8];
      ghost var next := (sbBit + used) / 8;
      assert next == if sbBit % 8 + used == 8 then sbBit / 8 + 1 else sbBit / 8;
      sbBit := sbBit + used;
    }

    /** The slow path of lzw__read_code: gather whole bytes across sub-blocks. */
    method ReadSlow(codeSize: nat) returns (res: LzwResult, code: nat)
      requires Valid() && 1 <= codeSize <= CODE_MAX
      modifies this
      ensures Valid() && data == old(data)
      ensures var last := (old(sbBit) % 8 + codeSize) / 8;
              && (res == Ok <==> last < |old(Rest())|)
              && (res == Ok ==> code == LittleEndian(old(Rest())[..last + 1]))
              && (res == Ok ==> Rest() == old(Rest())[last..])
      ensures res == Ok ==> sbBit % 8 == (old(sbBit) % 8 + codeSize) % 8 && End() == old(End())
      ensures res != Ok ==> res == old(End())
    {
      ghost var bytes, end := Rest(), End();
      var currentBit := sbBit % 8;
      var byteAdvance := (currentBit + codeSize) / 8;
      ghost var tail := (currentBit + codeSize) % 8;
      var n: nat := 0;   // bytes gathered
      code := 0;
      while true
        invariant Valid() && data == old(data) && End() == end
        invariant n <= byteAdvance && Gathered(bytes, currentBit, byteAdvance, tail, n, code)
        decreases |Flatten(data, dataSbNext).bytes|
      {
        n, code := Gather(bytes, currentBit, codeSize, byteAdvance, n, code);
        if n > byteAdvance {
          return Ok, code;
        }
        res := BlockAdvance();
        if res != Ok {
          return res, 0;
        }
      }
    }

    /** n bytes of a code have been gathered out of the bytes that remained at its start; the
        code ends tail bits into byte number last. */
    ghost predicate Gathered(bytes: seq<byte>, currentBit: nat, last: nat, tail: nat, n: nat, code: nat)
      reads this
      requires Valid()
    {
      && n <= |bytes|
      && code == LittleEndian(bytes[..n])
      && if n <= last
         then Rest() == bytes[n..] && sbBit % 8 == (if n == 0 then currentBit else 0)
         else Rest() == bytes[n - 1..] && sbBit % 8 == tail
    }

    /** Take any bytes from the end of this sub-block. */
    method Gather(ghost bytes: seq<byte>, currentBit: nat, codeSize: nat, byteAdvance: nat, n0: nat, code0: nat)
      returns (n: nat, code: nat)
      requires Valid() && currentBit < 8 && 1 <= codeSize <= CODE_MAX && byteAdvance == (currentBit + codeSize) / 8
      requires n0 <= byteAdvance && Gathered(bytes, currentBit, byteAdvance, (currentBit + codeSize) % 8, n0, code0)
      modifies this`sbBit
      ensures Valid() && n <= byteAdvance + 1
      ensures Gathered(bytes, currentBit, byteAdvance, (currentBit + codeSize) % 8, n, code)
      ensures n <= byteAdvance ==> sbBit == sbBitCount
    {
      hide LittleEndian, Flatten;
      ghost var tail := (currentBit + codeSize) % 8;
      var bitsUsed := BitsUsed(currentBit, codeSize);
      n, code := n0, code0;
      while n <= byteAdvance && sbBit < sbBitCount
        invariant Valid() && n <= byteAdvance + 1
        invariant Gathered(bytes, currentBit, byteAdvance, tail, n, code)
        decreases byteAdvance + 1 - n
      {
        BitsUsedOf(currentBit, codeSize, byteAdvance, tail, n);
        var b := TakeByte(bitsUsed[n]);
        assert b == bytes[n] && bytes[n..][1..] == bytes[n + 1..];
        LittleEndianSnoc(bytes, n);
        code := code + Weigh(b, n);
        n := n + 1;
      }
    }
  }

  lemma LittleEndianSnoc(b: seq<byte>, n: nat)
    requires n < |b| && n < 3
    ensures LittleEndian(b[..n + 1]) == LittleEndian(b[..n]) + Weigh(b[n], n)
  {
    LittleEndianOf3(b[..n]);
    LittleEndianOf3(b[..n + 1]);
  }

  lemma LittleEndianOf3(b: seq<byte>)
    requires |b| <= 3
    ensures LittleEndian(b) == (if |b| > 0 then b[0] else 0) + (if |b| > 1 then b[1] as int * 256 else 0)
                               + (if |b| > 2 then b[2] as int * 65536 else 0)
  {
  }

  /** Masking a window of k bytes takes size bits off the flat bit string. */
  lemma TakeBits(bytes: seq<byte>, offset: nat, size: nat, k: nat)
    requires k <= |bytes| && offset + size < 8 * k
    ensures Mask(ShiftRight(LittleEndian(bytes[..k]), offset), size) == Value(Bits(bytes)[offset..][..size])
    ensures Bits(bytes[(offset + size) / 8..])[(offset + size) % 8..] == Bits(bytes)[offset..][size..]
  {
    var cut := (offset + size) / 8;
    WindowCode(bytes[..k], offset, size);
    BitsConcat(bytes[..k], bytes[k..]);
    assert bytes == bytes[..k] + bytes[k..];
    assert Bits(bytes)[offset..][..size] == Bits(bytes[..k])[offset..offset + size];
    BitsConcat(bytes[..cut], bytes[cut..]);
    assert bytes == bytes[..cut] + bytes[cut..];
    assert Bits(bytes)[offset..][size..] == Bits(bytes)[offset + size..];
  }
}
