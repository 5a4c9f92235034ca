/** Data cut into sub-blocks of 1 to 255 bytes, each after its own length (section 15 of
    GIF89a), and what a reader of codes gets out of them. */
module SubBlocks {
  import opened BitString
  import opened LzwReader

  type Block = b: seq<byte> | 1 <= |b| <= 255 witness [0]

  /** The blocks as they lie in a file. */
  function Lay(blocks: seq<Block>): seq<byte> {
    if blocks == [] then [] else [|blocks[0]|] + blocks[0] + Lay(blocks[1..])
  }

  ghost function Join(blocks: seq<Block>): seq<byte> {
    if blocks == [] then [] else blocks[0] + Join(blocks[1..])
  }

  /** Bytes that neither end the sub-blocks nor hold a whole one. */
  ghost predicate Truncated(part: seq<byte>) {
    part == [] || |part| - 1 < part[0]
  }

  /** Sub-blocks up to their terminator give back the bytes that were cut, wherever they lie. */
  lemma FlattenLaid(p: seq<byte>, blocks: seq<Block>, rest: seq<byte>)
    ensures Flatten(p + Lay(blocks) + [0] + rest, |p|) == Flat(Join(blocks), OkEod)
  {
    hide Flatten, Lay, Join;
    assert (p + Lay(blocks) + [0] + rest)[|p|..] == Lay(blocks) + ([0] + rest);
    FlattenFrom(p + Lay(blocks) + [0] + rest, |p|, blocks, [0] + rest);
  }

  /** Without a terminator the whole sub-blocks still count, and reading ends for want of data. */
  lemma FlattenTruncated(p: seq<byte>, blocks: seq<Block>, part: seq<byte>)
    requires Truncated(part)
    ensures Flatten(p + Lay(blocks) + part, |p|) == Flat(Join(blocks), NoData)
  {
    hide Flatten, Lay, Join;
    assert (p + Lay(blocks) + part)[|p|..] == Lay(blocks) + part;
    FlattenFrom(p + Lay(blocks) + part, |p|, blocks, part);
  }

  lemma {:induction false} FlattenFrom(data: seq<byte>, pos: nat, blocks: seq<Block>, rest: seq<byte>)
    requires pos <= |data| && data[pos..] == Lay(blocks) + rest
    requires Truncated(rest) || rest[0] == 0
    ensures Flatten(data, pos) == Flat(Join(blocks), if Truncated(rest) then NoData else OkEod)
    decreases |blocks|
  {
    if blocks == [] {
      assert data[pos..] == rest;
      assert rest != [] ==> data[pos] == rest[0];
    } else {
      var b, next := blocks[0], pos + |blocks[0]| + 1;
      assert Lay(blocks) + rest == [|b|] + b + (Lay(blocks[1..]) + rest);
      LaidHead(data, pos, b, Lay(blocks[1..]) + rest);
      FlattenFrom(data, next, blocks[1..], rest);
      assert Flatten(data, pos).bytes == b + Flatten(data, next).bytes;
    }
  }

  lemma LaidHead(data: seq<byte>, pos: nat, b: Block, rest: seq<byte>)
    requires pos <= |data| && data[pos..] == [|b|] + b + rest
    ensures pos + |b| < |data| && data[pos] == |b| && data[pos + 1..pos + 1 + |b|] == b
    ensures data[pos + |b| + 1..] == rest
  {
    var tail := data[pos..];
    assert tail[0] == |b| && tail[1..|b| + 1] == b && tail[|b| + 1..] == rest;
    assert data[pos + 1..pos + 1 + |b|] == tail[1..|b| + 1];
  }

  /** Every file is one of the two from every position. */
  lemma {:induction false} LaidOut(data: seq<byte>, pos: nat) returns (blocks: seq<Block>, rest: seq<byte>)
    requires pos <= |data|
    ensures data[pos..] == Lay(blocks) + rest
    ensures Truncated(rest) || rest[0] == 0
    decreases |data| - pos
  {
    var rest0 := data[pos..];
    if Truncated(rest0) || rest0[0] == 0 {
      return [], rest0;
    }
    var n := rest0[0];
    var b: Block := rest0[1..n + 1];
    blocks, rest := LaidOut(data, pos + n + 1);
    assert rest0 == [n] + b + data[pos + n + 1..];
    assert ([b] + blocks)[1..] == blocks;
    blocks := [b] + blocks;
  }

  /** The codes of the given widths at the front of a bit string. A code is there only if a bit follows it. */
  ghost function CodesOf(bits: seq<bool>, widths: seq<nat>): seq<nat> {
    if widths == [] || |bits| <= widths[0] then []
    else [Value(bits[..widths[0]])] + CodesOf(bits[widths[0]..], widths[1..])
  }

  /** A reader of codes sees the joined bytes: where they were cut makes no difference. */
  method ReadLaid(p: seq<byte>, blocks: seq<Block>, rest: seq<byte>, widths: seq<nat>)
    returns (codes: seq<nat>, res: LzwResult)
    requires forall i :: 0 <= i < |widths| ==> 1 <= widths[i] <= CODE_MAX
    requires Truncated(rest) || rest[0] == 0
    ensures codes == CodesOf(Bits(Join(blocks)), widths)
    ensures res == if |codes| == |widths| then Ok else if Truncated(rest) then NoData else OkEod
  {
    hide Flatten, Bits, Value, Lay, Join;
    if Truncated(rest) {
      FlattenTruncated(p, blocks, rest);
    } else {
      FlattenLaid(p, blocks, rest[1..]);
      assert p + Lay(blocks) + [0] + rest[1..] == p + Lay(blocks) + rest;
    }
    var input := new ReadContext();
    input.Init(p + Lay(blocks) + rest, |p|);
    ghost var bits, end := input.Remaining(), input.End();
    codes, res := [], Ok;
    var i := 0;
    while i < |widths|
      invariant 0 <= i == |codes| <= |widths| && input.Valid() && input.End() == end
      invariant codes + CodesOf(input.Remaining(), widths[i..]) == CodesOf(bits, widths)
    {
      var code;
      res, code := input.ReadCode(widths[i]);
      if res != Ok {
        return;
      }
      codes := codes + [code];
      assert widths[i..][1..] == widths[i + 1..];
      i := i + 1;
    }
    res := Ok;
  }
}
