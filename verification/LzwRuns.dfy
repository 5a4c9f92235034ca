/** Clients that call the resumable decoder many times. */
module LzwRuns {
  import opened BitString
  import opened LzwReader
  import opened LzwSpec
  import opened LzwDecoder
  import opened LzwEncoder

  function Sum(lengths: seq<nat>): nat {
    if lengths == [] then 0 else lengths[0] + Sum(lengths[1..])
  }

  /** However a client cuts its buffer into calls, the calls together paint what one textbook
      decode would, and all of them succeed exactly if there are enough values. */
  method DecodeInCalls(ctx: LzwContext, output: array<Colour>, base: nat, lengths: seq<nat>)
    returns (res: LzwResult, total: nat)
    requires ctx.Decoding() && ctx.Mapped() && base + Sum(lengths) <= output.Length
    modifies ctx, ctx.input, ctx.table, output
    ensures total == Min(Sum(lengths), |old(ctx.Future()).values|)
    ensures output[..] == old(ctx.CurrentInk()).PaintRun(old(output[..]), base, old(ctx.Future()).values[..total])
    ensures res == Ok <==> Sum(lengths) <= |old(ctx.Future()).values|
    ensures res != Ok ==> res == old(ctx.Future()).end
    decreases |lengths|
  {
    hide LzwContext.Decoding, LzwContext.Future, LzwContext.Allocated, Ink.PaintRun;
    ghost var f, ink, before := ctx.Future(), ctx.CurrentInk(), output[..];
    if lengths == [] {
      ink.PaintNothing(before, base);
      return Ok, 0;
    }
    var n;
    res, n := ctx.DecodeMap(output, base, lengths[0]);
    if res != Ok {
      return res, n;
    }
    ghost var rest := f.values[n..];
    res, total := DecodeInCalls(ctx, output, base + n, lengths[1..]);
    ink.PaintRunTwice(before, base, f.values[..n], rest[..total]);
    assert f.values[..n] + rest[..total] == f.values[..n + total];
    total := n + total;
  }

  lemma BufferSize(ctx: LzwContext)
    requires ctx.Allocated()
    ensures ctx.stackBase.Length == TABLE_ENTRY_MAX
  {
  }

  /** A client that reads on until the decoder stops gets all the textbook values, and why they end. */
  method DecodeAll(ctx: LzwContext, minimumCodeSize: byte, data: seq<byte>, pos: nat)
    returns (values: seq<byte>, res: LzwResult)
    requires ctx.Allocated() && minimumCodeSize < CODE_MAX
    modifies ctx, ctx.input, ctx.table, ctx.stackBase
    ensures Output(values, res) == DecodeAt(minimumCodeSize, data, pos)
  {
    hide DecodeAt, LzwContext.Decoding, LzwContext.Future, LzwContext.Allocated;
    assert ctx.stackBase.Length == TABLE_ENTRY_MAX by { BufferSize(ctx); }
    ghost var all := DecodeAt(minimumCodeSize, data, pos);
    values := [];
    res := ctx.DecodeInit(minimumCodeSize, data, pos);
    while res == Ok
      invariant ctx.Allocated()
      invariant if res == Ok then ctx.Decoding() && all == Emit(values, ctx.Future()) else all == Output(values, res)
      decreases if res == Ok then 1 + |ctx.Future().values| else 0
    {
      ghost var future := ctx.Future();
      var n;
      res, n := ctx.Decode();
      EmitEmit(values, future.values[..n], Output(future.values[n..], future.end));
      values := values + ctx.stackBase[..n];
    }
  }

  /** Decoding the image data of an Appendix F encoder gives back what it encoded. */
  method DecodeImage(ctx: LzwContext, minimumCodeSize: byte, ghost values: seq<byte>, ghost clears: nat -> bool,
                     data: seq<byte>, pos: nat, ghost rest: seq<byte>)
    returns (decoded: seq<byte>)
    requires ctx.Allocated() && 2 <= minimumCodeSize < CODE_MAX
    requires forall i :: 0 <= i < |values| ==> values[i] < Pow2(minimumCodeSize)
    requires pos <= |data| && data[pos..] == ImageData(minimumCodeSize, values, clears) + rest
    modifies ctx, ctx.input, ctx.table, ctx.stackBase
    ensures decoded == values
  {
    hide DecodeAt, ImageData;
    ImageRoundTrip(minimumCodeSize, values, clears, data[..pos], rest);
    assert data == data[..pos] + ImageData(minimumCodeSize, values, clears) + rest;
    var res;
    decoded, res := DecodeAll(ctx, minimumCodeSize, data, pos + 1);
  }
}
