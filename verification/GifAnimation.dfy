/** Which frames of a file can be shown, and which one is shown next: the scan bookkeeping and
    nsgif_frame_prepare of gif.c. */
module GifAnimation {
  import opened GifDraw

  const FRAME_INVALID: nat := 0xFFFF_FFFF
  const INFINITE: nat := 0xFFFF_FFFF

  datatype FrameInfo = FrameInfo(display: bool, delay: nat, lzwDataLength: nat)

  /** How far one call of nsgif__process_frame gets when it scans. */
  datatype Scan =
    | NoImage                       // the trailer, or an error before any image data
    | NoData                        // image data too short, or at the trailer
    | Truncated(bytes: nat)         // image data that runs off the end
    | Whole(bytes: nat)             // image data up to its terminator

  class Animation {
    var frames: seq<FrameInfo>      // frame holders
    var frameCount: nat             // whole frames
    var frameCountPartial: nat      // frames whose image data was started
    var dataComplete: bool
    var frame: nat                  // current frame, or FRAME_INVALID
    var loopCount: nat
    var loopMax: nat                // 0 for ever
    var delayMin: nat
    var delayDefault: nat

    /** Every frame below the frame count can be displayed. */
    ghost predicate Valid()
      reads this
    {
      && frameCount <= frameCountPartial <= frameCount + 1
      && frameCountPartial <= |frames| < FRAME_INVALID
      && (forall f :: 0 <= f < frameCount ==> frames[f].display)
      && (forall f :: 0 <= f < |frames| ==> frames[f].delay < 0x1_0000)
      && (frame == FRAME_INVALID || frame < frameCount)
      && delayMin < 0x1_0000 && delayDefault < 0x1_0000
    }

    constructor (max: nat)
      ensures Valid() && frameCount == 0 && !dataComplete && frame == FRAME_INVALID && loopCount == 0 && loopMax == max
    {
      frames, frameCount, frameCountPartial, dataComplete := [], 0, 0, false;
      frame, loopCount, loopMax, delayMin, delayDefault := FRAME_INVALID, 0, max, 2, 10;
    }

    /** nsgif__get_frame: a holder for the frame, made if there is none. */
    method GetFrame(f: nat)
      requires Valid() && f == frameCount && f + 1 < FRAME_INVALID
      modifies this`frames
      ensures Valid() && f < |frames|
      ensures frames == old(frames) + if f < |old(frames)| then [] else [FrameInfo(false, 10, 0)]
    {
      if f >= |frames| {
        frames := frames + [FrameInfo(false, 10, 0)];
      }
    }

    /** nsgif__process_frame without decoding: only a whole frame is counted, and it is displayable. */
    method ScanFrame(scan: Scan, delay: nat)
      requires Valid() && !dataComplete && frameCount + 1 < FRAME_INVALID && delay < 0x1_0000
      modifies this`frames, this`frameCount, this`frameCountPartial
      ensures Valid() && frameCount == old(frameCount) + (if scan.Whole? then 1 else 0)
      ensures frameCountPartial == if scan.NoImage? then old(frameCountPartial) else old(frameCount) + 1
      ensures var f := old(frameCount);
              var holder := if f < |old(frames)| then old(frames)[f] else FrameInfo(false, 10, 0);
              var bytes := if scan.Truncated? || scan.Whole? then scan.bytes else 0;
              && |frames| == (if f < |old(frames)| then |old(frames)| else f + 1)
              && frames[f] == FrameInfo(holder.display || scan.Whole?, delay, holder.lzwDataLength + bytes)
              && forall g :: 0 <= g < |old(frames)| && g != f ==> frames[g] == old(frames)[g]
    {
      var f := frameCount;
      GetFrame(f);
      frames := frames[f := frames[f].(delay := delay)];
      if scan.NoImage? {
        return;
      }
      frameCountPartial := f + 1;
      match scan {
        case NoData =>
        case Truncated(bytes) =>
          frames := frames[f := frames[f].(lzwDataLength := frames[f].lzwDataLength + bytes)];
        case Whole(bytes) =>
          frames := frames[f := frames[f].(lzwDataLength := frames[f].lzwDataLength + bytes)];
          frameCount := f + 1;
          frames := frames[f := frames[f].(display := true)];
      }
    }

    /** nsgif_data_complete: a started last frame that has any data is shown after all. */
    method DataComplete()
      requires Valid()
      modifies this`frames, this`frameCount, this`dataComplete
      ensures Valid() && dataComplete
      ensures var f := old(frameCount);
              if !old(dataComplete) && f < frameCountPartial && old(frames)[f].lzwDataLength > 0
              then frameCount == f + 1 && frames == old(frames)[f := old(frames)[f].(display := true)]
              else frameCount == f && frames == old(frames)
    {
      if !dataComplete {
        var f, end := frameCount, frameCountPartial;
        while f < end
          invariant frameCount == old(frameCount) <= f <= end && frames == old(frames)
          invariant f > frameCount ==> frames[frameCount].lzwDataLength == 0
        {
          if frames[f].lzwDataLength > 0 {
            frames := frames[f := frames[f].(display := true)];
            frameCount := f + 1;
            break;
          }
          f := f + 1;
        }
      }
      dataComplete := true;
    }

    /** nsgif__frame_next over whole frames. */
    function FrameNext(f: nat): nat
      reads this
    {
      if frameCount == 0 then FRAME_INVALID
      else
        var next := (f + 1) % 0x1_0000_0000;
        if next >= frameCount then 0 else next
    }

    /** Why there is no next frame, if there is none. */
    function NextResult(start: nat): GifError
      reads this
    {
      if start != FRAME_INVALID && FrameNext(start) <= start && !dataComplete then EndOfData
      else if FrameNext(start) == start then FrameDisplay
      else Success
    }

    /** nsgif__next_displayable_frame: the very next frame, since all can be displayed. */
    method NextDisplayable(start: nat) returns (ret: GifError, next: nat, delay: nat)
      requires Valid() && (start == FRAME_INVALID || start < frameCount)
      ensures ret == NextResult(start)
      ensures ret == Success ==> next == FrameNext(start) < frameCount && delay == frames[next].delay
    {
      next, delay := start, 0;
      var again := true;
      while again
        invariant again ==> next == start && delay == 0
        invariant !again ==> next == FrameNext(start) < frameCount && delay == frames[next].delay
        invariant !again ==> next != start && !(start != FRAME_INVALID && next <= start && !dataComplete)
        decreases again
      {
        next := FrameNext(next);
        if next <= start && start != FRAME_INVALID && !dataComplete {
          return EndOfData, next, delay;
        } else if next == start || next == FRAME_INVALID {
          return FrameDisplay, next, delay;
        }
        delay := delay + frames[next].delay;
        again := !frames[next].display;
      }
      return Success, next, delay;
    }

    /** nsgif__animation_complete */
    predicate Complete(count: nat)
      reads this
    {
      loopMax != 0 && count >= loopMax
    }

    /** nsgif_reset */
    method Reset()
      requires Valid()
      modifies this`loopCount, this`frame
      ensures Valid() && loopCount == 0 && frame == FRAME_INVALID
    {
      loopCount := 0;
      frame := FRAME_INVALID;
    }

    /** nsgif_frame_prepare, for a file that has been completely read and has several frames. */
    ghost predicate Animated()
      reads this
    {
      Valid() && dataComplete && frameCount >= 2
    }

    /** The part of nsgif_frame_prepare that finds the last frame of the last loop, which is shown for good. */
    method LastDelay(next: nat, delay0: nat) returns (delay: nat)
      requires Valid() && dataComplete && next < frameCount
      ensures delay == if frameCount == 1 || (next == frameCount - 1 && Complete(loopCount + 1)) then INFINITE else delay0
    {
      delay := delay0;
      if frameCount == 1 {
        delay := INFINITE;
      } else if loopMax != 0 {
        var ret, after, unused := NextDisplayable(next);   // cannot fail with several frames
        if after < next && Complete(loopCount + 1) {
          delay := INFINITE;
        }
      }
    }

    /** A delay that is too short becomes the default, and any other stays. */
    ghost predicate AdjustedTo(wanted: nat, delay: nat)
      reads this
    {
      (wanted < delayMin ==> delay == delayDefault) && (wanted >= delayMin ==> delay == wanted)
    }

    /** From this frame and loop the next frame was reached, to be shown for this long: for good if it is the
        only frame or the last one of the last loop. */
    ghost predicate MovedOn(start: nat, count: nat, delay: nat)
      reads this
    {
      && frame == FrameNext(start) < frameCount <= |frames|
      && loopCount == count + (if start != FRAME_INVALID && frame < start then 1 else 0)
      && AdjustedTo(if dataComplete && (frameCount == 1 || (frame == frameCount - 1 && Complete(loopCount + 1)))
                    then INFINITE else frames[frame].delay, delay)
    }

    /** nsgif_frame_prepare: the frame to show next and for how long. */
    method FramePrepare() returns (ret: GifError, delay: nat)
      requires Valid()
      modifies this`frame, this`loopCount
      ensures Valid()
      ensures ret != Success ==> frame == old(frame) && loopCount == old(loopCount)
      ensures ret == if old(Complete(loopCount)) then AnimationEnd else NextResult(old(frame))
      ensures ret == Success ==> MovedOn(old(frame), old(loopCount), delay)
      ensures !old(Complete(loopCount)) && Animated() ==>
                && ret == Success && frame == FrameNext(old(frame))
                && loopCount == old(loopCount) + (if old(frame) == frameCount - 1 then 1 else 0)
                && (delay == INFINITE <==> frame == frameCount - 1 && Complete(loopCount + 1))
    {
      delay := 0;
      var next := frame;
      if Complete(loopCount) {
        return AnimationEnd, 0;
      }
      ret, next, delay := NextDisplayable(next);
      if ret != Success {
        return;
      }
      if frame != FRAME_INVALID && next < frame {
        loopCount := loopCount + 1;
      }
      if dataComplete {
        delay := LastDelay(next, delay);
      }
      frame := next;
      if delay < delayMin {
        delay := delayDefault;
      }
    }

    /** The whole trace after a reset: call number i (from 0) shows frame i mod n; with a limit of N
        loops the delay is infinite exactly at call N * n - 1, one more call wraps to frame 0, and from
        then on the animation has ended. */
    method Watch(calls: nat) returns (trace: seq<Shown>)
      requires Animated()
      modifies this`frame, this`loopCount
      ensures |trace| == calls
      ensures forall i :: 0 <= i < calls ==> trace[i] == Expected(frameCount, loopMax, i)
    {
      hide Valid, NextResult, MovedOn;
      Reset();
      trace := [];
      var n := frameCount;
      ghost var q, p, total := 0, 0, loopMax * n;   // the next frame is p in loop q
      while |trace| < calls
        invariant Animated() && n == frameCount && |trace| <= calls && p < n && total == loopMax * n
        invariant frame == if |trace| == 0 then FRAME_INVALID else if p == 0 then n - 1 else p - 1
        invariant loopMax == 0 || |trace| <= total ==>
                    |trace| == q * n + p && loopCount == (if p == 0 && q > 0 then q - 1 else q)
        invariant loopMax != 0 && |trace| > total ==> loopCount == loopMax
        invariant forall i :: 0 <= i < |trace| ==> trace[i] == Expected(n, loopMax, i)
        decreases calls - |trace|
      {
        ghost var i := |trace|;
        var ret, delay := FramePrepare();
        if loopMax == 0 || i <= total {
          Position(i, n, q, p, loopMax, total);
        }
        trace := trace + [if ret == Success then Show(frame, delay == INFINITE) else Ended];
        if loopMax == 0 || i <= total {
          p := p + 1;
          if p == n { q, p := q + 1, 0; }
        }
      }
    }
  }

  datatype Shown = Show(frame: nat, forever: bool) | Ended

  function Expected(n: nat, loopMax: nat, i: nat): Shown
    requires n > 0
  {
    if loopMax != 0 && i > loopMax * n then Ended
    else Show(i % n, loopMax != 0 && i == loopMax * n - 1)
  }

  /** Where call i stands among the loops. */
  lemma Position(i: nat, n: nat, q: nat, p: nat, loopMax: nat, total: nat)
    requires n > 0 && p < n && i == q * n + p && total == loopMax * n
    ensures i % n == p
    ensures (q + 1) * n == q * n + n
    ensures q > loopMax ==> i >= total + n
    ensures q == loopMax ==> i == total + p
    ensures q < loopMax ==> i < total
    ensures q + 1 == loopMax ==> total == q * n + n
    ensures q + 1 < loopMax ==> i < total - 1
  {
    Remainder(i, n, q, p);
    assert (q + 1) * n == q * n + n;
    if q > loopMax { Multiply(loopMax + 1, q, n); assert (loopMax + 1) * n == total + n; }
    if q < loopMax { Multiply(q + 1, loopMax, n); }
    if q + 1 < loopMax { Multiply(q + 2, loopMax, n); assert (q + 2) * n == q * n + 2 * n; }
  }

  lemma Multiply(a: nat, b: nat, n: nat)
    requires a <= b
    ensures a * n <= b * n
  {
  }

  lemma Remainder(i: nat, n: nat, q: nat, p: nat)
    requires n > 0 && p < n && i == q * n + p
    ensures i % n == p
  {
    var d := i / n;
    assert i == d * n + i % n;
    assert (q + 1) * n == q * n + n && (d + 1) * n == d * n + n;
    if d > q { Multiply(q + 1, d, n); }
    if d < q { Multiply(d + 1, q, n); }
  }
}
