/** Decoding frames of a scanned file in any order: the decode side of gif.c. */
module GifCanvas {
  import opened BitString
  import opened LzwReader
  import opened LzwDecoder
  import opened GifDraw
  import opened GifMovie

  const FRAME_INVALID: nat := 0xFFFF_FFFF

  class Gif {
    const movie: Movie
    const dataComplete: bool
    const lzw: LzwContext
    const bitmap: array<Colour>          // frame_image, one row span per image row

    var decodedFrame: nat                // frame in the bitmap, or FRAME_INVALID
    var prevFrame: seq<Colour>           // saved canvas
    var prevIndex: nat                   // the frame it was saved for, or FRAME_INVALID
    var localColourTable: seq<Colour>    // kept from frame to frame

    ghost var passTable: seq<Colour>     // the local colour table when frame 0 was last decoded

    /** nsgif_create and a complete scan. */
    constructor (m: Movie, complete: bool)
      requires m.Ok()
      ensures Valid() && movie == m && fresh(Repr()) && decodedFrame == FRAME_INVALID && localColourTable == movie.Zeros()
    {
      movie := m;
      dataComplete := complete;
      lzw := new LzwContext();
      bitmap := new Colour[m.width * m.height](_ => 0);
      decodedFrame, prevIndex, prevFrame := FRAME_INVALID, FRAME_INVALID, [];
      localColourTable := seq(256, _ => 0);
      passTable := seq(256, _ => 0);
    }

    ghost function Repr(): set<object>
      reads this
    {
      {this, lzw, lzw.input, lzw.table, lzw.stackBase, bitmap}
    }

    ghost predicate Allocated()
      reads this, lzw.input
    {
      && movie.Ok() && lzw.Allocated() && bitmap.Length == movie.width * movie.height
      && |localColourTable| == 256
    }

    /** The saved canvas is the one that stood before its frame was drawn. */
    ghost predicate SavedOk()
      reads this
      requires movie.Ok()
    {
      prevIndex != FRAME_INVALID ==>
        prevIndex < |movie.frames| && |prevFrame| == movie.width * movie.height && (movie.SafeBefore(prevIndex) ==> prevFrame == movie.Before(prevIndex))
    }

    /** What holds between calls. */
    ghost predicate Valid()
      reads this, lzw.input, bitmap
    {
      && Allocated() && SavedOk()
      && (movie.frames != [] ==> movie.Reachable(localColourTable))
      && (decodedFrame != FRAME_INVALID ==> Drawn(decodedFrame))
    }

    /** The bitmap holds frame f, drawn over what sequential play would have there, provided no
        earlier frame is a hazard. */
    ghost predicate Drawn(f: nat)
      reads this, lzw.input, bitmap
      requires Allocated()
    {
      && f < |movie.frames|
      && movie.Reachable(passTable) && localColourTable == movie.TableAfter(passTable, f)
      && (movie.SafeBefore(f) ==> bitmap[..] == movie.DrawFrame(f, localColourTable, movie.Before(f)))
      && (movie.frames[f].disposal == RestorePrev ==> prevIndex == f)
    }

    /** nsgif__record_frame */
    method RecordFrame()
      requires Allocated() && decodedFrame < |movie.frames| && SavedOk()
      requires movie.SafeBefore(decodedFrame) ==> bitmap[..] == movie.Before(decodedFrame)
      modifies this`prevFrame, this`prevIndex
      ensures SavedOk() && prevIndex == decodedFrame
    {
      if decodedFrame == FRAME_INVALID || decodedFrame == prevIndex {
        // No frame to copy, or already have this frame recorded.
        return;
      }
      prevFrame := bitmap[..];
      prevIndex := decodedFrame;
    }

    /** nsgif__recover_frame */
    method RecoverFrame()
      requires |prevFrame| == bitmap.Length
      modifies bitmap
      ensures bitmap[..] == prevFrame
    {
      for i := 0 to bitmap.Length
        invariant forall k :: 0 <= k < i ==> bitmap[k] == prevFrame[k]
      {
        bitmap[i] := prevFrame[i];
      }
    }

    /** nsgif__restore_bg without a frame. */
    method RestoreAll()
      requires bitmap.Length == movie.width * movie.height
      modifies bitmap
      ensures bitmap[..] == movie.Blank()
    {
      for i := 0 to bitmap.Length
        invariant forall k :: 0 <= k < i ==> bitmap[k] == TRANSPARENT_COLOUR
      {
        bitmap[i] := TRANSPARENT_COLOUR;
      }
    }

    /** One scan line of nsgif__restore_bg. */
    method FillLine(scanline: nat, width: nat, colour: Colour)
      requires scanline + width <= bitmap.Length
      modifies bitmap
      ensures bitmap[..] == Fill(old(bitmap[..]), scanline, width, colour)
    {
      for x := 0 to width
        invariant forall k :: 0 <= k < bitmap.Length ==>
                    bitmap[k] == if scanline <= k < scanline + x then colour else old(bitmap[k])
      {
        bitmap[scanline + x] := colour;
      }
    }

    /** nsgif__restore_bg for a frame. */
    method RestoreFrame(f: nat)
      requires bitmap.Length == movie.width * movie.height && f < |movie.frames|
      modifies bitmap
      ensures bitmap[..] == movie.Clear(f, old(bitmap[..]))
    {
      hide Fill;
      var frame := movie.frames[f];
      if frame.x0 >= movie.width || frame.y0 >= movie.height {
        return;
      }
      var width := frame.width - Clip(frame.x0, frame.width, movie.width);
      var height := frame.height - Clip(frame.y0, frame.height, movie.height);
      var colour := if frame.transparency then TRANSPARENT_COLOUR else movie.background;
      ghost var area := movie.AreaOf(f).(interlaced := false);
      ghost var before := bitmap[..];
      for y := 0 to height
        invariant bitmap[..] == movie.ClearRows(f, before, y)
      {
        RowStartIs(area, y);
        FillLine(frame.x0 + (frame.y0 + y) * movie.width, width, colour);
      }
    }

    /** The first half of nsgif__update_bitmap: clear or restore what the previous frame asks for, and
        save the canvas if this frame will have to be undone. */
    method PrepareCanvas(f: nat)
      requires Allocated() && SavedOk() && f < |movie.frames| && decodedFrame == f
      requires f > 0 && movie.SafeBefore(f) ==> bitmap[..] == movie.Composite(f - 1)
      requires f > 0 && movie.frames[f - 1].disposal == RestorePrev ==> prevIndex == f - 1
      modifies this`prevFrame, this`prevIndex, bitmap
      ensures Allocated() && SavedOk()
      ensures movie.SafeBefore(f) ==> bitmap[..] == movie.Before(f)
      ensures movie.frames[f].disposal == RestorePrev ==> prevIndex == f
    {
      hide Movie.Composite, Movie.Clear, Movie.Hazard, Movie.Blank, Movie.FrameOk, LzwContext.Allocated;
      assert movie.SafeBefore(f) && f > 0 ==> movie.SafeBefore(f - 1);
      if f == 0 {
        RestoreAll();
      } else {
        var disposal := movie.frames[f - 1].disposal;
        if disposal == RestoreBg {
          RestoreFrame(f - 1);
        } else if disposal == RestorePrev {
          RecoverFrame();
        }
      }
      if movie.frames[f].disposal == RestorePrev {
        RecordFrame();
      }
    }

    /** What decoding a frame returns: all the data there is may be too little. */
    ghost function Result(f: nat): GifError
      requires movie.Ok() && f < |movie.frames|
    {
      var area := movie.AreaOf(f);
      assert movie.FrameOk(movie.frames[f]);
      var out := FrameOutput(movie.buf, movie.frames[f].data);
      var ret := if FullWidth(area) then SimpleResult(area, out) else ComplexResult(area, out);
      if dataComplete && ret == EndOfData then Success else ret
    }

    /** nsgif__decode: the fast path where it applies, the general one otherwise. */
    method DecodeFrame(f: nat, colourTable: seq<Colour>) returns (ret: GifError)
      requires Allocated() && f < |movie.frames| && |colourTable| == 256
      modifies lzw, lzw.input, lzw.table, lzw.stackBase, bitmap
      ensures Allocated()
      ensures bitmap[..] == movie.AreaOf(f).Draw(InkFor(colourTable, movie.frames[f].transparencyIndex),
                                                 movie.Values(f), old(bitmap[..]))
      ensures ret == Result(f)
    {
      hide LzwContext.Allocated, Area.Draw, FrameOutput, SimpleResult, ComplexResult;
      var frame := movie.frames[f];
      var area := Area(movie.width, movie.height, frame.x0, frame.y0, frame.width, frame.height, frame.interlaced);
      assert movie.FrameOk(frame);
      if !frame.interlaced && frame.x0 == 0 && frame.width == movie.width {
        ret := DecodeSimple(lzw, movie.buf, frame.data, area, frame.transparencyIndex, bitmap, colourTable);
      } else {
        ret := DecodeComplex(lzw, movie.buf, frame.data, area, frame.transparencyIndex, bitmap, colourTable);
      }
      if dataComplete && ret == EndOfData {
        // This is all the data there is, so make do.
        ret := Success;
      }
    }

    /** nsgif__parse_colour_table with decode set: a local palette goes over the front of the table. */
    method ParseColourTable(f: nat)
      requires Allocated() && f < |movie.frames| && movie.Reachable(localColourTable)
      requires f > 0 ==> movie.Reachable(passTable) && localColourTable == movie.TableAfter(passTable, f - 1)
      modifies this`localColourTable, this`passTable
      ensures Allocated() && movie.Reachable(passTable) && movie.Reachable(localColourTable)
      ensures localColourTable == movie.TableAfter(passTable, f)
      ensures passTable == if f == 0 then old(localColourTable) else old(passTable)
    {
      hide LzwContext.Allocated;
      if f == 0 { passTable := localColourTable; }
      movie.TableReachable(passTable, f);
      var frame := movie.frames[f];
      assert movie.FrameOk(frame);
      if frame.palette.Local? {
        localColourTable := frame.palette.colours + localColourTable[|frame.palette.colours|..];
      }
    }

    /** A frame in the bitmap that is no hazard is the composite of sequential play. */
    lemma DrawnComposite()
      requires Valid() && decodedFrame < |movie.frames| && movie.SafeBefore(decodedFrame) && !movie.Hazard(decodedFrame)
      ensures bitmap[..] == movie.Composite(decodedFrame)
    {
      hide LzwContext.Allocated, Movie.Hazard, Movie.DrawFrame, Movie.TableAfter, Movie.Reachable, Movie.Before;
      movie.DrawIndependent(decodedFrame, passTable, movie.Before(decodedFrame));
    }

    /** nsgif__process_frame with decode set, for a frame that follows the one in the bitmap or starts
        over: colour table, then nsgif__update_bitmap. */
    method ProcessFrame(f: nat) returns (ret: GifError)
      requires Valid() && f < |movie.frames|
      requires f == 0 || decodedFrame == f - 1 || decodedFrame == f
      modifies Repr()
      ensures Valid() && decodedFrame == f && ret == if f == old(decodedFrame) then Success else Result(f)
      ensures f == 0 && old(decodedFrame) != 0 ==> passTable == old(localColourTable)
      ensures f > 0 || old(decodedFrame) == 0 ==> passTable == old(passTable)
    {
      hide LzwContext.Allocated, Movie.Composite, Movie.DrawFrame, Movie.TableAfter, Movie.Reachable, Movie.Before,
           Movie.FrameOk, Movie.Hazard, Result;
      if f == decodedFrame {
        return Success;
      }
      if f > 0 && movie.SafeBefore(f) {
        assert movie.SafeBefore(f - 1) && !movie.Hazard(f - 1);
        DrawnComposite();
      }
      ParseColourTable(f);
      ret := UpdateBitmap(f);
    }

    /** nsgif__update_bitmap */
    method UpdateBitmap(f: nat) returns (ret: GifError)
      requires Allocated() && SavedOk() && f < |movie.frames|
      requires f > 0 && movie.SafeBefore(f) ==> bitmap[..] == movie.Composite(f - 1)
      requires f > 0 && movie.frames[f - 1].disposal == RestorePrev ==> prevIndex == f - 1
      modifies this`decodedFrame, this`prevFrame, this`prevIndex, lzw, lzw.input, lzw.table, lzw.stackBase, bitmap
      ensures Allocated() && SavedOk() && decodedFrame == f && ret == Result(f)
      ensures movie.SafeBefore(f) ==> bitmap[..] == movie.DrawFrame(f, localColourTable, movie.Before(f))
      ensures movie.frames[f].disposal == RestorePrev ==> prevIndex == f
    {
      hide LzwContext.Allocated, Movie.Composite, Area.Draw, Movie.Before, Movie.SafeBefore, FrameOutput, Movie.FrameOk, Result;
      decodedFrame := f;
      PrepareCanvas(f);
      var colourTable := if movie.frames[f].palette.Local? then localColourTable else movie.globalTable;
      ret := DecodeFrame(f, colourTable);
    }

    /** nsgif_frame_decode: bring any frame into the bitmap, going on from the one that is there or
        starting over. In a file without hazards the bitmap is then the composite of sequential play. */
    method FrameDecode(frame: nat) returns (ret: GifError)
      requires Valid()
      modifies Repr()
      ensures Valid()
      ensures frame >= |movie.frames| ==> ret == BadFrame && decodedFrame == old(decodedFrame)
      ensures frame < |movie.frames| && old(decodedFrame) == frame ==> ret == Success && decodedFrame == frame
      ensures frame < |movie.frames| && old(decodedFrame) != frame ==>
                var start := if old(decodedFrame) < frame then old(decodedFrame) + 1 else 0;
                && start <= decodedFrame <= frame && ret == Result(decodedFrame) && (ret == Success ==> decodedFrame == frame)
                && forall g :: start <= g < decodedFrame ==> Result(g) == Success
      ensures frame < |movie.frames| && old(decodedFrame) < frame ==> decodedFrame > old(decodedFrame)
      ensures frame < |movie.frames| ==>
                passTable == if frame < old(decodedFrame) then old(localColourTable) else old(passTable)
      ensures decodedFrame != FRAME_INVALID && movie.SafeBefore(|movie.frames|) ==> bitmap[..] == movie.Composite(decodedFrame)
    {
      hide LzwContext.Allocated, Movie.Composite, Movie.FrameOk, Movie.Hazard, Drawn, SavedOk, Result;
      if frame >= |movie.frames| {
        SafeComposite();
        return BadFrame;
      }
      if decodedFrame == frame {
        SafeComposite();
        return Success;
      }
      var startFrame;
      if decodedFrame >= frame || decodedFrame == FRAME_INVALID {
        // Can skip to first frame or restart.
        startFrame := 0;
      } else {
        startFrame := decodedFrame + 1;
      }
      ret := Success;
      var f := startFrame;
      while f <= frame
        invariant Valid() && startFrame <= f <= frame + 1
        invariant f == startFrame ==> decodedFrame == old(decodedFrame) && passTable == old(passTable) && localColourTable == old(localColourTable)
        invariant f > startFrame ==> decodedFrame == f - 1 && ret == Success
        invariant forall g :: startFrame <= g < f ==> Result(g) == Success
        invariant f > startFrame ==> passTable == if startFrame == 0 then old(localColourTable) else old(passTable)
        decreases frame + 1 - f
      {
        ret := ProcessFrame(f);
        if ret != Success {
          SafeComposite();
          return;
        }
        f := f + 1;
      }
      SafeComposite();
    }

    lemma SafeComposite()
      requires Valid()
      ensures decodedFrame != FRAME_INVALID && movie.SafeBefore(|movie.frames|) ==> bitmap[..] == movie.Composite(decodedFrame)
    {
      if decodedFrame != FRAME_INVALID && movie.SafeBefore(|movie.frames|) {
        DrawnComposite();
      }
    }

    /** Random access equals sequential play: whatever frames are requested in whatever order, the
        bitmap is the composite of all frames up to the one it holds. */
    method Play(requests: seq<nat>)
      requires Valid() && movie.SafeBefore(|movie.frames|)
      modifies Repr()
      ensures Valid()
      ensures decodedFrame != FRAME_INVALID ==> decodedFrame < |movie.frames| && bitmap[..] == movie.Composite(decodedFrame)
      ensures prevIndex != FRAME_INVALID ==> prevIndex < |movie.frames| && prevFrame == movie.Before(prevIndex)
    {
      SafeComposite();
      for i := 0 to |requests|
        invariant Valid()
        invariant decodedFrame != FRAME_INVALID ==> bitmap[..] == movie.Composite(decodedFrame)
      {
        var _ := FrameDecode(requests[i]);
      }
    }

    /** Ask for a frame until it is there; a frame with bad data is drawn as far as it goes. */
    method Reach(frame: nat)
      requires Valid() && frame < |movie.frames|
      modifies Repr()
      ensures Valid() && decodedFrame == frame
      ensures passTable == if frame < old(decodedFrame) then old(localColourTable) else old(passTable)
    {
      hide LzwContext.Allocated, Movie.Composite, Movie.FrameOk, Movie.Hazard, Drawn, SavedOk;
      var ret := FrameDecode(frame);
      while decodedFrame != frame
        invariant Valid() && decodedFrame <= frame
        invariant passTable == if frame < old(decodedFrame) then old(localColourTable) else old(passTable)
        decreases frame - decodedFrame
      {
        ret := FrameDecode(frame);
      }
    }

    /** In a file with a hazard random access fails: after playing a fresh decoder to the end, going
        back to the first hazard does not give the composite of sequential play. */
    method GoBack(f: nat)
      requires Valid() && decodedFrame == FRAME_INVALID && localColourTable == movie.Zeros()
      requires f < |movie.frames| && movie.SafeBefore(f) && movie.Hazard(f)
      modifies Repr()
      ensures Valid() && decodedFrame == f && bitmap[..] != movie.Composite(f)
    {
      hide LzwContext.Allocated, Movie.DrawFrame, Movie.FrameOk, Movie.Hazard, SavedOk, Movie.Reachable, Movie.Before,
           Movie.TableAfter;
      var last := |movie.frames| - 1;
      HazardShows(movie, f, movie.Before(f));
      Reach(last);
      Reach(f);
    }
  }
}
