/** What drawing and disposal (section 23 of GIF89a) mean for one pixel of an animation. */
module GifDisposal {
  import opened BitString
  import opened LzwSpec
  import opened LzwDecoder
  import opened GifDraw
  import opened GifMovie
  import LzwEncoder

  /** The place on the canvas of a pixel of the image. */
  ghost function At(m: Movie, col: nat, row: nat): (q: nat)
    requires col < m.width && row < m.height
    ensures q < m.width * m.height
  {
    RowFits(m.width, m.height, row);
    col + row * m.width
  }

  /** The pixel lies in the frame's rectangle. */
  ghost predicate Covers(frame: Frame, col: nat, row: nat) {
    frame.x0 <= col < frame.x0 + frame.width && frame.y0 <= row < frame.y0 + frame.height
  }

  /** Where the frame's data has the value of a pixel. */
  ghost function ValueIndex(m: Movie, f: nat, col: nat, row: nat): nat
    requires f < |m.frames| && col < m.width && row < m.height && Covers(m.frames[f], col, row)
  {
    var area := m.AreaOf(f);
    area.DataIndex(area.DataRow(row - area.offsetY), col - area.offsetX)
  }

  /** The frame puts a colour on the pixel. */
  ghost predicate Draws(m: Movie, f: nat, col: nat, row: nat)
    requires m.Ok() && f < |m.frames| && col < m.width && row < m.height
  {
    && Covers(m.frames[f], col, row)
    && ValueIndex(m, f, col, row) < |m.Values(f)|
    && m.Values(f)[ValueIndex(m, f, col, row)] != m.frames[f].transparencyIndex
  }

  lemma DrawnPixel(m: Movie, f: nat, table: seq<Colour>, canvas: seq<Colour>, col: nat, row: nat)
    requires m.Ok() && f < |m.frames| && |table| == 256 && |canvas| == m.width * m.height
    requires col < m.width && row < m.height
    ensures m.DrawFrame(f, table, canvas)[At(m, col, row)]
            == if Draws(m, f, col, row)
               then (if m.frames[f].palette.Local? then table else m.globalTable)[m.Values(f)[ValueIndex(m, f, col, row)]]
               else canvas[At(m, col, row)]
  {
    hide Area.DrawRows, Area.DataRow, FrameValues;
    var area, ink := m.AreaOf(f), m.InkOf(f, table);
    if Covers(m.frames[f], col, row) {
      var y, x := row - area.offsetY, col - area.offsetX;
      assert area.Visible() && y < area.Rows() && x < area.Columns();
      assert area.PixelAt(y, x) == At(m, col, row);
      area.DrawPixel(ink, m.Values(f), canvas, y, x);
    } else if area.Visible() {
      forall s | 0 <= s < area.Rows()
        ensures !(area.RowStart(s) <= At(m, col, row) < area.RowStart(s) + area.Columns())
      {
        OutsideRow(m, area, s, col, row);
      }
      area.DrawElsewhere(ink, m.Values(f), canvas, area.Rows(), At(m, col, row));
    }
  }

  lemma OutsideRow(m: Movie, area: Area, s: nat, col: nat, row: nat)
    requires area.imageWidth == m.width && area.imageHeight == m.height && area.Visible() && s < area.Rows()
    requires col < m.width && row < m.height
    requires !(area.offsetX <= col < area.offsetX + area.Columns() && row == area.offsetY + area.RowOf(s))
    ensures !(area.RowStart(s) <= At(m, col, row) < area.RowStart(s) + area.Columns())
  {
    hide Area.Rows, Area.Columns, Area.RowOf;
    var line := area.offsetY + area.RowOf(s);
    if row != line { RowApart(m.width, line, area.offsetX, area.Columns(), row, col); }
  }

  /** Restoring to the background: the rectangle becomes transparent or the background colour, by
      the frame's transparency flag, and the rest stays. */
  lemma ClearedPixel(m: Movie, f: nat, canvas: seq<Colour>, col: nat, row: nat)
    requires f < |m.frames| && |canvas| == m.width * m.height && col < m.width && row < m.height
    ensures m.Clear(f, canvas)[At(m, col, row)]
            == if !Covers(m.frames[f], col, row) then canvas[At(m, col, row)]
               else if m.frames[f].transparency then 0 else m.background
  {
    hide Movie.ClearRows;
    var area := m.AreaOf(f).(interlaced := false);
    if area.Visible() {
      ClearedAfterRows(m, f, canvas, area.Rows(), col, row);
    }
  }

  lemma {:induction false} ClearedAfterRows(m: Movie, f: nat, canvas: seq<Colour>, n: nat, col: nat, row: nat)
    requires f < |m.frames| && |canvas| == m.width * m.height && col < m.width && row < m.height
    requires m.AreaOf(f).Visible() && n <= m.AreaOf(f).Rows()
    ensures var frame := m.frames[f];
            m.ClearRows(f, canvas, n)[At(m, col, row)]
            == if Covers(frame, col, row) && row < frame.y0 + n then (if frame.transparency then 0 else m.background)
               else canvas[At(m, col, row)]
  {
    if n == 0 {
    } else {
      var area := m.AreaOf(f).(interlaced := false);
      ClearedAfterRows(m, f, canvas, n - 1, col, row);
      if row != area.offsetY + n - 1 || !(area.offsetX <= col < area.offsetX + area.Columns()) {
        OutsideRow(m, area, n - 1, col, row);
      }
    }
  }

  /** The colour the frame puts on the pixel, in sequential play. */
  ghost function ColourOf(m: Movie, f: nat, col: nat, row: nat): Colour
    requires m.Ok() && f < |m.frames| && col < m.width && row < m.height && Draws(m, f, col, row)
  {
    var table := if m.frames[f].palette.Local? then m.TableAfter(m.Zeros(), f) else m.globalTable;
    table[m.Values(f)[ValueIndex(m, f, col, row)]]
  }

  /** The frame leaves a mark on the pixel that outlasts its disposal. */
  ghost predicate Marks(m: Movie, f: nat, col: nat, row: nat)
    requires m.Ok() && f < |m.frames| && col < m.width && row < m.height
  {
    match m.frames[f].disposal
    case RestorePrev => false
    case RestoreBg => Covers(m.frames[f], col, row)
    case _ => Draws(m, f, col, row)
  }

  ghost function Mark(m: Movie, f: nat, col: nat, row: nat): Colour
    requires m.Ok() && f < |m.frames| && col < m.width && row < m.height && Marks(m, f, col, row)
  {
    if !m.frames[f].disposal.RestoreBg? then ColourOf(m, f, col, row)
    else if m.frames[f].transparency then 0 else m.background
  }

  ghost predicate NoMarks(m: Movie, e: nat, f: nat, col: nat, row: nat)
    requires m.Ok() && e <= f <= |m.frames| && col < m.width && row < m.height
  {
    forall k :: e <= k < f ==> !Marks(m, k, col, row)
  }

  /** Over one frame and its disposal a pixel takes the frame's mark, if it leaves one, and else stays. */
  lemma DisposedPixel(m: Movie, f: nat, col: nat, row: nat)
    requires m.Ok() && 0 < f < |m.frames| && col < m.width && row < m.height
    ensures m.Before(f)[At(m, col, row)]
            == if Marks(m, f - 1, col, row) then Mark(m, f - 1, col, row) else m.Before(f - 1)[At(m, col, row)]
  {
    hide Movie.Clear, Movie.DrawFrame, Movie.TableAfter, Movie.Values, ValueIndex, Movie.FrameOk, At;
    DrawnPixel(m, f - 1, m.TableAfter(m.Zeros(), f - 1), m.Before(f - 1), col, row);
    ClearedPixel(m, f - 1, m.Composite(f - 1), col, row);
  }

  /** Before a frame is drawn, a pixel shows the last mark left on it. */
  lemma {:induction false} LastMark(m: Movie, f: nat, e: nat, col: nat, row: nat)
    requires m.Ok() && e < f < |m.frames| && col < m.width && row < m.height
    requires Marks(m, e, col, row) && NoMarks(m, e + 1, f, col, row)
    ensures m.Before(f)[At(m, col, row)] == Mark(m, e, col, row)
    decreases f
  {
    hide Movie.Before, Marks, Mark, At, Movie.Ok;
    DisposedPixel(m, f, col, row);
    if e == f - 1 {
    } else {
      LastMark(m, f - 1, e, col, row);
    }
  }

  /** A pixel without any mark is transparent. */
  lemma {:induction false} NoMark(m: Movie, f: nat, col: nat, row: nat)
    requires m.Ok() && f < |m.frames| && col < m.width && row < m.height && NoMarks(m, 0, f, col, row)
    ensures m.Before(f)[At(m, col, row)] == 0
  {
    hide Marks, At, Movie.FrameOk;
    if f == 0 {
    } else {
      DisposedPixel(m, f, col, row);
      NoMark(m, f - 1, col, row);
    }
  }

  /** What a pixel shows: the colour the frame puts there, or else the last mark that an earlier frame
      left on it, or else transparency. */
  lemma PixelShows(m: Movie, f: nat, col: nat, row: nat)
    requires m.Ok() && f < |m.frames| && col < m.width && row < m.height
    ensures var pixel := m.Composite(f)[At(m, col, row)];
            if Draws(m, f, col, row) then pixel == ColourOf(m, f, col, row)
            else && (forall e :: 0 <= e < f && Marks(m, e, col, row) && NoMarks(m, e + 1, f, col, row) ==>
                                   pixel == Mark(m, e, col, row))
                 && (NoMarks(m, 0, f, col, row) ==> pixel == 0)
  {
    hide Movie.Before, Marks, Mark, At, Movie.DrawFrame, Movie.TableAfter, Movie.Values, ValueIndex, Movie.FrameOk, NoMarks;
    DrawnPixel(m, f, m.TableAfter(m.Zeros(), f), m.Before(f), col, row);
    if NoMarks(m, 0, f, col, row) { NoMark(m, f, col, row); }
    forall e | 0 <= e < f && Marks(m, e, col, row) && NoMarks(m, e + 1, f, col, row)
      ensures m.Before(f)[At(m, col, row)] == Mark(m, e, col, row)
    {
      LastMark(m, f, e, col, row);
    }
  }

  /** A frame whose image data an Appendix F encoder wrote shows the values it was given: a transparent
      one lets the canvas through, any other has its colour. */
  lemma WrittenPixel(m: Movie, f: nat, values: seq<byte>, clears: nat -> bool, p: seq<byte>, rest: seq<byte>, col: nat, row: nat)
    requires m.Ok() && f < |m.frames| && m.frames[f].data == |p| && col < m.width && row < m.height
    requires m.buf[|p|] >= 2 && forall i :: 0 <= i < |values| ==> values[i] < Pow2(m.buf[|p|])
    requires m.buf == p + LzwEncoder.ImageData(m.buf[|p|], values, clears) + rest
    requires Covers(m.frames[f], col, row) && ValueIndex(m, f, col, row) < |values|
    ensures var v, local := values[ValueIndex(m, f, col, row)], m.frames[f].palette.Local?;
            m.Composite(f)[At(m, col, row)]
            == if v == m.frames[f].transparencyIndex then m.Before(f)[At(m, col, row)]
               else if local then m.TableAfter(m.Zeros(), f)[v] else m.globalTable[v]
  {
    hide Movie.Before, At, Movie.DrawFrame, Movie.TableAfter, ValueIndex, DecodeAt, LzwEncoder.ImageData;
    assert m.FrameOk(m.frames[f]);
    LzwEncoder.ImageRoundTrip(m.buf[|p|], values, clears, p, rest);
    assert m.Values(f) == values;
    DrawnPixel(m, f, m.TableAfter(m.Zeros(), f), m.Before(f), col, row);
  }

  // Taking a frame out of the file

  ghost function Without(m: Movie, e: nat): Movie
    requires e < |m.frames|
  {
    m.(frames := m.frames[..e] + m.frames[e + 1..])
  }

  lemma WithoutOk(m: Movie, e: nat)
    requires m.Ok() && e < |m.frames|
    ensures Without(m, e).Ok() && |Without(m, e).frames| == |m.frames| - 1
    ensures forall f :: 0 <= f < |m.frames| - 1 ==> Without(m, e).frames[f] == m.frames[if f < e then f else f + 1]
  {
    var n := Without(m, e);
    forall f | 0 <= f < |n.frames|
      ensures n.FrameOk(n.frames[f])
    {
      assert m.FrameOk(m.frames[if f < e then f else f + 1]);
    }
  }

  /** The local colour table frame f finds in sequential play. */
  ghost function TableBefore(m: Movie, f: nat): (table: seq<Colour>)
    requires m.Ok() && f < |m.frames|
    ensures |table| == 256
  {
    if f == 0 then m.Zeros() else m.TableAfter(m.Zeros(), f - 1)
  }

  /** Frame g of n starts out from what frame f of m starts out from. */
  ghost predicate Alike(m: Movie, f: nat, n: Movie, g: nat)
    requires m.Ok() && f < |m.frames| && n == m.(frames := n.frames) && n.Ok() && g < |n.frames|
  {
    TableBefore(m, f) == TableBefore(n, g) && m.Before(f) == n.Before(g)
  }

  lemma {:induction false} SameClear(m: Movie, f: nat, n: Movie, g: nat, canvas: seq<Colour>, k: nat)
    requires f < |m.frames| && n == m.(frames := n.frames) && g < |n.frames| && m.frames[f] == n.frames[g]
    requires |canvas| == m.width * m.height && m.AreaOf(f).Visible() && k <= m.AreaOf(f).Rows()
    ensures m.ClearRows(f, canvas, k) == n.ClearRows(g, canvas, k)
  {
    if k == 0 {
    } else {
      SameClear(m, f, n, g, canvas, k - 1);
    }
  }

  /** The same frame over the same canvas looks the same. */
  lemma AlikeDrawn(m: Movie, f: nat, n: Movie, g: nat)
    requires m.Ok() && f < |m.frames| && n == m.(frames := n.frames) && n.Ok() && g < |n.frames|
    requires Alike(m, f, n, g) && m.frames[f] == n.frames[g]
    ensures m.TableAfter(m.Zeros(), f) == n.TableAfter(n.Zeros(), g) && m.Composite(f) == n.Composite(g)
  {
    hide Movie.Before, FrameValues, Area.Draw, Movie.Ok, Movie.FrameOk;
    assert m.TableAfter(m.Zeros(), f) == m.Overlay(f, TableBefore(m, f));
    assert n.TableAfter(n.Zeros(), g) == n.Overlay(g, TableBefore(n, g));
  }

  lemma AlikeNext(m: Movie, f: nat, n: Movie, g: nat)
    requires m.Ok() && f + 1 < |m.frames| && n == m.(frames := n.frames) && n.Ok() && g + 1 < |n.frames|
    requires Alike(m, f, n, g) && m.frames[f] == n.frames[g]
    ensures Alike(m, f + 1, n, g + 1)
  {
    hide Movie.FrameOk, Movie.TableAfter, Movie.ClearRows, Movie.DrawFrame;
    AlikeDrawn(m, f, n, g);
    if m.AreaOf(f).Visible() {
      SameClear(m, f, n, g, m.Composite(f), m.AreaOf(f).Rows());
    }
  }

  /** Frame f of the file is frame f or f - 1 of the file without frame e. */
  lemma {:induction false} WithoutAlike(m: Movie, e: nat, f: nat)
    requires m.Ok() && e < |m.frames| && m.frames[e].disposal == RestorePrev && m.frames[e].palette == Global
    requires f < |m.frames| && Without(m, e).Ok()
    requires f <= e ==> f < |m.frames| - 1
    ensures Alike(m, f, Without(m, e), if f <= e then f else f - 1)
    decreases f
  {
    hide Alike, Movie.Ok, Movie.FrameOk, Movie.Before, Movie.TableAfter;
    var n := Without(m, e);
    WithoutOk(m, e);
    if f == 0 {
      StartAlike(m, n);
    } else if f == e + 1 {
      WithoutAlike(m, e, e);
      AlikeSkip(m, e, n);
    } else {
      WithoutAlike(m, e, f - 1);
      AlikeNext(m, f - 1, n, if f <= e then f - 1 else f - 2);
    }
  }

  lemma StartAlike(m: Movie, n: Movie)
    requires m.Ok() && m.frames != [] && n == m.(frames := n.frames) && n.Ok() && n.frames != []
    ensures Alike(m, 0, n, 0)
  {
  }

  lemma AlikeSkip(m: Movie, e: nat, n: Movie)
    requires m.Ok() && e + 1 < |m.frames| && n == m.(frames := n.frames) && n.Ok() && e < |n.frames|
    requires m.frames[e].disposal == RestorePrev && m.frames[e].palette == Global && Alike(m, e, n, e)
    ensures Alike(m, e + 1, n, e)
  {
  }

  /** A frame that is undone and uses the global palette leaves no trace: without it, every later frame
      looks the same. */
  lemma NoTrace(m: Movie, e: nat, f: nat)
    requires m.Ok() && e < f < |m.frames| && m.frames[e].disposal == RestorePrev && m.frames[e].palette == Global
    ensures Without(m, e).Ok() && Without(m, e).Composite(f - 1) == m.Composite(f)
  {
    hide Movie.FrameOk, Movie.Before, Movie.TableAfter, Alike;
    WithoutOk(m, e);
    WithoutAlike(m, e, f);
    AlikeDrawn(m, f, Without(m, e), f - 1);
  }
}
