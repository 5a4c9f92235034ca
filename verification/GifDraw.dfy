/** Drawing one frame into the canvas: the fast and the general pixel path of gif.c. */
module GifDraw {
  import opened BitString
  import opened LzwReader
  import opened LzwSpec
  import opened LzwDecoder
  import Interlace

  /** The part of nsgif_error that decoding a frame can return. */
  datatype GifError = Success | EndOfData | DataFrame | FrameDisplay | AnimationEnd | BadFrame

  /** nsgif__error_from_lzw, for the results lzw.c returns while decoding. */
  function ErrorFromLzw(res: LzwResult): GifError {
    match res
    case Ok => Success
    case OkEod => EndOfData
    case NoData => EndOfData
    case _ => DataFrame
  }

  /** gif__clip: how much of a frame lies outside the image in one dimension. */
  function Clip(frameOff: nat, frameDim: nat, imageExt: nat): (r: nat)
    ensures frameOff + frameDim <= imageExt ==> r == 0
    ensures frameOff < imageExt < frameOff + frameDim ==> r <= frameDim && frameOff + frameDim - r == imageExt
  {
    var frameExt := frameOff + frameDim;
    if frameExt <= imageExt then 0 else frameExt - imageExt
  }

  /** Where a frame lies on an image, before clipping (section 20 of GIF89a). */
  datatype Area = Area(imageWidth: nat, imageHeight: nat,
                       offsetX: nat, offsetY: nat, width: nat, height: nat, interlaced: bool) {

    ghost predicate Visible() {
      offsetX < imageWidth && offsetY < imageHeight
    }

    /** The columns of the frame that are inside the image. */
    ghost function Columns(): (r: nat)
      requires Visible()
      ensures offsetX + r <= imageWidth && r <= width
    {
      width - Clip(offsetX, width, imageWidth)
    }

    ghost function Rows(): (r: nat)
      requires Visible()
      ensures offsetY + r <= imageHeight && r <= height
    {
      height - Clip(offsetY, height, imageHeight)
    }

    /** The row that data row number r is drawn to. */
    ghost function RowOf(r: nat): (y: nat)
      requires Visible() && r < Rows()
      ensures y < Rows()
    {
      if interlaced then Interlace.RowOfPlace(Rows(), r); Interlace.RowAt(Rows(), r) else r
    }

    /** The canvas position of the first pixel of data row r. */
    ghost function RowStart(r: nat): (q: nat)
      requires Visible() && r < Rows()
      ensures q + Columns() <= imageWidth * imageHeight
    {
      RowFits(imageWidth, imageHeight, offsetY + RowOf(r));
      offsetX + (RowOf(r) + offsetY) * imageWidth
    }

    /** The first n visible values of data row r, as far as the data goes. */
    ghost function RowValues(values: seq<byte>, r: nat, n: nat): (run: seq<byte>)
      requires n <= width
      ensures |run| <= n
    {
      var k := r * width;
      values[Min(k, |values|)..Min(k + n, |values|)]
    }

    /** The canvas after n pixels of data row r. */
    ghost function DrawRow(ink: Ink, values: seq<byte>, canvas: seq<Colour>, r: nat, n: nat): (c: seq<Colour>)
      requires Visible() && r < Rows() && n <= Columns() && |ink.colours| == 256
      requires |canvas| == imageWidth * imageHeight
      ensures |c| == |canvas|
    {
      ink.PaintRun(canvas, RowStart(r), RowValues(values, r, n))
    }

    /** The canvas after the first r data rows. */
    ghost function DrawRows(ink: Ink, values: seq<byte>, canvas: seq<Colour>, r: nat): (c: seq<Colour>)
      requires Visible() && r <= Rows() && |ink.colours| == 256
      requires |canvas| == imageWidth * imageHeight
      ensures |c| == |canvas|
    {
      if r == 0 then canvas
      else DrawRow(ink, values, DrawRows(ink, values, canvas, r - 1), r - 1, Columns())
    }

    /** The canvas after a whole frame, or as much of it as there is data for. */
    ghost function Draw(ink: Ink, values: seq<byte>, canvas: seq<Colour>): (c: seq<Colour>)
      requires |ink.colours| == 256 && |canvas| == imageWidth * imageHeight
      ensures |c| == |canvas|
    {
      if Visible() then DrawRows(ink, values, canvas, Rows()) else canvas
    }

    /** Without further data nothing more is drawn. */
    lemma {:induction false} NothingLeft(ink: Ink, values: seq<byte>, canvas: seq<Colour>, r: nat, s: nat)
      requires Visible() && r <= s <= Rows() && |ink.colours| == 256
      requires |canvas| == imageWidth * imageHeight && |values| <= r * width
      ensures DrawRows(ink, values, canvas, s) == DrawRows(ink, values, canvas, r)
      decreases s
    {
      hide DrawRow, Columns, Rows;
      if r == s {
      } else {
        NothingLeft(ink, values, canvas, r, s - 1);
        Times(r, s - 1, width);
        NoRowValues(ink, values, DrawRows(ink, values, canvas, s - 1), s - 1, Columns());
      }
    }

    lemma NoRowValues(ink: Ink, values: seq<byte>, canvas: seq<Colour>, r: nat, n: nat)
      requires Visible() && r < Rows() && n <= Columns() && |ink.colours| == 256
      requires |canvas| == imageWidth * imageHeight && |values| <= r * width
      ensures DrawRow(ink, values, canvas, r, n) == canvas
    {
      hide Ink.PaintRun, RowStart, Columns, Rows;
      ink.PaintNothing(canvas, RowStart(r));
    }

    lemma NoValues(ink: Ink, values: seq<byte>, canvas: seq<Colour>)
      requires |ink.colours| == 256 && |canvas| == imageWidth * imageHeight && values == []
      ensures Draw(ink, values, canvas) == canvas
    {
      if Visible() { NothingLeft(ink, values, canvas, 0, Rows()); }
    }

    lemma {:induction false} NoColumns(ink: Ink, values: seq<byte>, canvas: seq<Colour>, r: nat)
      requires Visible() && r <= Rows() && |ink.colours| == 256 && |canvas| == imageWidth * imageHeight
      requires Columns() == 0 || Rows() == 0
      ensures DrawRows(ink, values, canvas, r) == canvas
      decreases r
    {
      if r == 0 {
      } else {
        NoColumns(ink, values, canvas, r - 1);
        DrawNone(ink, values, canvas, r - 1);
      }
    }

    lemma DrawRowsNext(ink: Ink, values: seq<byte>, canvas: seq<Colour>, r: nat)
      requires Visible() && r < Rows() && |ink.colours| == 256 && |canvas| == imageWidth * imageHeight
      ensures DrawRows(ink, values, canvas, r + 1) == DrawRow(ink, values, DrawRows(ink, values, canvas, r), r, Columns())
    {
    }

    lemma NothingLeftInRow(ink: Ink, values: seq<byte>, canvas: seq<Colour>, r: nat, n: nat)
      requires Visible() && r < Rows() && n <= Columns() && |ink.colours| == 256
      requires |canvas| == imageWidth * imageHeight && |values| <= r * width + n
      ensures DrawRow(ink, values, DrawRows(ink, values, canvas, r), r, n) == DrawRows(ink, values, canvas, Rows())
    {
      hide Rows, Columns, DrawRows, RowStart, Ink.PaintRun;
      assert RowValues(values, r, n) == RowValues(values, r, Columns());
      Product(r, width);
      DrawRowsNext(ink, values, canvas, r);
      NothingLeft(ink, values, canvas, r + 1, Rows());
    }

    lemma DrawNone(ink: Ink, values: seq<byte>, canvas: seq<Colour>, r: nat)
      requires Visible() && r < Rows() && |ink.colours| == 256 && |canvas| == imageWidth * imageHeight
      ensures DrawRow(ink, values, canvas, r, 0) == canvas
    {
    }

    /** Drawing n more pixels of a row paints the next n values. */
    lemma DrawMore(ink: Ink, values: seq<byte>, canvas: seq<Colour>, r: nat, done: nat, n: nat)
      requires Visible() && r < Rows() && done + n <= Columns() && |ink.colours| == 256
      requires |canvas| == imageWidth * imageHeight && DataIndex(r, done + n) <= |values|
      ensures var k := DataIndex(r, done);
              DrawRow(ink, values, canvas, r, done + n)
              == ink.PaintRun(DrawRow(ink, values, canvas, r, done), RowStart(r) + done, values[k..k + n])
    {
    }

    /** The data row that is drawn to row y. */
    ghost function DataRow(y: nat): (r: nat)
      requires Visible() && y < Rows()
      ensures r < Rows() && RowOf(r) == y
      ensures forall s :: 0 <= s < Rows() && RowOf(s) == y ==> s == r
    {
      if interlaced then
        assert forall s :: 0 <= s < Rows() ==> Interlace.Place(Rows(), Interlace.RowAt(Rows(), s)) == s by {
          forall s | 0 <= s < Rows() ensures Interlace.Place(Rows(), Interlace.RowAt(Rows(), s)) == s {
            Interlace.RowOfPlace(Rows(), s);
          }
        }
        Interlace.PlaceOfRow(Rows(), y);
        Interlace.Place(Rows(), y)
      else y
    }

    /** The index into the frame's data of column x of data row r. */
    ghost function DataIndex(r: nat, x: nat): nat {
      r * width + x
    }

    lemma DataStep(r: nat, x: nat, n: nat)
      ensures DataIndex(r, x) + n == DataIndex(r, x + n)
    {
    }

    lemma DrawRowAt(ink: Ink, values: seq<byte>, canvas: seq<Colour>, r: nat, q: nat)
      requires Visible() && r < Rows() && |ink.colours| == 256
      requires |canvas| == imageWidth * imageHeight && q < |canvas|
      ensures var k := r * width + q - RowStart(r);
              DrawRow(ink, values, canvas, r, Columns())[q]
              == if RowStart(r) <= q < RowStart(r) + Columns() && k < |values| then ink.Paint(canvas[q], values[k])
                 else canvas[q]
    {
    }

    lemma {:induction false} PixelAfterRows(ink: Ink, values: seq<byte>, canvas: seq<Colour>, r: nat, y: nat, x: nat)
      requires Visible() && r <= Rows() && y < Rows() && x < Columns() && |ink.colours| == 256
      requires |canvas| == imageWidth * imageHeight
      ensures var s, k, q := DataRow(y), DataIndex(DataRow(y), x), RowStart(DataRow(y)) + x;
              DrawRows(ink, values, canvas, r)[q]
              == if s < r && k < |values| then ink.Paint(canvas[q], values[k]) else canvas[q]
    {
      hide RowStart, Columns, Rows, DrawRow, DataRow, RowOf;
      if r == 0 {
      } else {
        PixelAfterRows(ink, values, canvas, r - 1, y, x);
        var s := DataRow(y);
        DrawRowAt(ink, values, DrawRows(ink, values, canvas, r - 1), r - 1, RowStart(s) + x);
        if r - 1 != s {
          RowsApart(r - 1, s);
        }
      }
    }

    /** Different data rows are drawn to disjoint stretches of the canvas. */
    lemma RowsApart(r: nat, s: nat)
      requires Visible() && r < Rows() && s < Rows() && RowOf(r) != RowOf(s)
      ensures RowStart(r) + Columns() <= RowStart(s) || RowStart(s) + Columns() <= RowStart(r)
    {
      hide Rows, Columns, RowOf;
      var a, b := RowOf(r) + offsetY, RowOf(s) + offsetY;
      if a < b { NextRowStart(a, b, imageWidth); } else { NextRowStart(b, a, imageWidth); }
    }

    /** The canvas position of a visible pixel of the frame. */
    ghost function PixelAt(y: nat, x: nat): (q: nat)
      requires Visible() && y < Rows() && x < Columns()
      ensures q < imageWidth * imageHeight
    {
      RowFits(imageWidth, imageHeight, offsetY + y);
      offsetX + x + (y + offsetY) * imageWidth
    }

    /** What drawing means for every pixel: a visible pixel of the frame takes the value of its own
        column in the data row of its row, if there is that much data, and nothing else changes. */
    lemma DrawPixel(ink: Ink, values: seq<byte>, canvas: seq<Colour>, y: nat, x: nat)
      requires Visible() && y < Rows() && x < Columns() && |ink.colours| == 256
      requires |canvas| == imageWidth * imageHeight
      ensures var k, q := DataIndex(DataRow(y), x), PixelAt(y, x);
              Draw(ink, values, canvas)[q] == if k < |values| then ink.Paint(canvas[q], values[k]) else canvas[q]
    {
      hide Rows, Columns, DrawRows, DataRow, RowOf;
      PixelAfterRows(ink, values, canvas, Rows(), y, x);
    }

    lemma {:induction false} DrawElsewhere(ink: Ink, values: seq<byte>, canvas: seq<Colour>, r: nat, q: nat)
      requires Visible() && r <= Rows() && |ink.colours| == 256
      requires |canvas| == imageWidth * imageHeight && q < |canvas|
      requires forall s :: 0 <= s < Rows() ==> !(RowStart(s) <= q < RowStart(s) + Columns())
      ensures DrawRows(ink, values, canvas, r)[q] == canvas[q]
    {
      if r == 0 {
      } else {
        DrawElsewhere(ink, values, canvas, r - 1, q);
        assert !(RowStart(r - 1) <= q < RowStart(r - 1) + Columns());
      }
    }
  }

  lemma Times(a: nat, b: nat, w: nat)
    requires a <= b
    ensures a * w <= b * w
  {
  }

  lemma NextRowStart(a: nat, b: nat, w: nat)
    requires a < b
    ensures a * w + w <= b * w
  {
    Times(a + 1, b, w);
    Product(a, w);
  }

  lemma Product(r: nat, w: nat)
    ensures (r + 1) * w == r * w + w
  {
  }

  /** A pixel of one row is not in a run of pixels of another. */
  lemma RowApart(w: nat, a: nat, x: nat, n: nat, b: nat, y: nat)
    requires a != b && x + n <= w && y < w
    ensures !(x + a * w <= y + b * w < x + a * w + n)
  {
    if a < b { NextRowStart(a, b, w); } else { NextRowStart(b, a, w); }
  }

  lemma RowFits(width: nat, height: nat, y: nat)
    requires y < height
    ensures y * width + width <= width * height
  {
    Times(y + 1, height, width);
    assert (y + 1) * width == y * width + width;
  }

  /** What the LZW data of a frame decodes to and how it ends; data[0] is the minimum code size. */
  ghost function FrameOutput(buf: seq<byte>, data: nat): Output
    requires data < |buf|
  {
    if buf[data] >= CODE_MAX then Output([], BadIcode) else DecodeAt(buf[data], buf, data + 1)
  }

  ghost function FrameValues(buf: seq<byte>, data: nat): seq<byte>
    requires data < |buf|
  {
    FrameOutput(buf, data).values
  }

  /** Data that ends early is an error unless it ends properly. */
  function Recovered(end: LzwResult): GifError {
    if end == OkEod || end == EoiCode then Success else ErrorFromLzw(end)
  }

  /** What nsgif__decode_simple returns. */
  ghost function SimpleResult(area: Area, out: Output): GifError {
    var rows := if area.offsetY < area.imageHeight then area.height - Clip(area.offsetY, area.height, area.imageHeight) else 0;
    if rows == 0 then Success
    else if out.values == [] then ErrorFromLzw(out.end)
    else if |out.values| >= area.imageWidth * rows then Success
    else Recovered(out.end)
  }

  /** What nsgif__decode_complex returns: an error that comes right after a full buffer goes unnoticed. */
  ghost function ComplexResult(area: Area, out: Output): GifError {
    if !area.Visible() || area.Columns() == 0 || area.Rows() == 0 then Success
    else if out.values == [] then ErrorFromLzw(out.end)
    else if |out.values| >= area.DataIndex(area.Rows() - 1, area.Columns()) then Success
    else Shortage(out)
  }

  /** A number of values that fills the decoder's buffer some number of times. */
  ghost predicate Filled(n: nat) {
    n % TABLE_ENTRY_MAX == 0
  }

  lemma FilledMore(k: nat, n: nat)
    requires Filled(k) && n <= TABLE_ENTRY_MAX
    ensures Filled(k + n) <==> n == 0 || n == TABLE_ENTRY_MAX
  {
  }

  /** The two paths return different results exactly when an error comes right after a full buffer, with pixels left. */
  lemma ResultsDiffer(area: Area, out: Output)
    requires FullWidth(area) && area.Visible()
    ensures SimpleResult(area, out) != ComplexResult(area, out) <==>
              0 < |out.values| < area.imageWidth * area.Rows() && Filled(|out.values|) && Recovered(out.end) != Success
  {
    var rows := area.Rows();
    if rows > 0 { assert area.DataIndex(rows - 1, area.Columns()) == (rows - 1) * area.width + area.width == area.imageWidth * rows; }
  }

  ghost function Shortage(out: Output): GifError {
    if Filled(|out.values|) then Success else Recovered(out.end)
  }

  /** An index above 255 means no transparency. */
  ghost function InkFor(colours: seq<Colour>, transparencyIndex: nat): Ink {
    Ink(colours, Min(transparencyIndex, 256))
  }

  ghost predicate FullWidth(area: Area) {
    area.offsetX == 0 && area.width == area.imageWidth && !area.interlaced
  }

  /** Where the rows of a full-width frame start, as products. */
  lemma FullWidthStart(area: Area, r: nat)
    requires FullWidth(area) && area.Visible() && r <= area.Rows()
    ensures area.offsetY * area.width + r * area.width <= area.imageWidth * area.imageHeight
    ensures r > 0 ==> r * area.width == (r - 1) * area.width + area.width
    ensures r > 0 ==> area.RowStart(r - 1) == area.offsetY * area.width + (r - 1) * area.width
  {
  }

  /** A frame as wide as the image is drawn as one run of pixels. */
  lemma {:induction false} FullWidthRows(area: Area, ink: Ink, values: seq<byte>, canvas: seq<Colour>, r: nat, base: nat, n: nat)
    requires FullWidth(area) && area.Visible() && r <= area.Rows() && |ink.colours| == 256
    requires |canvas| == area.imageWidth * area.imageHeight
    requires base == area.offsetY * area.width && n == r * area.width
    ensures base + n <= |canvas|
    ensures area.DrawRows(ink, values, canvas, r) == ink.PaintRun(canvas, base, values[..Min(n, |values|)])
    decreases r
  {
    hide Ink.PaintRun, Area.RowStart, Area.Rows;
    FullWidthStart(area, r);
    if r == 0 {
      ink.PaintNothing(canvas, base);
    } else {
      var w := area.width;
      var m := n - w;
      FullWidthRows(area, ink, values, canvas, r - 1, base, m);
      var run := values[Min(m, |values|)..Min(n, |values|)];
      assert area.RowValues(values, r - 1, w) == run;
      assert values[..Min(m, |values|)] + run == values[..Min(n, |values|)];
      if run == [] {
        ink.PaintNothing(area.DrawRows(ink, values, canvas, r - 1), area.RowStart(r - 1));
      } else {
        ink.PaintRunTwice(canvas, base, values[..Min(m, |values|)], run);
      }
    }
  }

  lemma FullWidthDraw(area: Area, ink: Ink, values: seq<byte>, canvas: seq<Colour>, rows: nat, base: nat, count: nat)
    requires FullWidth(area) && |ink.colours| == 256 && |canvas| == area.imageWidth * area.imageHeight
    requires area.offsetY < area.imageHeight && rows == area.height - Clip(area.offsetY, area.height, area.imageHeight)
    requires base == area.offsetY * area.imageWidth && count == area.imageWidth * rows
    ensures base + count <= |canvas|
    ensures area.Draw(ink, values, canvas) == ink.PaintRun(canvas, base, values[..Min(count, |values|)])
  {
    hide Ink.PaintRun, Area.DrawRows;
    if area.imageWidth > 0 {
      FullWidthRows(area, ink, values, canvas, rows, base, count);
    } else {
      assert base == 0 && count == 0;
      ink.PaintNothing(canvas, base);
    }
  }

  /** nsgif__decode_simple: a full-width frame, painted by the LZW decoder straight into the canvas. */
  method DecodeSimple(lzw: LzwContext, buf: seq<byte>, data: nat, area: Area, transparencyIndex: nat,
                      frameData: array<Colour>, colourTable: seq<Colour>) returns (ret: GifError)
    requires lzw.Allocated() && data < |buf| && |colourTable| == 256
    requires FullWidth(area)
    requires frameData.Length == area.imageWidth * area.imageHeight
    modifies lzw, lzw.input, lzw.table, frameData
    ensures lzw.Allocated()
    ensures frameData[..] == area.Draw(InkFor(colourTable, transparencyIndex), FrameValues(buf, data), old(frameData[..]))
    ensures ret == SimpleResult(area, FrameOutput(buf, data))
  {
    hide LzwContext.Decoding, LzwContext.Future, LzwContext.Allocated, Ink.PaintRun, Area.DrawRows, DecodeAt;
    if area.offsetY >= area.imageHeight {
      return Success;
    }
    var height := area.height - Clip(area.offsetY, area.height, area.imageHeight);
    var base, pixels := area.offsetY * area.imageWidth, area.imageWidth * height;
    ghost var ink, values, before := InkFor(colourTable, transparencyIndex), FrameValues(buf, data), frameData[..];
    FullWidthDraw(area, ink, values, before, height, base, pixels);
    ink.PaintNothing(before, base);
    ret := Success;
    if height > 0 {
      var res := lzw.DecodeInitMap(buf[data], transparencyIndex, ColourMap(colourTable), buf, data + 1);
      if res == Ok {
        ret := PaintPixels(lzw, frameData, base, pixels);
      } else {
        ret := ErrorFromLzw(res);
      }
    }
  }

  /** The loop of nsgif__decode_simple: paint as many of the pixels as there are values. */
  method PaintPixels(lzw: LzwContext, frameData: array<Colour>, base: nat, count: nat) returns (ret: GifError)
    requires lzw.Allocated() && lzw.Decoding() && lzw.Mapped() && base + count <= frameData.Length
    modifies lzw, lzw.input, lzw.table, frameData
    ensures lzw.Allocated()
    ensures var values := old(lzw.Future()).values;
            && frameData[..] == old(lzw.CurrentInk()).PaintRun(old(frameData[..]), base, values[..Min(count, |values|)])
            && ret == if |values| >= count then Success else Recovered(old(lzw.Future()).end)
  {
    hide LzwContext.Decoding, LzwContext.Future, LzwContext.Allocated, Ink.PaintRun;
    ghost var values, end, ink, before := lzw.Future().values, lzw.Future().end, lzw.CurrentInk(), frameData[..];
    var pos, pixels := base, count;
    ret := Success;
    ink.PaintNothing(before, base);
    while pixels > 0
      invariant pos + pixels == base + count && base <= pos <= base + Min(count, |values|)
      invariant lzw.Allocated() && lzw.Decoding() && lzw.Mapped() && lzw.CurrentInk() == ink && lzw.Future() == Output(values[pos - base..], end)
      invariant frameData[..] == ink.PaintRun(before, base, values[..pos - base])
      decreases pixels
    {
      ghost var done := pos - base;
      var res, written := lzw.DecodeMap(frameData, pos, pixels);
      ink.PaintRunTwice(before, base, values[..done], values[done..][..written]);
      assert values[..done] + values[done..][..written] == values[..done + written];
      pixels := pixels - written;
      pos := pos + written;
      if res != Ok {
        // Unexpected end of frame, try to recover.
        ret := Recovered(res);
        break;
      }
    }
    if pixels == 0 {
      ret := Success;
    }
  }

  /** The general path's supply of values: next is the index of the next pixel's value, skip of the
      values before it are still to be jumped over, available ones are in the decoder's buffer at
      pos, and the decoder has the rest. */
  ghost predicate Feeding(lzw: LzwContext, out: Output, next: nat, res: LzwResult, available: nat, pos: nat, skip: nat)
    reads lzw, lzw.input, lzw.table, lzw.stackBase
  {
    && lzw.Allocated()
    && skip <= next && (available > 0 ==> skip == 0)
    && pos + available <= lzw.stackBase.Length
    && next - skip + available <= |out.values|
    && lzw.stackBase[pos..pos + available] == out.values[next - skip..next - skip + available]
    && if res == Ok
       then lzw.Decoding() && lzw.Future() == Output(out.values[next - skip + available..], out.end)
            && Filled(next - skip + available)
       else next - skip + available == |out.values| && !Filled(|out.values|) && res == out.end
  }

  /** gif__jump_data */
  method JumpData(skip0: nat, available0: nat, pos0: nat) returns (skip: nat, available: nat, pos: nat)
    ensures skip == skip0 - Min(skip0, available0)
    ensures available == available0 - Min(skip0, available0)
    ensures pos == pos0 + Min(skip0, available0)
  {
    var jump := if skip0 < available0 then skip0 else available0;
    return skip0 - jump, available0 - jump, pos0 + jump;
  }

  /** The refill loop of nsgif__decode_complex: decode until there is a value for the next pixel; if
      there is none, all the data has been used. */
  method Refill(lzw: LzwContext, ghost out: Output, ghost next: nat, res0: LzwResult, available0: nat, pos0: nat, skip0: nat)
    returns (more: bool, ret: GifError, res: LzwResult, available: nat, pos: nat, skip: nat)
    requires Feeding(lzw, out, next, res0, available0, pos0, skip0)
    modifies lzw, lzw.input, lzw.table, lzw.stackBase
    ensures more ==> Feeding(lzw, out, next, res, available, pos, skip) && available > 0 && skip == 0
    ensures lzw.Allocated()
    ensures !more ==> |out.values| <= next && ret == Shortage(out)
  {
    hide LzwContext.Decoding, LzwContext.Future, LzwContext.Allocated, Filled, Recovered, Feeding;
    res, available, pos, skip := res0, available0, pos0, skip0;
    while available == 0
      invariant Feeding(lzw, out, next, res, available, pos, skip)
      decreases available == 0, |out.values| + (if res == Ok then 1 else 0) - (next - skip)
    {
      FeedingEmpty(lzw, out, next, res, pos, skip);
      if res != Ok {
        // Unexpected end of frame, try to recover.
        return false, Recovered(res), res, available, pos, skip;
      }
      res, available := DecodeMore(lzw, out, next - skip);
      pos := 0;
      if available == 0 {
        return false, Success, res, available, pos, skip;
      }
      FeedingAfter(lzw, out, next, res, available, skip);
      skip, available, pos := JumpData(skip, available, pos);
    }
    FeedingBasics(lzw, out, next, res, available, pos, skip);
    return true, Success, res, available, pos, skip;
  }

  lemma FeedingEmpty(lzw: LzwContext, out: Output, next: nat, res: LzwResult, pos: nat, skip: nat)
    requires Feeding(lzw, out, next, res, 0, pos, skip)
    ensures lzw.Allocated() && skip <= next && next - skip <= |out.values|
    ensures if res == Ok
            then lzw.Decoding() && lzw.Future() == Output(out.values[next - skip..], out.end) && Filled(next - skip)
            else next - skip == |out.values| && !Filled(|out.values|) && res == out.end
  {
  }

  /** A full buffer, with clipped values jumped over. */
  lemma FeedingAfter(lzw: LzwContext, out: Output, next: nat, res: LzwResult, n: nat, skip: nat)
    requires lzw.Allocated() && skip <= next && n <= lzw.stackBase.Length && next - skip + n <= |out.values|
    requires lzw.stackBase[..n] == out.values[next - skip..next - skip + n]
    requires if res == Ok
             then lzw.Decoding() && lzw.Future() == Output(out.values[next - skip + n..], out.end) && Filled(next - skip + n)
             else next - skip + n == |out.values| && res == out.end && !Filled(|out.values|)
    ensures var jump := Min(skip, n); Feeding(lzw, out, next, res, n - jump, jump, skip - jump)
  {
    hide LzwContext.Decoding, LzwContext.Future, LzwContext.Allocated, Filled;
    var jump := Min(skip, n);
    assert lzw.stackBase[jump..n] == lzw.stackBase[..n][jump..];
    assert out.values[next - skip..next - skip + n][jump..] == out.values[next - skip + jump..next - skip + n];
  }

  /** One more buffer of values, the first k having been decoded. */
  method DecodeMore(lzw: LzwContext, ghost out: Output, ghost k: nat) returns (res: LzwResult, available: nat)
    requires lzw.Allocated() && lzw.Decoding() && k <= |out.values| && lzw.Future() == Output(out.values[k..], out.end) && Filled(k)
    modifies lzw, lzw.input, lzw.table, lzw.stackBase
    ensures lzw.Allocated() && available <= lzw.stackBase.Length && k + available <= |out.values|
    ensures lzw.stackBase[..available] == out.values[k..k + available] && (available == 0 ==> Filled(|out.values|))
    ensures if res == Ok
            then available > 0 && lzw.Decoding() && lzw.Future() == Output(out.values[k + available..], out.end) && Filled(k + available)
            else k + available == |out.values| && res == out.end && (available > 0 ==> !Filled(|out.values|))
  {
    hide LzwContext.Decoding, LzwContext.Future, Filled, LzwContext.Valid, ReadContext.Valid;
    res, available := lzw.Decode();
    FilledMore(k, available);
    ghost var values := out.values;
    assert values[k..][..available] == values[k..k + available] && values[k..][available..] == values[k + available..];
  }

  /** The pixel loops of nsgif__decode_complex, with and without transparency. */
  method PaintSpan(source: array<byte>, pos: nat, n: nat, frameData: array<Colour>, scanline: nat,
                   transparencyIndex: nat, colourTable: seq<Colour>)
    requires |colourTable| == 256 && pos + n <= source.Length && scanline + n <= frameData.Length
    modifies frameData
    ensures frameData[..] == InkFor(colourTable, transparencyIndex).PaintRun(old(frameData[..]), scanline, source[pos..pos + n])
  {
    ghost var ink, before := InkFor(colourTable, transparencyIndex), frameData[..];
    if transparencyIndex > 0xFF {
      for i := 0 to n
        invariant forall k :: 0 <= k < frameData.Length ==>
                    frameData[k] == if scanline <= k < scanline + i then ink.Paint(before[k], source[pos + k - scanline]) else before[k]
      {
        frameData[scanline + i] := colourTable[source[pos + i]];
      }
    } else {
      for i := 0 to n
        invariant forall k :: 0 <= k < frameData.Length ==>
                    frameData[k] == if scanline <= k < scanline + i then ink.Paint(before[k], source[pos + k - scanline]) else before[k]
      {
        var colour := source[pos + i];
        if colour != transparencyIndex {
          frameData[scanline + i] := colourTable[colour];
        }
      }
    }
  }

  /** One row of nsgif__decode_complex. If the data ends within it, n of its pixels were reached. */
  method DecodeRow(lzw: LzwContext, area: Area, ghost out: Output, ghost r: nat, scanline: nat, columns: nat,
                   transparencyIndex: nat, frameData: array<Colour>, colourTable: seq<Colour>,
                   res0: LzwResult, available0: nat, pos0: nat, skip0: nat)
    returns (more: bool, ret: GifError, res: LzwResult, available: nat, pos: nat, ghost n: nat)
    requires area.Visible() && r < area.Rows() && columns == area.Columns() > 0 && scanline == area.RowStart(r)
    requires |colourTable| == 256 && frameData.Length == area.imageWidth * area.imageHeight
    requires Feeding(lzw, out, area.DataIndex(r, 0), res0, available0, pos0, skip0)
    modifies lzw, lzw.input, lzw.table, lzw.stackBase, frameData
    ensures n <= columns && lzw.Allocated()
    ensures frameData[..] == area.DrawRow(InkFor(colourTable, transparencyIndex), out.values, old(frameData[..]), r, n)
    ensures more ==> n == columns && Feeding(lzw, out, area.DataIndex(r, columns), res, available, pos, 0)
    ensures !more ==> n < columns && |out.values| <= area.DataIndex(r, n) && ret == Shortage(out)
  {
    hide LzwContext.Decoding, LzwContext.Future, LzwContext.Allocated, Ink.PaintRun, Feeding,
         Area.RowStart, Area.Columns, Area.Rows, Area.DataIndex, Area.DrawRow, Area.Visible;
    FeedingBasics(lzw, out, area.DataIndex(r, 0), res0, available0, pos0, skip0);
    ghost var values := out.values;
    ghost var ink, before := InkFor(colourTable, transparencyIndex), frameData[..];
    var skip := skip0;
    res, available, pos := res0, available0, pos0;
    var x := columns;
    n := 0;
    area.DrawNone(ink, values, before, r);
    while x > 0
      invariant n == columns - x && 0 <= x <= columns && (n > 0 ==> skip == 0)
      invariant lzw.Allocated() && Feeding(lzw, out, area.DataIndex(r, n), res, available, pos, skip)
      invariant frameData[..] == area.DrawRow(ink, values, before, r, n)
    {
      more, ret, res, available, pos, skip := Refill(lzw, out, area.DataIndex(r, n), res, available, pos, skip);
      if !more {
        return;
      }
      var rowAvailable := if x < available then x else available;
      area.DataStep(r, n, rowAvailable);
      FedOn(lzw, out, area.DataIndex(r, n), res, available, pos, rowAvailable);
      area.DrawMore(ink, values, before, r, n, rowAvailable);
      PaintSpan(lzw.stackBase, pos, rowAvailable, frameData, scanline + (columns - x), transparencyIndex, colourTable);
      x := x - rowAvailable;
      available := available - rowAvailable;
      pos := pos + rowAvailable;
      n := n + rowAvailable;
    }
    return true, Success, res, available, pos, n;
  }

  lemma FeedingBasics(lzw: LzwContext, out: Output, next: nat, res: LzwResult, available: nat, pos: nat, skip: nat)
    requires Feeding(lzw, out, next, res, available, pos, skip)
    ensures lzw.Allocated() && (available > 0 ==> skip == 0) && next - skip + available <= |out.values|
  {
  }

  /** Using up values from the buffer moves on to later pixels. */
  lemma FedOn(lzw: LzwContext, out: Output, next: nat, res: LzwResult, available: nat, pos: nat, n: nat)
    requires Feeding(lzw, out, next, res, available, pos, 0) && n <= available
    ensures Feeding(lzw, out, next + n, res, available - n, pos + n, 0)
    ensures pos + n <= lzw.stackBase.Length && next + n <= |out.values| && lzw.stackBase[pos..pos + n] == out.values[next..next + n]
  {
    hide LzwContext.Decoding, LzwContext.Future, LzwContext.Allocated, Filled;
    assert lzw.stackBase[pos..pos + n] == lzw.stackBase[pos..pos + available][..n];
    assert lzw.stackBase[pos + n..pos + available] == lzw.stackBase[pos..pos + available][n..];
    assert out.values[next..next + available][n..] == out.values[next + n..next + available];
    assert next + n + (available - n) == next + available;
  }

  /** nsgif__next_row: on to the row of the next data row. */
  method NextRow(area: Area, height: nat, ghost r: nat, y0: nat, step0: nat) returns (more: bool, y: nat, step: nat)
    requires area.Visible() && r < area.Rows() == height && y0 == area.RowOf(r)
    requires area.interlaced ==> Interlace.StepFor(y0, step0)
    ensures more <==> r + 1 < height
    ensures more ==> y == area.RowOf(r + 1) && (area.interlaced ==> Interlace.StepFor(y, step))
  {
    if !area.interlaced {
      return y0 + 1 != height, y0 + 1, step0;
    } else {
      Interlace.RowOfPlace(height, r);
      more, y, step := Interlace.Deinterlace(height, y0, step0);
    }
  }

  /** Skipping the clipped columns of a row leads to the next row's data. */
  method SkipClipped(lzw: LzwContext, area: Area, ghost out: Output, ghost r: nat, clipX: nat,
                     res: LzwResult, available0: nat, pos0: nat) returns (available: nat, pos: nat, skip: nat)
    requires area.Visible() && clipX == area.width - area.Columns()
    requires Feeding(lzw, out, area.DataIndex(r, area.Columns()), res, available0, pos0, 0)
    ensures Feeding(lzw, out, area.DataIndex(r + 1, 0), res, available, pos, skip)
  {
    hide LzwContext.Decoding, LzwContext.Future, LzwContext.Allocated, Area.Columns, Area.DataIndex;
    ghost var jump := Min(clipX, available0);
    FedOn(lzw, out, area.DataIndex(r, area.Columns()), res, available0, pos0, jump);
    skip, available, pos := JumpData(clipX, available0, pos0);
    NextRowData(area, r, clipX);
  }

  lemma NextRowData(area: Area, r: nat, clipX: nat)
    requires area.Visible() && clipX == area.width - area.Columns()
    ensures area.DataIndex(r + 1, 0) == area.DataIndex(r, area.Columns()) + clipX
  {
    hide Area.Columns;
    Product(r, area.width);
  }

  /** nsgif__decode_complex: any frame, clipped and deinterlaced. */
  method DecodeComplex(lzw: LzwContext, buf: seq<byte>, data: nat, area: Area, transparencyIndex: nat,
                       frameData: array<Colour>, colourTable: seq<Colour>) returns (ret: GifError)
    requires lzw.Allocated() && data < |buf| && |colourTable| == 256
    requires frameData.Length == area.imageWidth * area.imageHeight
    modifies lzw, lzw.input, lzw.table, lzw.stackBase, frameData
    ensures lzw.Allocated()
    ensures frameData[..] == area.Draw(InkFor(colourTable, transparencyIndex), FrameValues(buf, data), old(frameData[..]))
    ensures ret == ComplexResult(area, FrameOutput(buf, data))
  {
    hide LzwContext.Decoding, LzwContext.Future, Ink.PaintRun, Area.DrawRow, Area.DrawRows, Area.RowOf, DecodeAt;
    ghost var ink, values, before := InkFor(colourTable, transparencyIndex), FrameValues(buf, data), frameData[..];
    if area.offsetX >= area.imageWidth || area.offsetY >= area.imageHeight {
      return Success;
    }
    var clipX := Clip(area.offsetX, area.width, area.imageWidth);
    var clipY := Clip(area.offsetY, area.height, area.imageHeight);
    var width, height := area.width - clipX, area.height - clipY;
    if width == 0 || height == 0 {
      area.NoColumns(ink, values, before, height);
      return Success;
    }
    var res := lzw.DecodeInit(buf[data], buf, data + 1);
    if res != Ok {
      area.NoValues(ink, values, before);
      return ErrorFromLzw(res);
    }
    ret := DecodeRows(lzw, area, FrameOutput(buf, data), width, height, clipX, transparencyIndex, frameData, colourTable);
  }

  /** The row loop of nsgif__decode_complex. */
  method DecodeRows(lzw: LzwContext, area: Area, ghost out: Output, width: nat, height: nat, clipX: nat,
                    transparencyIndex: nat, frameData: array<Colour>, colourTable: seq<Colour>) returns (ret: GifError)
    requires area.Visible() && width == area.Columns() > 0 && height == area.Rows() > 0 && clipX == area.width - width
    requires |colourTable| == 256 && frameData.Length == area.imageWidth * area.imageHeight
    requires lzw.Allocated() && lzw.Decoding() && lzw.Future() == out
    modifies lzw, lzw.input, lzw.table, lzw.stackBase, frameData
    ensures lzw.Allocated()
    ensures frameData[..] == area.DrawRows(InkFor(colourTable, transparencyIndex), out.values, old(frameData[..]), height)
    ensures ret == if |out.values| >= area.DataIndex(height - 1, width) then Success else Shortage(out)
  {
    hide LzwContext.Decoding, LzwContext.Future, LzwContext.Allocated, Ink.PaintRun, Feeding, Area.Visible,
         Area.RowStart, Area.RowOf, Area.DataIndex, Area.DrawRow, Area.Columns, Area.Rows;
    ghost var values, ink, before := out.values, InkFor(colourTable, transparencyIndex), frameData[..];
    var res, available, pos, skip := Ok, 0, 0, 0;
    var y, step, more := 0, 24, true;
    ghost var r := 0;
    FirstRow(area);
    FeedingStarts(lzw, area, out);
    while more
      invariant lzw.Allocated() && r <= height && (more <==> r < height)
      invariant more ==> y == area.RowOf(r) && (area.interlaced ==> Interlace.StepFor(y, step))
      invariant more ==> Feeding(lzw, out, area.DataIndex(r, 0), res, available, pos, skip)
      invariant r > 0 ==> |values| >= area.DataIndex(r - 1, width)
      invariant frameData[..] == area.DrawRows(ink, values, before, r)
      decreases height - r
    {
      var scanline := area.offsetX + (y + area.offsetY) * area.imageWidth;
      ghost var n;
      RowStartIs(area, r);
      more, ret, res, available, pos, n :=
        DecodeRow(lzw, area, out, r, scanline, width, transparencyIndex, frameData, colourTable, res, available, pos, skip);
      if !more {
        LastRow(area, ink, values, before, r, n);
        DataLater(area, r, n, height - 1, width);
        return;
      }
      FeedingBasics(lzw, out, area.DataIndex(r, width), res, available, pos, 0);
      available, pos, skip := SkipClipped(lzw, area, out, r, clipX, res, available, pos);
      more, y, step := NextRow(area, height, r, y, step);
      r := r + 1;
    }
    return Success;
  }

  lemma FirstRow(area: Area)
    requires area.Visible() && area.Rows() > 0
    ensures area.RowOf(0) == 0 && Interlace.StepFor(0, 24)
  {
  }

  lemma DataLater(area: Area, r: nat, n: nat, last: nat, width: nat)
    requires r <= last && n < width
    ensures area.DataIndex(r, n) < area.DataIndex(last, width)
  {
    Times(r, last, area.width);
  }

  lemma FeedingStarts(lzw: LzwContext, area: Area, out: Output)
    requires lzw.Allocated() && lzw.Decoding() && lzw.Future() == out
    ensures Feeding(lzw, out, area.DataIndex(0, 0), Ok, 0, 0, 0)
  {
    assert Filled(0);
  }

  lemma RowStartIs(area: Area, r: nat)
    requires area.Visible() && r < area.Rows()
    ensures area.RowStart(r) == area.offsetX + (area.RowOf(r) + area.offsetY) * area.imageWidth
  {
  }

  lemma LastRow(area: Area, ink: Ink, values: seq<byte>, canvas: seq<Colour>, r: nat, n: nat)
    requires area.Visible() && r < area.Rows() && n <= area.Columns() && |ink.colours| == 256
    requires |canvas| == area.imageWidth * area.imageHeight && |values| <= area.DataIndex(r, n)
    ensures area.DrawRow(ink, values, area.DrawRows(ink, values, canvas, r), r, n) == area.DrawRows(ink, values, canvas, area.Rows())
  {
    area.NothingLeftInRow(ink, values, canvas, r, n);
  }
}
