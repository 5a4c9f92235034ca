/** The meaning of an animation: frames composed one after another (section 23 of GIF89a). */
module GifMovie {
  import opened BitString
  import opened LzwReader
  import LzwSpec
  import opened LzwDecoder
  import opened GifDraw

  datatype Disposal = Unspecified | Keep | RestoreBg | RestorePrev

  datatype Palette = Global | Local(colours: seq<Colour>)

  /** What a scan leaves about a frame. */
  datatype Frame = Frame(x0: nat, y0: nat, width: nat, height: nat, interlaced: bool,
                         transparency: bool, transparencyIndex: nat, disposal: Disposal, palette: Palette,
                         data: nat)   // offset of the minimum code size in the file

  const TRANSPARENT_COLOUR: Colour := 0

  /** A scanned file. */
  datatype Movie = Movie(buf: seq<byte>, width: nat, height: nat, background: Colour,
                         globalTable: seq<Colour>, frames: seq<Frame>) {

    /** What the scan makes sure of for every frame it counts. Colours of a table are opaque. */
    ghost predicate Ok() {
      && width > 0 && height > 0 && |globalTable| == 256 && |frames| < 0xFFFF_FFFF
      && forall f :: 0 <= f < |frames| ==> FrameOk(frames[f])
    }

    ghost predicate FrameOk(frame: Frame) {
      && frame.data < |buf| && buf[frame.data] < CODE_MAX
      && (frame.palette.Local? ==> |frame.palette.colours| <= 256 && forall c <- frame.palette.colours :: c != 0)
    }

    ghost function AreaOf(f: nat): Area
      requires f < |frames|
    {
      var frame := frames[f];
      Area(width, height, frame.x0, frame.y0, frame.width, frame.height, frame.interlaced)
    }

    ghost function Values(f: nat): seq<byte>
      requires Ok() && f < |frames|
    {
      FrameValues(buf, frames[f].data)
    }

    /** A frame's local palette overwrites the front of the local colour table; the rest stays. */
    ghost function Overlay(f: nat, table: seq<Colour>): (r: seq<Colour>)
      requires Ok() && f < |frames| && |table| == 256
      ensures |r| == 256
    {
      match frames[f].palette
      case Global => table
      case Local(c) => assert FrameOk(frames[f]); c + table[|c|..]
    }

    /** The local colour table after frames 0 to f, having started out as table. */
    ghost function TableAfter(table: seq<Colour>, f: nat): (r: seq<Colour>)
      requires Ok() && f < |frames| && |table| == 256
      ensures |r| == 256
    {
      Overlay(f, if f == 0 then table else TableAfter(table, f - 1))
    }

    ghost function InkOf(f: nat, table: seq<Colour>): (ink: Ink)
      requires Ok() && f < |frames| && |table| == 256
      ensures |ink.colours| == 256
    {
      InkFor(if frames[f].palette.Local? then table else globalTable, frames[f].transparencyIndex)
    }

    ghost function DrawFrame(f: nat, table: seq<Colour>, canvas: seq<Colour>): (c: seq<Colour>)
      requires Ok() && f < |frames| && |table| == 256 && |canvas| == width * height
      ensures |c| == |canvas|
    {
      AreaOf(f).Draw(InkOf(f, table), Values(f), canvas)
    }

    ghost function Blank(): (c: seq<Colour>)
      ensures |c| == width * height
    {
      seq(width * height, _ => TRANSPARENT_COLOUR)
    }

    /** Restoring the rows of a frame to the background. */
    ghost function ClearRows(f: nat, canvas: seq<Colour>, n: nat): (c: seq<Colour>)
      requires f < |frames| && |canvas| == width * height && AreaOf(f).Visible() && n <= AreaOf(f).Rows()
      ensures |c| == |canvas|
    {
      if n == 0 then canvas
      else
        var area := AreaOf(f).(interlaced := false);
        Fill(ClearRows(f, canvas, n - 1), area.RowStart(n - 1), area.Columns(), ClearColour(f))
    }

    ghost function ClearColour(f: nat): Colour
      requires f < |frames|
    {
      if frames[f].transparency then TRANSPARENT_COLOUR else background
    }

    ghost function Clear(f: nat, canvas: seq<Colour>): (c: seq<Colour>)
      requires f < |frames| && |canvas| == width * height
      ensures |c| == |canvas|
    {
      if AreaOf(f).Visible() then ClearRows(f, canvas, AreaOf(f).Rows()) else canvas
    }

    /** The canvas just before frame f is drawn, in sequential play. */
    ghost function Before(f: nat): (c: seq<Colour>)
      requires Ok() && f < |frames|
      ensures |c| == width * height
      decreases f, 0
    {
      if f == 0 then Blank()
      else
        match frames[f - 1].disposal
        case RestoreBg => Clear(f - 1, Composite(f - 1))
        case RestorePrev => Before(f - 1)
        case _ => Composite(f - 1)
    }

    /** The canvas after frames 0 to f, in sequential play with a fresh decoder. */
    ghost function Composite(f: nat): (c: seq<Colour>)
      requires Ok() && f < |frames|
      ensures |c| == width * height
      decreases f, 1
    {
      DrawFrame(f, TableAfter(Zeros(), f), Before(f))
    }

    ghost function Zeros(): (t: seq<Colour>)
      ensures |t| == 256
    {
      seq(256, _ => 0)
    }

    /** How many entries of the local colour table frames 0 to f have set. */
    ghost function Reach(f: nat): nat
      requires f < |frames|
    {
      var own := if frames[f].palette.Local? then |frames[f].palette.colours| else 0;
      if f == 0 || own > Reach(f - 1) then own else Reach(f - 1)
    }

    /** Frame f draws a value that no local palette has reached by then, but one does later: its
        colour depends on what was decoded before. */
    ghost predicate HazardAt(f: nat, r: nat, x: nat)
      requires Ok() && f < |frames|
    {
      && frames[f].palette.Local? && AreaOf(f).Visible()
      && r < AreaOf(f).Rows() && x < AreaOf(f).Columns()
      && AreaOf(f).DataIndex(r, x) < |Values(f)|
      && var v := Values(f)[AreaOf(f).DataIndex(r, x)];
         v != frames[f].transparencyIndex && Reach(f) <= v < Reach(|frames| - 1)
    }

    ghost predicate Hazard(f: nat)
      requires Ok() && f < |frames|
    {
      exists r: nat, x: nat :: HazardAt(f, r, x)
    }

    /** No frame before f is a hazard. */
    ghost predicate SafeBefore(f: nat)
      requires Ok() && f <= |frames|
    {
      forall e :: 0 <= e < f ==> !Hazard(e)
    }

    /** A local colour table some run can leave: entries no palette sets are still zero. */
    ghost predicate Reachable(table: seq<Colour>)
      requires frames != []
    {
      |table| == 256 && forall i :: Reach(|frames| - 1) <= i < 256 ==> table[i] == 0
    }

    lemma {:induction false} ReachGrows(e: nat, f: nat)
      requires e <= f < |frames|
      ensures Reach(e) <= Reach(f)
      decreases f
    {
      if e == f {
      } else {
        ReachGrows(e, f - 1);
      }
    }

    /** Entries within reach are the same whatever the table started out as, the others untouched. */
    lemma {:induction false} TableEntry(table: seq<Colour>, f: nat, i: nat)
      requires Ok() && f < |frames| && |table| == 256 && i < 256
      ensures TableAfter(table, f)[i] == if i < Reach(f) then TableAfter(Zeros(), f)[i] else table[i]
      ensures i < Reach(f) ==> TableAfter(table, f)[i] != 0
    {
      assert FrameOk(frames[f]);
      if f == 0 {
      } else {
        TableEntry(table, f - 1, i);
      }
      if frames[f].palette.Local? {
        var c := frames[f].palette.colours;
        if i < |c| { assert c[i] in c; }
      }
    }

    /** The frame's palette sets this entry of the local colour table. */
    ghost predicate Sets(f: nat, i: nat)
      requires f < |frames|
    {
      frames[f].palette.Local? && i < |frames[f].palette.colours|
    }

    /** An entry has the colour of the last palette that sets it. */
    lemma {:induction false} LastPalette(table: seq<Colour>, f: nat, e: nat, i: nat)
      requires Ok() && e <= f < |frames| && |table| == 256 && Sets(e, i) && forall k :: e < k <= f ==> !Sets(k, i)
      ensures i < 256 && TableAfter(table, f)[i] == frames[e].palette.colours[i]
      decreases f
    {
      assert FrameOk(frames[e]) && FrameOk(frames[f]);
      if e == f {
      } else {
        assert !Sets(f, i);
        LastPalette(table, f - 1, e, i);
      }
    }

    lemma TableReachable(table: seq<Colour>, f: nat)
      requires Ok() && f < |frames| && Reachable(table)
      ensures Reachable(TableAfter(table, f))
    {
      ReachGrows(f, |frames| - 1);
      forall i | Reach(|frames| - 1) <= i < 256
        ensures TableAfter(table, f)[i] == 0
      {
        TableEntry(table, f, i);
      }
    }

    /** A frame that is no hazard is drawn the same in every run. */
    lemma DrawIndependent(f: nat, table: seq<Colour>, canvas: seq<Colour>)
      requires Ok() && f < |frames| && !Hazard(f) && Reachable(table) && |canvas| == width * height
      ensures DrawFrame(f, TableAfter(table, f), canvas) == DrawFrame(f, TableAfter(Zeros(), f), canvas)
    {
      var area, values := AreaOf(f), Values(f);
      var a, b := InkOf(f, TableAfter(table, f)), InkOf(f, TableAfter(Zeros(), f));
      if area.Visible() {
        forall r, x | 0 <= r < area.Rows() && 0 <= x < area.Columns() && area.DataIndex(r, x) < |values|
          ensures SameOn(a, b, values[area.DataIndex(r, x)])
        {
          var v := values[area.DataIndex(r, x)];
          assert !HazardAt(f, r, x);
          TableEntry(table, f, v);
          TableEntry(Zeros(), f, v);
        }
        SameInk(area, a, b, values, canvas, area.Rows());
      }
    }
  }

  lemma {:induction false} FirstHazard(m: Movie, n: nat) returns (f: nat)
    requires m.Ok() && n <= |m.frames| && !m.SafeBefore(n)
    ensures f < n && m.SafeBefore(f) && m.Hazard(f)
  {
    if m.SafeBefore(n - 1) {
      f := n - 1;
    } else {
      f := FirstHazard(m, n - 1);
    }
  }

  /** The pixel of a hazard shows whatever its entry of the local colour table holds. */
  lemma HazardPixel(m: Movie, f: nat, r: nat, x: nat, table: seq<Colour>, canvas: seq<Colour>)
    requires m.Ok() && f < |m.frames| && m.HazardAt(f, r, x) && |table| == 256 && |canvas| == m.width * m.height
    ensures var area := m.AreaOf(f);
            m.DrawFrame(f, table, canvas)[area.PixelAt(area.RowOf(r), x)] == table[m.Values(f)[area.DataIndex(r, x)]]
  {
    var area := m.AreaOf(f);
    assert area.DataRow(area.RowOf(r)) == r;
    area.DrawPixel(m.InkOf(f, table), m.Values(f), canvas, area.RowOf(r), x);
  }

  /** Starting over after the last frame, a hazard shows: some pixel differs from sequential play. */
  lemma HazardShows(m: Movie, f: nat, canvas: seq<Colour>)
    requires m.Ok() && f < |m.frames| && m.Hazard(f) && |canvas| == m.width * m.height
    ensures var table := m.TableAfter(m.Zeros(), |m.frames| - 1);
            m.DrawFrame(f, m.TableAfter(table, f), canvas) != m.DrawFrame(f, m.TableAfter(m.Zeros(), f), canvas)
    ensures f < |m.frames| - 1
  {
    hide Movie.DrawFrame, Movie.TableAfter, Movie.FrameOk;
    var r: nat, x: nat :| m.HazardAt(f, r, x);
    var v, table := m.Values(f)[m.AreaOf(f).DataIndex(r, x)], m.TableAfter(m.Zeros(), |m.frames| - 1);
    m.TableEntry(table, f, v);
    m.TableEntry(m.Zeros(), f, v);
    m.TableEntry(m.Zeros(), |m.frames| - 1, v);
    HazardPixel(m, f, r, x, m.TableAfter(table, f), canvas);
    HazardPixel(m, f, r, x, m.TableAfter(m.Zeros(), f), canvas);
  }

  /** The byte 3 read as a three-bit code. */
  lemma ThreeBits()
    ensures |Bits([3])| == 8 && Value(Bits([3])[..3]) == 3
  {
    assert Bits([3]) == LowBits(3, 8) + Bits([]);
    assert LowBits(3, 8) == [true] + LowBits(1, 7);
    assert LowBits(1, 7) == [true] + LowBits(0, 6);
    assert LowBits(0, 6) == [false] + LowBits(0, 5);
    var b := Bits([3])[..3];
    assert b == [true, true, false];
    hide Bits, LowBits;
    ThreeValue();
  }

  lemma ThreeValue()
    ensures Value([true, true, false]) == 3
  {
  }

  lemma ThreeFirst(buf: seq<byte>)
    requires |buf| >= 5 && buf[..4] == [2, 1, 3, 0]
    ensures FrameValues(buf, 0) != [] && FrameValues(buf, 0)[0] == 3
  {
    hide LzwSpec.Running, Bits, Value;
    assert forall i :: 0 <= i < 4 ==> buf[i] == buf[..4][i];
    assert Flatten(buf, 3) == Flat([], OkEod);
    assert buf[2..3] == [3];
    assert Flatten(buf, 1) == Flat([3], OkEod);
    hide Flatten;
    ThreeBits();
    assert Pow2(2) == 4;
    assert LzwSpec.Fresh(2, Bits([3]), OkEod).values[0] == 3;
  }

  /** Hazards exist: two one-pixel frames, the first with two colours and value 3, the second with four. Between
      their data lie the second frame's descriptor and palette. */
  lemma HazardExample() returns (m: Movie)
    ensures m.Ok() && |m.frames| == 2 && m.frames[0].data < m.frames[1].data && m.SafeBefore(0) && m.Hazard(0)
  {
    var black: Colour := 0xFF;
    var first := Frame(0, 0, 1, 1, false, false, 256, Keep, Local([black, black]), 0);
    var second := first.(palette := Local([black, black, black, black]), data := 26);
    var descriptor, palette := [0x2C, 0, 0, 0, 0, 1, 0, 1, 0, 0x81], seq(12, _ => 0);
    m := Movie([2, 1, 3, 0] + descriptor + palette + [2, 1, 3, 0, 0x3B], 1, 1, 0, seq(256, _ => 0), [first, second]);
    HazardWhen(m, first, second);
  }

  lemma HazardWhen(m: Movie, first: Frame, second: Frame)
    requires |m.buf| >= 5 && m.buf[..4] == [2, 1, 3, 0] && m.frames == [first, second] && m.width == m.height == 1 && |m.globalTable| == 256
    requires first.data == 0 && second.data < |m.buf| && m.buf[second.data] == 2 && first.palette.Local? && second.palette.Local?
    requires |first.palette.colours| == 2 && |second.palette.colours| == 4
    requires (forall c <- first.palette.colours :: c != 0) && (forall c <- second.palette.colours :: c != 0)
    requires first.x0 == first.y0 == 0 && first.width == first.height == 1 && first.transparencyIndex == 256
    ensures m.Ok() && m.Hazard(0)
  {
    hide FrameValues;
    assert m.buf[0] == m.buf[..4][0];
    assert m.FrameOk(first) && m.FrameOk(second);
    ThreeFirst(m.buf);
    var area := m.AreaOf(0);
    assert area.Visible() && area.Rows() == 1 && area.Columns() == 1 && area.DataIndex(0, 0) == 0;
    assert m.Reach(0) == 2 && m.Reach(1) == 4;
    assert m.HazardAt(0, 0, 0);
  }

  ghost function Fill(canvas: seq<Colour>, pos: nat, n: nat, colour: Colour): (c: seq<Colour>)
    requires pos + n <= |canvas|
    ensures |c| == |canvas|
  {
    seq(|canvas|, k requires 0 <= k < |canvas| => if pos <= k < pos + n then colour else canvas[k])
  }

  /** Two inks give a value the same look. */
  ghost predicate SameOn(a: Ink, b: Ink, v: byte)
    requires |a.colours| == |b.colours| == 256
  {
    a.transparencyIndex == b.transparencyIndex && (v == a.transparencyIndex || a.colours[v] == b.colours[v])
  }

  lemma {:induction false} SameInk(area: Area, a: Ink, b: Ink, values: seq<byte>, canvas: seq<Colour>, r: nat)
    requires area.Visible() && r <= area.Rows() && |a.colours| == |b.colours| == 256
    requires |canvas| == area.imageWidth * area.imageHeight
    requires forall s, x :: 0 <= s < area.Rows() && 0 <= x < area.Columns() && area.DataIndex(s, x) < |values| ==>
                              SameOn(a, b, values[area.DataIndex(s, x)])
    ensures area.DrawRows(a, values, canvas, r) == area.DrawRows(b, values, canvas, r)
  {
    hide Area.DrawRow, SameOn, Area.DataIndex, Area.RowStart, Area.Columns;
    if r == 0 {
    } else {
      SameInk(area, a, b, values, canvas, r - 1);
      var c := area.DrawRows(a, values, canvas, r - 1);
      var withA, withB := area.DrawRow(a, values, c, r - 1, area.Columns()), area.DrawRow(b, values, c, r - 1, area.Columns());
      forall q | 0 <= q < |c|
        ensures withA[q] == withB[q]
      {
        SameInkAt(area, a, b, values, c, r - 1, q);
      }
    }
  }

  lemma SameInkAt(area: Area, a: Ink, b: Ink, values: seq<byte>, canvas: seq<Colour>, r: nat, q: nat)
    requires area.Visible() && r < area.Rows() && |a.colours| == |b.colours| == 256
    requires |canvas| == area.imageWidth * area.imageHeight && q < |canvas|
    requires forall x :: 0 <= x < area.Columns() && area.DataIndex(r, x) < |values| ==>
                           SameOn(a, b, values[area.DataIndex(r, x)])
    ensures area.DrawRow(a, values, canvas, r, area.Columns())[q] == area.DrawRow(b, values, canvas, r, area.Columns())[q]
  {
    hide Area.RowStart, Area.Columns, Area.Rows, Area.DrawRow;
    area.DrawRowAt(a, values, canvas, r, q);
    area.DrawRowAt(b, values, canvas, r, q);
    if area.RowStart(r) <= q < area.RowStart(r) + area.Columns() {
      var x := q - area.RowStart(r);
      assert area.DataIndex(r, x) < |values| ==> SameOn(a, b, values[area.DataIndex(r, x)]);
    }
  }
}
