/** The row order of interlaced frames: Appendix E of GIF89a and nsgif__deinterlace of gif.c. */
module Interlace {

  /** How many rows of a frame a pass visits: start, start + stride, and so on. */
  function RowsInPass(height: nat, start: nat, stride: nat): nat
    requires stride > 0
  {
    if height <= start then 0 else (height - start + stride - 1) / stride
  }

  /** How many rows come before a pass (0 to 3). */
  function RowsBefore(height: nat, pass: nat): nat {
    (if pass > 0 then RowsInPass(height, 0, 8) else 0)
    + (if pass > 1 then RowsInPass(height, 4, 8) else 0)
    + (if pass > 2 then RowsInPass(height, 2, 4) else 0)
  }

  function PassOf(y: nat): nat {
    if y % 8 == 0 then 0 else if y % 8 == 4 then 1 else if y % 4 == 2 then 2 else 3
  }

  function Stride(pass: nat): nat {
    if pass <= 1 then 8 else if pass == 2 then 4 else 2
  }

  /** The place of row y in Appendix E order: rows 0 mod 8, then 4 mod 8, then 2 mod 4, then odd. */
  function Place(height: nat, y: nat): nat {
    RowsBefore(height, PassOf(y)) + y / Stride(PassOf(y))
  }

  /** The row at a place of Appendix E order. */
  function RowAt(height: nat, place: nat): nat {
    if place < RowsBefore(height, 1) then 8 * place
    else if place < RowsBefore(height, 2) then 4 + 8 * (place - RowsBefore(height, 1))
    else if place < RowsBefore(height, 3) then 2 + 4 * (place - RowsBefore(height, 2))
    else 1 + 2 * (place - RowsBefore(height, 3))
  }

  /** How the four passes share out the rows. */
  lemma RowsOfPasses(height: nat)
    ensures var a, b, c, d := RowsInPass(height, 0, 8), RowsInPass(height, 4, 8),
                              RowsInPass(height, 2, 4), RowsInPass(height, 1, 2);
            && a + b + c + d == height
            && height <= 8 * a < height + 8
            && height <= 8 * b + 4 && (b > 0 ==> 8 * b - 4 < height)
            && height <= 4 * c + 2 && (c > 0 ==> 4 * c - 2 < height)
            && height <= 2 * d + 1 && (d > 0 ==> 2 * d - 1 < height)
  {
    var q, r := height / 8, height % 8;
    assert height == 8 * q + r;
    CountPass(height, 0, 8, if r > 0 then q + 1 else q);
    CountPass(height, 4, 8, if r > 4 then q + 1 else q);
    CountPass(height, 2, 4, if r > 6 then 2 * q + 2 else if r > 2 then 2 * q + 1 else 2 * q);
    CountPass(height, 1, 2, if r > 5 then 4 * q + 3 else if r > 3 then 4 * q + 2 else if r > 1 then 4 * q + 1 else 4 * q);
  }

  lemma CountPass(height: nat, start: nat, stride: nat, n: nat)
    requires stride == 2 || stride == 4 || stride == 8
    requires height <= start + stride * n && (n > 0 ==> start + stride * n < height + stride)
    ensures RowsInPass(height, start, stride) == n
  {
  }

  lemma Pass0(height: nat, j: nat)
    ensures 8 * j < height <==> j < RowsBefore(height, 1)
    ensures PassOf(8 * j) == 0 && Place(height, 8 * j) == j
    ensures 8 * j < height ==> j < height && RowAt(height, j) == 8 * j
  {
  }

  lemma Pass1(height: nat, j: nat)
    ensures 4 + 8 * j < height <==> RowsBefore(height, 1) + j < RowsBefore(height, 2)
    ensures PassOf(4 + 8 * j) == 1 && Place(height, 4 + 8 * j) == RowsBefore(height, 1) + j
    ensures var p := RowsBefore(height, 1) + j; 4 + 8 * j < height ==> p < height && RowAt(height, p) == 4 + 8 * j
  {
  }

  lemma Pass2(height: nat, j: nat)
    ensures 2 + 4 * j < height <==> RowsBefore(height, 2) + j < RowsBefore(height, 3)
    ensures PassOf(2 + 4 * j) == 2 && Place(height, 2 + 4 * j) == RowsBefore(height, 2) + j
    ensures var p := RowsBefore(height, 2) + j; 2 + 4 * j < height ==> p < height && RowAt(height, p) == 2 + 4 * j
  {
  }

  lemma Pass3(height: nat, j: nat)
    ensures 1 + 2 * j < height <==> RowsBefore(height, 3) + j < height
    ensures PassOf(1 + 2 * j) == 3 && Place(height, 1 + 2 * j) == RowsBefore(height, 3) + j
    ensures var p := RowsBefore(height, 3) + j; 1 + 2 * j < height ==> RowAt(height, p) == 1 + 2 * j
  {
    hide RowsInPass;
    RowsOfPasses(height);
    var y := 1 + 2 * j;
    assert y % 2 == 1 && y / 2 == j;
    assert y % 8 != 0 && y % 8 != 4 && y % 4 != 2;
  }

  /** Places and rows are in one-to-one correspondence. */
  lemma PlaceOfRow(height: nat, y: nat)
    requires y < height
    ensures Place(height, y) < height && RowAt(height, Place(height, y)) == y
  {
    hide RowsBefore, RowAt, Place, PassOf;
    var step := if PassOf(y) == 0 then 24 else if PassOf(y) == 1 then 8 else if PassOf(y) == 2 then 4 else 2;
    var j := NumberInPass(y, step);
    if step == 24 { Pass0(height, j); }
    else if step == 8 { Pass1(height, j); }
    else if step == 4 { Pass2(height, j); }
    else { Pass3(height, j); }
  }

  lemma RowOfPlace(height: nat, place: nat)
    requires place < height
    ensures RowAt(height, place) < height && Place(height, RowAt(height, place)) == place
  {
    hide RowsBefore, Place;
    if place < RowsBefore(height, 1) { Pass0(height, place); }
    else if place < RowsBefore(height, 2) { Pass1(height, place - RowsBefore(height, 1)); }
    else if place < RowsBefore(height, 3) { Pass2(height, place - RowsBefore(height, 2)); }
    else { Pass3(height, place - RowsBefore(height, 3)); }
  }

  /** The step nsgif__deinterlace uses while in the pass of row y. */
  predicate StepFor(y: nat, step: nat) {
    step == if PassOf(y) == 0 then 24 else if PassOf(y) == 1 then 8 else if PassOf(y) == 2 then 4 else 2
  }

  /** The next place lies in the same pass, or starts the first later pass that has rows. */
  /** What the step arithmetic reaches from row y is the row at the next place. */
  ghost predicate NextIs(height: nat, y: nat, step: nat) {
    var next := Place(height, y) + 1;
    if y + step % 16 < height then StepFor(y + step % 16, step) && next < height && RowAt(height, next) == y + step % 16
    else if step == 24 && 4 < height then next < height && RowAt(height, next) == 4
    else if (step == 24 || step == 8) && 2 < height then next < height && RowAt(height, next) == 2
    else if step != 2 && 1 < height then next < height && RowAt(height, next) == 1
    else next == height
  }

  lemma NextRow(height: nat, y: nat, step: nat)
    requires y < height && StepFor(y, step)
    ensures step == 24 || step == 8 || step == 4 || step == 2
    ensures NextIs(height, y, step)
    ensures StepFor(4, 8) && StepFor(2, 4) && StepFor(1, 2)
  {
    hide NextIs;
    var j := NumberInPass(y, step);
    if step == 24 {
      NextRow0(height, j);
    } else if step == 8 {
      NextRow1(height, j);
    } else if step == 4 {
      NextRow2(height, j);
    } else {
      NextRow3(height, j);
    }
  }

  lemma NextRow0(height: nat, j: nat)
    requires 8 * j < height
    ensures NextIs(height, 8 * j, 24)
  {
    hide RowsInPass, RowAt, Place, PassOf;
    Pass0(height, j);
    Pass0(height, j + 1);
    Pass1(height, 0);
    Pass2(height, 0);
    Pass3(height, 0);
  }

  lemma NextRow1(height: nat, j: nat)
    requires 4 + 8 * j < height
    ensures NextIs(height, 4 + 8 * j, 8)
  {
    hide RowsInPass, RowAt, Place, PassOf;
    Pass1(height, j);
    Pass1(height, j + 1);
    Pass2(height, 0);
    Pass3(height, 0);
  }

  lemma NextRow2(height: nat, j: nat)
    requires 2 + 4 * j < height
    ensures NextIs(height, 2 + 4 * j, 4)
  {
    hide RowsInPass, RowAt, Place, PassOf;
    Pass2(height, j);
    Pass2(height, j + 1);
    Pass3(height, 0);
  }

  lemma NextRow3(height: nat, j: nat)
    requires 1 + 2 * j < height
    ensures NextIs(height, 1 + 2 * j, 2)
  {
    hide RowsInPass, RowAt, Place, PassOf;
    Pass3(height, j);
    Pass3(height, j + 1);
  }

  lemma NumberInPass(y: nat, step: nat) returns (j: nat)
    requires StepFor(y, step)
    ensures step == 24 || step == 8 || step == 4 || step == 2
    ensures y == if step == 24 then 8 * j else if step == 8 then 4 + 8 * j else if step == 4 then 2 + 4 * j else 1 + 2 * j
  {
    j := if step >= 8 then y / 8 else y / step;
  }

  /** nsgif__deinterlace: on to the next place of Appendix E order, false at the end of the frame. */
  method Deinterlace(height: nat, y0: nat, step0: nat) returns (more: bool, y: nat, step: nat)
    requires y0 < height && StepFor(y0, step0)
    ensures more <==> Place(height, y0) + 1 < height
    ensures more ==> y == RowAt(height, Place(height, y0) + 1) < height && StepFor(y, step)
  {
    hide RowsBefore, RowAt, Place, PassOf;
    NextRow(height, y0, step0);
    y, step := y0 + step0 % 16, step0;
    if y < height { return true, y, step; }
    if step == 24 {
      y, step := 4, 8;
      if y < height { return true, y, step; }
    }
    if step == 8 {
      y, step := 2, 4;
      if y < height { return true, y, step; }
    }
    if step == 4 {
      y, step := 1, 2;
      if y < height { return true, y, step; }
    }
    return false, y, step;
  }

  /** Repeated calls from y = 0, step = 24 visit every row exactly once, in Appendix E order. */
  method VisitRows(height: nat) returns (rows: seq<nat>)
    requires height > 0
    ensures |rows| == height
    ensures forall i :: 0 <= i < height ==> rows[i] == RowAt(height, i) < height
    ensures forall y :: 0 <= y < height ==> Place(height, y) < height && rows[Place(height, y)] == y
    ensures forall i, j :: 0 <= i < j < height ==> rows[i] != rows[j]
  {
    hide RowsBefore, RowAt, Place;
    var y, step, more := 0, 24, true;
    rows := [];
    Pass0(height, 0);
    while more
      invariant |rows| <= height && (more <==> |rows| < height)
      invariant forall i :: 0 <= i < |rows| ==> rows[i] == RowAt(height, i)
      invariant more ==> y == RowAt(height, |rows|) < height && StepFor(y, step)
      decreases height - |rows|
    {
      RowOfPlace(height, |rows|);
      rows := rows + [y];
      more, y, step := Deinterlace(height, y, step);
    }
    forall i | 0 <= i < height
      ensures rows[i] < height && Place(height, rows[i]) == i
    {
      RowOfPlace(height, i);
    }
    forall y | 0 <= y < height
      ensures Place(height, y) < height && rows[Place(height, y)] == y
    {
      PlaceOfRow(height, y);
    }
  }

  /** The decoder interlaces a frame that reaches below the image over the rows that are left of
      it. That gives every visible row its own data exactly in these cases. */
  lemma ClippedOrder(full: nat, clipped: nat)
    requires 1 <= clipped <= full
    ensures (forall k :: 0 <= k < clipped ==> RowAt(clipped, k) == RowAt(full, k))
            <==> clipped == full || clipped == 1 || (full == clipped + 1 && clipped % 2 == 1)
  {
    hide RowsInPass;
    if full == clipped + 1 && clipped % 2 == 1 {
      SamePasses(clipped);
    } else if clipped != full && clipped != 1 {
      var k := LostRow(full, clipped);
      RowOfPlace(clipped, k);
    } else if clipped == 1 {
      assert RowAt(1, 0) == 0 == RowAt(full, 0) by {
        Pass0(1, 0);
        Pass0(full, 0);
      }
    }
  }

  /** Cutting off one last odd row takes it off the end of the last pass. */
  lemma SamePasses(clipped: nat)
    requires clipped % 2 == 1
    ensures RowsBefore(clipped + 1, 1) == RowsBefore(clipped, 1)
    ensures RowsBefore(clipped + 1, 2) == RowsBefore(clipped, 2)
    ensures RowsBefore(clipped + 1, 3) == RowsBefore(clipped, 3)
  {
    hide RowsInPass;
    var q, r := clipped / 8, clipped % 8;
    assert clipped == 8 * q + r && r % 2 == 1;
    SameCount(clipped, 0, 8, q + 1);
    SameCount(clipped, 4, 8, if r > 4 then q + 1 else q);
    SameCount(clipped, 2, 4, if r > 6 then 2 * q + 2 else if r > 2 then 2 * q + 1 else 2 * q);
  }

  lemma SameCount(height: nat, start: nat, stride: nat, n: nat)
    requires stride == 4 || stride == 8
    requires height + 1 <= start + stride * n && (n > 0 ==> start + stride * n < height + stride)
    ensures RowsInPass(height, start, stride) == RowsInPass(height + 1, start, stride)
  {
    CountPass(height, start, stride, n);
    CountPass(height + 1, start, stride, n);
  }

  /** Otherwise some row below the image comes before the visible rows are done. */
  lemma LostRow(full: nat, clipped: nat) returns (k: nat)
    requires 1 < clipped < full && !(full == clipped + 1 && clipped % 2 == 1)
    ensures k < clipped <= RowAt(full, k)
  {
    hide RowsInPass;
    RowsOfPasses(clipped);
    RowsOfPasses(full);
    k := if RowsBefore(full, 1) > RowsBefore(clipped, 1) then RowsBefore(clipped, 1)
         else if RowsBefore(full, 2) > RowsBefore(clipped, 2) then RowsBefore(clipped, 2)
         else RowsBefore(clipped, 3);
  }
}
