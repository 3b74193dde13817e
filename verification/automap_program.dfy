/** The clipper and the line drawer as loops over endpoints and the frame buffer. */
module AutomapProgram {
  import opened Wrappers
  import opened Automap

  /** Where the line crosses the side of the frame that it is clipped to. */
  method MeetSide(f: Frame, l: Line, outside: Outcode) returns (tmp: Point)
    requires NeedsCut(f, l) && outside == Cutting(f, l)
    requires CutPart(f, l, outside).1 != 0
    ensures tmp == Meet(f, l, outside)
  {
    if outside.top {
      var dx, dy := l.b.x - l.a.x, l.a.y - l.b.y;
      tmp := Point(l.a.x + TruncDiv(dx * l.a.y, dy), 0);
    } else if outside.bottom {
      var dx, dy := l.b.x - l.a.x, l.a.y - l.b.y;
      tmp := Point(l.a.x + TruncDiv(dx * (l.a.y - f.h), dy), f.h - 1);
    } else if outside.right {
      var dx, dy := l.b.x - l.a.x, l.b.y - l.a.y;
      tmp := Point(f.w - 1, l.a.y + TruncDiv(dy * (f.w - 1 - l.a.x), dx));
    } else {
      var dx, dy := l.b.x - l.a.x, l.b.y - l.a.y;
      tmp := Point(0, l.a.y + TruncDiv(dy * -l.a.x, dx));
    }
  }

  lemma StepShortens(f: Frame, l: Line, tmp: Point)
    requires NeedsCut(f, l) && CutPart(f, l, Cutting(f, l)).1 != 0 && tmp == Meet(f, l, Cutting(f, l))
    ensures var m := if Outside(OutcodeOf(f, l.a)) then Line(tmp, l.b) else Line(l.a, tmp);
            m == ClipOnce(f, l) && Extent(m) < Extent(l) && Clip(f, l) == Clip(f, m)
  {
    ClipShortens(f, l);
  }

  /** Clips a line given in frame buffer coordinates. */
  method ClipLine(f: Frame, l: Line) returns (accepted: bool, fl: Line)
    requires f.w > 0 && f.h > 0
    ensures Clip(f, l) == if accepted then Some(fl) else None
  {
    fl := l;
    var outcode1, outcode2 := OutcodeOf(f, fl.a), OutcodeOf(f, fl.b);
    if Share(outcode1, outcode2) {
      return false, fl;
    }
    while Outside(outcode1) || Outside(outcode2)
      invariant outcode1 == OutcodeOf(f, fl.a) && outcode2 == OutcodeOf(f, fl.b) && !Share(outcode1, outcode2)
      invariant Clip(f, l) == Clip(f, fl)
      decreases Extent(fl)
    {
      CutIsPart(f, fl);
      var outside := if Outside(outcode1) then outcode1 else outcode2;
      var tmp := MeetSide(f, fl, outside);
      StepShortens(f, fl, tmp);
      if outside == outcode1 {
        fl := Line(tmp, fl.b);
        outcode1 := OutcodeOf(f, tmp);
      } else {
        fl := Line(fl.a, tmp);
        outcode2 := OutcodeOf(f, tmp);
      }
      if Share(outcode1, outcode2) {
        return false, fl;
      }
    }
    accepted := true;
  }

  function Place(f: Frame, p: Point): int {
    p.y * f.w + p.x
  }

  lemma PlaceInBuffer(f: Frame, p: Point)
    requires Inside(f, p)
    ensures 0 <= Place(f, p) < f.w * f.h
  {
    assert p.y * f.w <= (f.h - 1) * f.w;
    assert (f.h - 1) * f.w == f.w * f.h - f.w;
  }

  /** Buffer place `i` belongs to one of the first `n` steps of the line. */
  ghost predicate Dotted(f: Frame, l: Line, n: int, i: int) {
    exists k: nat, j: nat :: k < n && Nearest(l, k, j) && i == Place(f, At(l, k, j))
  }

  lemma DottedNext(f: Frame, l: Line, k: nat, j: nat, i: int)
    requires Nearest(l, k, j)
    ensures Dotted(f, l, k + 1, i) <==> Dotted(f, l, k, i) || i == Place(f, At(l, k, j))
  {
    if Dotted(f, l, k + 1, i) && !Dotted(f, l, k, i) {
      var k1: nat, j1: nat :| k1 < k + 1 && Nearest(l, k1, j1) && i == Place(f, At(l, k1, j1));
      NearestUnique(l, k, j, j1);
    }
  }

  ghost predicate Painted(f: Frame, l: Line, i: int) {
    exists p :: Drawn(l, p) && i == Place(f, p)
  }

  /** In the end the dots are the drawn points. */
  lemma DottedAll(f: Frame, l: Line, i: int)
    ensures Dotted(f, l, Major(l) + 1, i) <==> Painted(f, l, i)
  {
    if Dotted(f, l, Major(l) + 1, i) {
      var k: nat, j: nat :| Nearest(l, k, j) && i == Place(f, At(l, k, j));
      assert Drawn(l, At(l, k, j));
    }
  }

  /** Puts one dot: `n` steps are done before and `n + 1` after. */
  method PutDot(fb: array<int>, f: Frame, l: Line, x: int, y: int, color: int, ghost k: nat, ghost j: nat, ghost was: seq<int>)
    requires fb.Length == f.w * f.h && |was| == fb.Length && Inside(f, l.a) && Inside(f, l.b)
    requires Nearest(l, k, j) && Point(x, y) == At(l, k, j)
    requires forall i :: 0 <= i < fb.Length ==> fb[i] == if Dotted(f, l, k, i) then color else was[i]
    modifies fb
    ensures forall i :: 0 <= i < fb.Length ==> fb[i] == if Dotted(f, l, k + 1, i) then color else was[i]
  {
    NearestWithin(l, k, j);
    InsideBetween(f, l, k, j);
    PlaceInBuffer(f, Point(x, y));
    forall i | 0 <= i < fb.Length
      ensures Dotted(f, l, k + 1, i) <==> Dotted(f, l, k, i) || i == Place(f, At(l, k, j))
    {
      DottedNext(f, l, k, j, i);
    }
    fb[y * f.w + x] := color;
  }

  /** Paints exactly the drawn points of a line whose ends are in the frame, and nothing otherwise. */
  method DrawLine(fb: array<int>, f: Frame, l: Line, color: int)
    requires f.w > 0 && f.h > 0 && fb.Length == f.w * f.h
    modifies fb
    ensures forall i :: 0 <= i < fb.Length ==>
              fb[i] == if Inside(f, l.a) && Inside(f, l.b) && Painted(f, l, i) then color else old(fb[i])
  {
    if l.a.x < 0 || l.a.x >= f.w || l.a.y < 0 || l.a.y >= f.h || l.b.x < 0 || l.b.x >= f.w || l.b.y < 0 || l.b.y >= f.h {
      return;
    }
    forall i ensures Dotted(f, l, Major(l) + 1, i) <==> Painted(f, l, i) {
      DottedAll(f, l, i);
    }
    var dx, dy := l.b.x - l.a.x, l.b.y - l.a.y;
    var ax, ay := 2 * Abs(dx), 2 * Abs(dy);
    if ax > ay {
      DrawFlat(fb, f, l, color);
    } else {
      DrawSteep(fb, f, l, color);
    }
  }

  /** One dot in every column. */
  method DrawFlat(fb: array<int>, f: Frame, l: Line, color: int)
    requires f.w > 0 && f.h > 0 && fb.Length == f.w * f.h && Inside(f, l.a) && Inside(f, l.b) && Flat(l)
    modifies fb
    ensures forall i :: 0 <= i < fb.Length ==> fb[i] == if Dotted(f, l, Major(l) + 1, i) then color else old(fb[i])
  {
    var sx, sy := Sign(l.b.x - l.a.x), Sign(l.b.y - l.a.y);
    var ax, ay := 2 * Abs(l.b.x - l.a.x), 2 * Abs(l.b.y - l.a.y);
    var x, y, d := l.a.x, l.a.y, ay - ax / 2;
    ghost var k, j := 0, 0;
    while true
      invariant Nearest(l, k, j) && Point(x, y) == At(l, k, j) && d == Decision(l, k, j)
      invariant forall i :: 0 <= i < fb.Length ==> fb[i] == if Dotted(f, l, k, i) then color else old(fb[i])
      decreases Major(l) - k
    {
      PutDot(fb, f, l, x, y, color, k, j, old(fb[..]));
      if x == l.b.x {
        return;
      }
      NextNearest(l, k, j);
      DecisionNext(l, k, j);
      if d >= 0 {
        y := y + sy;
        d := d - ax;
        j := j + 1;
      }
      x := x + sx;
      d := d + ay;
      k := k + 1;
    }
  }

  lemma DecisionNext(l: Line, k: nat, j: nat)
    ensures Decision(l, k + 1, j) == Decision(l, k, j) + 2 * Minor(l)
    ensures Decision(l, k + 1, j + 1) == Decision(l, k, j) - 2 * Major(l) + 2 * Minor(l)
  {
    DeviationSteps(l, k, j);
    DeviationSteps(l, k + 1, j);
    DeviationSteps(l, k + 1, j + 1);
  }

  /** One dot in every row. */
  method DrawSteep(fb: array<int>, f: Frame, l: Line, color: int)
    requires f.w > 0 && f.h > 0 && fb.Length == f.w * f.h && Inside(f, l.a) && Inside(f, l.b) && !Flat(l)
    modifies fb
    ensures forall i :: 0 <= i < fb.Length ==> fb[i] == if Dotted(f, l, Major(l) + 1, i) then color else old(fb[i])
  {
    var sx, sy := Sign(l.b.x - l.a.x), Sign(l.b.y - l.a.y);
    var ax, ay := 2 * Abs(l.b.x - l.a.x), 2 * Abs(l.b.y - l.a.y);
    var x, y, d := l.a.x, l.a.y, ax - ay / 2;
    ghost var k, j := 0, 0;
    while true
      invariant Nearest(l, k, j) && Point(x, y) == At(l, k, j) && d == Decision(l, k, j)
      invariant forall i :: 0 <= i < fb.Length ==> fb[i] == if Dotted(f, l, k, i) then color else old(fb[i])
      decreases Major(l) - k
    {
      PutDot(fb, f, l, x, y, color, k, j, old(fb[..]));
      if y == l.b.y {
        return;
      }
      NextNearest(l, k, j);
      DecisionNext(l, k, j);
      if d >= 0 {
        x := x + sx;
        d := d - ay;
        j := j + 1;
      }
      y := y + sy;
      d := d + ax;
      k := k + 1;
    }
  }

  /** Clipping and then drawing marks the two ends of what was accepted, and paints nothing when
      the line is rejected. */
  method DrawClipped(fb: array<int>, f: Frame, l: Line, color: int)
    requires f.w > 0 && f.h > 0 && fb.Length == f.w * f.h
    modifies fb
    ensures Clip(f, l) == None ==> fb[..] == old(fb[..])
    ensures Clip(f, l).Some? ==>
              forall i :: 0 <= i < fb.Length ==>
                fb[i] == if Painted(f, Clip(f, l).value, i) then color else old(fb[i])
  {
    var accepted, fl := ClipLine(f, l);
    if accepted {
      ClipStays(f, l);
      DrawLine(fb, f, fl, color);
    }
  }
}
