/** Automap lines: clipping to the frame buffer by Cohen and Sutherland's scheme, and drawing by
    Bresenham's. */
module Automap {
  import opened Arithmetic
  import opened Wrappers

  datatype Point = Point(x: int, y: int)
  datatype Line = Line(a: Point, b: Point)
  datatype Frame = Frame(w: int, h: int)

  function Abs(n: int): nat {
    if n < 0 then -n else n
  }

  /** Division that truncates toward zero. */
  function TruncDiv(n: int, d: int): int
    requires d != 0
  {
    if (n < 0) == (d < 0) then Abs(n) / Abs(d) else -(Abs(n) / Abs(d))
  }

  // ---------------------------------------------------------------- clipping

  datatype Outcode = Outcode(left: bool, right: bool, bottom: bool, top: bool)

  function OutcodeOf(f: Frame, p: Point): Outcode {
    Outcode(p.x < 0, p.x >= 0 && p.x >= f.w, p.y >= 0 && p.y >= f.h, p.y < 0)
  }

  predicate Outside(o: Outcode) {
    o.left || o.right || o.bottom || o.top
  }

  predicate Share(o: Outcode, p: Outcode) {
    (o.left && p.left) || (o.right && p.right) || (o.bottom && p.bottom) || (o.top && p.top)
  }

  predicate Inside(f: Frame, p: Point) {
    0 <= p.x < f.w && 0 <= p.y < f.h
  }

  /** Where the line meets the side of the frame that `o` names first. */
  function Meet(f: Frame, l: Line, o: Outcode): Point
    requires Outside(o)
    requires o.top || o.bottom ==> l.a.y != l.b.y
    requires !o.top && !o.bottom ==> l.a.x != l.b.x
  {
    if o.top then Point(l.a.x + TruncDiv((l.b.x - l.a.x) * l.a.y, l.a.y - l.b.y), 0)
    else if o.bottom then Point(l.a.x + TruncDiv((l.b.x - l.a.x) * (l.a.y - f.h), l.a.y - l.b.y), f.h - 1)
    else if o.right then Point(f.w - 1, l.a.y + TruncDiv((l.b.y - l.a.y) * (f.w - 1 - l.a.x), l.b.x - l.a.x))
    else Point(0, l.a.y + TruncDiv((l.b.y - l.a.y) * -l.a.x, l.b.x - l.a.x))
  }

  function Extent(l: Line): nat {
    Abs(l.b.x - l.a.x) + Abs(l.b.y - l.a.y)
  }

  /** One round of the loop: the first endpoint that is outside is moved to the frame. */
  function ClipOnce(f: Frame, l: Line): Line
    requires f.w > 0 && f.h > 0 && !Share(OutcodeOf(f, l.a), OutcodeOf(f, l.b))
  {
    var o1, o2 := OutcodeOf(f, l.a), OutcodeOf(f, l.b);
    if Outside(o1) then Line(Meet(f, l, o1), l.b)
    else if Outside(o2) then Line(l.a, Meet(f, l, o2))
    else l
  }

  predicate Between(x: int, p: int, q: int) {
    p <= x <= q || q <= x <= p
  }

  predicate InBox(p: Point, l: Line) {
    Between(p.x, l.a.x, l.b.x) && Between(p.y, l.a.y, l.b.y)
  }

  lemma Quotient(n: nat, d: nat)
    requires d > 0
    ensures n / d * d <= n < n / d * d + d
  {
  }

  lemma AtMost(q: nat, s: nat, d: nat)
    requires q * d <= s * d && d > 0
    ensures q <= s
  {
    assert (q - s) * d <= 0;
  }

  lemma PartNat(s: nat, n: nat, d: nat)
    requires d > 0 && n <= d
    ensures s * n / d <= s
    ensures s * n / d * d <= s * n < s * n / d * d + d
  {
    var q := s * n / d;
    Quotient(s * n, d);
    assert s * n <= s * d;
    assert q * d <= s * d;
    AtMost(q, s, d);
  }

  lemma QuotientAtMost(s: nat, n: nat, d: nat)
    requires d > 0 && n <= d
    ensures s * n / d <= s
  {
    PartNat(s, n, d);
  }

  /** Signs in and out of a product. */
  lemma Signs(a: int, b: int)
    ensures a * b == if (a < 0) == (b < 0) then Abs(a) * Abs(b) else -(Abs(a) * Abs(b))
  {
    if a < 0 && b < 0 {
      assert a * b == (-a) * (-b);
    } else if a < 0 {
      assert a * b == -((-a) * b);
    } else if b < 0 {
      assert a * b == -(a * (-b));
    }
  }

  lemma TruncSigned(s: int, n: int, d: int)
    requires d != 0 && (n == 0 || (n < 0) == (d < 0))
    ensures TruncDiv(s * n, d) == if s < 0 then -(Abs(s) * Abs(n) / Abs(d)) else Abs(s) * Abs(n) / Abs(d)
  {
    Signs(s, n);
    var m := Abs(s) * Abs(n);
    if s == 0 || n == 0 {
      assert m == 0;
    } else {
      assert m > 0;
    }
  }

  /** A part `n / d` of the way from 0 to `s` lies between them. */
  lemma PartBetween(s: int, n: int, d: int)
    requires d != 0 && Abs(n) <= Abs(d) && (n == 0 || (n < 0) == (d < 0))
    ensures Between(TruncDiv(s * n, d), 0, s)
  {
    QuotientAtMost(Abs(s), Abs(n), Abs(d));
    SignedBetween(s, Abs(s) * Abs(n) / Abs(d));
    TruncSigned(s, n, d);
  }

  lemma SignedBetween(s: int, q: int)
    requires 0 <= q <= Abs(s)
    ensures Between(if s < 0 then -q else q, 0, s)
  {
  }

  /** What is left over when `m` is divided by `d` with quotient `t`. */
  function Left(m: int, d: int, t: int): int {
    t * d - m
  }

  /** The truncated quotient is off by less than one. */
  lemma TruncClose(m: int, d: int)
    requires d != 0
    ensures Abs(Left(m, d, TruncDiv(m, d))) < Abs(d)
  {
    var q := Abs(m) / Abs(d);
    Quotient(Abs(m), Abs(d));
    if (m < 0) == (d < 0) {
      Signs(q, d);
    } else {
      Signs(-q, d);
    }
  }

  // -------------------------------------------------------- one step of a clip

  /** The part of the line that a round cuts off, as a fraction of the line's extent in the
      direction of the cut. */
  function CutPart(f: Frame, l: Line, o: Outcode): (int, int) {
    if o.top then (l.a.y, l.a.y - l.b.y)
    else if o.bottom then (l.a.y - f.h, l.a.y - l.b.y)
    else if o.right then (f.w - 1 - l.a.x, l.b.x - l.a.x)
    else (-l.a.x, l.b.x - l.a.x)
  }

  function Cutting(f: Frame, l: Line): Outcode {
    if Outside(OutcodeOf(f, l.a)) then OutcodeOf(f, l.a) else OutcodeOf(f, l.b)
  }

  ghost predicate NeedsCut(f: Frame, l: Line) {
    && f.w > 0 && f.h > 0 && !Share(OutcodeOf(f, l.a), OutcodeOf(f, l.b))
    && (Outside(OutcodeOf(f, l.a)) || Outside(OutcodeOf(f, l.b)))
  }

  /** The division never divides by zero, and the fraction is between nothing and everything. */
  lemma CutIsPart(f: Frame, l: Line)
    requires NeedsCut(f, l)
    ensures var (n, d) := CutPart(f, l, Cutting(f, l)); d != 0 && Abs(n) <= Abs(d) && (n == 0 || (n < 0) == (d < 0))
  {
  }

  /** The line, clipped at one end, stays in its box and gets shorter. */
  lemma ClipShortens(f: Frame, l: Line)
    requires NeedsCut(f, l)
    ensures var m := ClipOnce(f, l); InBox(m.a, l) && InBox(m.b, l) && Extent(m) < Extent(l)
  {
    var o := Cutting(f, l);
    var (n, d) := CutPart(f, l, o);
    CutIsPart(f, l);
    if o.top || o.bottom {
      PartBetween(l.b.x - l.a.x, n, d);
    } else {
      PartBetween(l.b.y - l.a.y, n, d);
    }
  }

  /** How far the cut endpoint lies from endpoint `a` along the side of the frame. */
  function Moved(f: Frame, l: Line): int
    requires NeedsCut(f, l)
  {
    var o := Cutting(f, l);
    if o.top || o.bottom then Meet(f, l, o).x - l.a.x else Meet(f, l, o).y - l.a.y
  }

  function Along(f: Frame, l: Line): int {
    if Cutting(f, l).top || Cutting(f, l).bottom then l.b.x - l.a.x else l.b.y - l.a.y
  }

  /** The new endpoint is less than a pixel, along the side of the frame, from where the line
      crosses row 0, row `h`, column `w - 1` or column 0. */
  lemma ClipIsClose(f: Frame, l: Line)
    requires NeedsCut(f, l)
    ensures var (n, d) := CutPart(f, l, Cutting(f, l)); Abs(Left(Along(f, l) * n, d, Moved(f, l))) < Abs(d)
  {
    var (n, d) := CutPart(f, l, Cutting(f, l));
    CutIsPart(f, l);
    TruncClose(Along(f, l) * n, d);
    assert Moved(f, l) == TruncDiv(Along(f, l) * n, d);
  }

  predicate Small(l: Line) {
    Abs(l.a.x) <= 23170 && Abs(l.a.y) <= 23170 && Abs(l.b.x) <= 23170 && Abs(l.b.y) <= 23170
  }

  /** Coordinates up to 23170 keep every product of the clip in 32 bits. */
  lemma ClipFits(f: Frame, l: Line)
    requires NeedsCut(f, l) && Small(l)
    ensures Abs(Along(f, l) * CutPart(f, l, Cutting(f, l)).0) < 0x8000_0000
    ensures Small(ClipOnce(f, l))
  {
    assert Small(ClipOnce(f, l)) by {
      ClipShortens(f, l);
    }
    var n, d := CutPart(f, l, Cutting(f, l)).0, CutPart(f, l, Cutting(f, l)).1;
    CutIsPart(f, l);
    assert Abs(Along(f, l)) <= 46340 && Abs(d) <= 46340;
    ProductFits(Along(f, l), n);
  }

  lemma ProductFits(s: int, n: int)
    requires Abs(s) <= 46340 && Abs(n) <= 46340
    ensures Abs(s * n) < 0x8000_0000
  {
    Signs(s, n);
    Product(Abs(s), Abs(n), 46340);
  }

  lemma Product(a: nat, b: nat, m: nat)
    requires a <= m && b <= m
    ensures a * b <= m * m
  {
    assert a * b <= a * m <= m * m;
  }

  function Clip(f: Frame, l: Line): Option<Line>
    requires f.w > 0 && f.h > 0
    decreases Extent(l)
  {
    var o1, o2 := OutcodeOf(f, l.a), OutcodeOf(f, l.b);
    if Share(o1, o2) then None
    else if !Outside(o1) && !Outside(o2) then Some(l)
    else
      ClipShortens(f, l);
      Clip(f, ClipOnce(f, l))
  }

  lemma BoxInBox(p: Point, m: Line, l: Line)
    requires InBox(p, m) && InBox(m.a, l) && InBox(m.b, l)
    ensures InBox(p, l)
  {
  }

  /** An accepted line lies inside the frame and inside the box of the line that it was cut from. */
  lemma {:induction false} ClipStays(f: Frame, l: Line)
    requires f.w > 0 && f.h > 0 && Clip(f, l).Some?
    ensures var m := Clip(f, l).value; Inside(f, m.a) && Inside(f, m.b) && InBox(m.a, l) && InBox(m.b, l)
    decreases Extent(l)
  {
    var o1, o2 := OutcodeOf(f, l.a), OutcodeOf(f, l.b);
    if Outside(o1) || Outside(o2) {
      ClipShortens(f, l);
      var m := ClipOnce(f, l);
      ClipStays(f, m);
      BoxInBox(Clip(f, m).value.a, m, l);
      BoxInBox(Clip(f, m).value.b, m, l);
    }
  }

  /** A line inside the frame is left alone; one whose box misses the frame is rejected. */
  lemma {:induction false} ClipDecides(f: Frame, l: Line)
    requires f.w > 0 && f.h > 0
    ensures Inside(f, l.a) && Inside(f, l.b) ==> Clip(f, l) == Some(l)
    ensures (forall p :: InBox(p, l) ==> !Inside(f, p)) ==> Clip(f, l) == None
  {
    if Clip(f, l).Some? {
      ClipStays(f, l);
    }
  }

  // ----------------------------------------------------------------- drawing

  function Sign(d: int): int {
    if d < 0 then -1 else 1
  }

  predicate Flat(l: Line) {
    Abs(l.b.x - l.a.x) > Abs(l.b.y - l.a.y)
  }

  /** Length along the longer axis, and along the shorter one. */
  function Major(l: Line): nat {
    if Flat(l) then Abs(l.b.x - l.a.x) else Abs(l.b.y - l.a.y)
  }

  function Minor(l: Line): nat {
    if Flat(l) then Abs(l.b.y - l.a.y) else Abs(l.b.x - l.a.x)
  }

  /** The point `k` steps along the longer axis and `j` along the shorter one. */
  function At(l: Line, k: int, j: int): Point {
    var sx, sy := Sign(l.b.x - l.a.x), Sign(l.b.y - l.a.y);
    if Flat(l) then Point(l.a.x + sx * k, l.a.y + sy * j) else Point(l.a.x + sx * j, l.a.y + sy * k)
  }

  /** Twice the distance, times the longer length, from step `j` to the ideal line at step `k`. */
  function Deviation(l: Line, k: nat, j: nat): int {
    2 * (k * Minor(l) - j * Major(l))
  }

  /** The drawn points: at each step the nearest one to the ideal line, and of two equally near
      the farther along. */
  predicate Nearest(l: Line, k: nat, j: nat) {
    k <= Major(l) && (if Major(l) == 0 then j == 0 else 0 - Major(l) <= Deviation(l, k, j) < Major(l))
  }

  ghost predicate Drawn(l: Line, p: Point) {
    exists k: nat, j: nat :: Nearest(l, k, j) && p == At(l, k, j)
  }

  lemma NearestUnique(l: Line, k: nat, i: nat, j: nat)
    requires Nearest(l, k, i) && Nearest(l, k, j)
    ensures i == j
  {
    if i < j {
      StepsApart(Major(l), i, j);
    } else if j < i {
      StepsApart(Major(l), j, i);
    }
  }

  /** The nearest point does not go beyond the end, and is the end at the last step. */
  lemma NearestWithin(l: Line, k: nat, j: nat)
    requires Nearest(l, k, j)
    ensures j <= Minor(l) && (k == Major(l) ==> j == Minor(l)) && (k == 0 ==> j == 0)
  {
    var n, m := Major(l), Minor(l);
    if j > m {
      StepsApart(n, m, j);
      MulAtMost(k, n, m);
    }
    if k == n && j < m {
      StepsApart(n, j, m);
    }
    if k == 0 && j > 0 {
      StepsApart(n, 0, j);
    }
  }

  lemma MulAtMost(k: nat, n: nat, m: nat)
    requires k <= n
    ensures k * m <= m * n
  {
  }

  lemma InsideBetween(f: Frame, l: Line, k: nat, j: nat)
    requires Inside(f, l.a) && Inside(f, l.b) && k <= Major(l) && j <= Minor(l)
    ensures Inside(f, At(l, k, j))
  {
  }

  lemma EndsDrawn(l: Line)
    ensures Drawn(l, l.a) && Drawn(l, l.b)
  {
    var n, m := Major(l), Minor(l);
    assert Deviation(l, n, m) == 0 && Deviation(l, 0, 0) == 0;
    assert Nearest(l, 0, 0) && At(l, 0, 0) == l.a;
    assert Nearest(l, n, m) && At(l, n, m) == l.b;
  }

  /** A line between points of the frame is drawn wholly inside it, from the one to the other. */
  lemma DrawnInside(f: Frame, l: Line)
    requires Inside(f, l.a) && Inside(f, l.b)
    ensures Drawn(l, l.a) && Drawn(l, l.b)
    ensures forall p :: Drawn(l, p) ==> Inside(f, p)
  {
    EndsDrawn(l);
    forall p | Drawn(l, p) ensures Inside(f, p) {
      var k: nat, j: nat :| Nearest(l, k, j) && p == At(l, k, j);
      NearestWithin(l, k, j);
      InsideBetween(f, l, k, j);
    }
  }

  /** The drawing moves along the shorter axis when this holds; it is the sign of `d`. */
  predicate Rises(l: Line, k: nat, j: nat) {
    Decision(l, k, j) >= 0
  }

  function Decision(l: Line, k: nat, j: nat): int {
    2 * (k + 1) * Minor(l) - (2 * j + 1) * Major(l)
  }

  lemma DeviationSteps(l: Line, k: nat, j: nat)
    ensures Deviation(l, k + 1, j) == Deviation(l, k, j) + 2 * Minor(l)
    ensures Deviation(l, k, j + 1) == Deviation(l, k, j) - 2 * Major(l)
    ensures Decision(l, k, j) == Deviation(l, k, j) + 2 * Minor(l) - Major(l)
  {
    StepSums(k, Minor(l), j, Major(l));
  }

  lemma StepSums(k: nat, m: nat, j: nat, n: nat)
    ensures (k + 1) * m == k * m + m && (j + 1) * n == j * n + n
    ensures 2 * (k + 1) * m == 2 * (k * m) + 2 * m && (2 * j + 1) * n == 2 * (j * n) + n
  {
  }

  lemma NextNearest(l: Line, k: nat, j: nat)
    requires Nearest(l, k, j) && k < Major(l)
    ensures Nearest(l, k + 1, if Rises(l, k, j) then j + 1 else j)
  {
    DeviationSteps(l, k, j);
    DeviationSteps(l, k + 1, j);
  }

  predicate Neighbours(p: Point, q: Point) {
    p != q && Abs(p.x - q.x) <= 1 && Abs(p.y - q.y) <= 1
  }

  /** Step `k` of the drawing. */
  ghost predicate IsStep(l: Line, k: nat, p: Point) {
    exists j: nat :: Nearest(l, k, j) && p == At(l, k, j)
  }

  ghost predicate Steps(l: Line, ps: seq<Point>) {
    && (forall k :: 0 <= k < |ps| ==> IsStep(l, k, ps[k]))
    && (forall k :: 0 <= k < |ps| - 1 ==> Neighbours(ps[k], ps[k + 1]))
  }

  lemma {:induction false} StepsTo(l: Line, k: nat) returns (ps: seq<Point>, j: nat)
    requires k <= Major(l)
    ensures |ps| == k + 1 && Steps(l, ps) && Nearest(l, k, j) && ps[k] == At(l, k, j)
  {
    if k == 0 {
      ps, j := [l.a], 0;
      assert Nearest(l, 0, 0) && At(l, 0, 0) == l.a;
    } else {
      var before, i := StepsTo(l, k - 1);
      NextNearest(l, k - 1, i);
      j := if Rises(l, k - 1, i) then i + 1 else i;
      StepIsNeighbour(l, k - 1, i, j);
      assert IsStep(l, k, At(l, k, j));
      ps := before + [At(l, k, j)];
      Longer(l, before, At(l, k, j));
    }
  }

  lemma StepIsNeighbour(l: Line, k: nat, i: nat, j: nat)
    requires i <= j <= i + 1
    ensures Neighbours(At(l, k, i), At(l, k + 1, j))
  {
  }

  lemma Longer(l: Line, ps: seq<Point>, p: Point)
    requires Steps(l, ps) && ps != [] && IsStep(l, |ps|, p) && Neighbours(ps[|ps| - 1], p)
    ensures Steps(l, ps + [p])
  {
  }

  /** The line is drawn as `Major + 1` different points, a path of neighbours from the one end to
      the other. */
  lemma DrawnPath(l: Line) returns (ps: seq<Point>)
    ensures |ps| == Major(l) + 1 && ps[0] == l.a && ps[Major(l)] == l.b
    ensures forall p :: Drawn(l, p) <==> p in ps
    ensures forall i, k :: 0 <= i < k < |ps| ==> ps[i] != ps[k]
    ensures forall k :: 0 <= k < |ps| - 1 ==> Neighbours(ps[k], ps[k + 1])
  {
    var j;
    ps, j := StepsTo(l, Major(l));
    NearestWithin(l, Major(l), j);
    assert IsStep(l, 0, ps[0]);
    var j0: nat :| Nearest(l, 0, j0) && ps[0] == At(l, 0, j0);
    NearestWithin(l, 0, j0);
    forall i, k | 0 <= i < k < |ps| ensures ps[i] != ps[k] {
      assert IsStep(l, i, ps[i]) && IsStep(l, k, ps[k]);
    }
    forall p ensures Drawn(l, p) <==> p in ps {
      DrawnIsStep(l, ps, p);
    }
  }

  lemma DrawnIsStep(l: Line, ps: seq<Point>, p: Point)
    requires |ps| == Major(l) + 1 && Steps(l, ps)
    ensures Drawn(l, p) <==> p in ps
  {
    if Drawn(l, p) {
      var k: nat, j: nat :| Nearest(l, k, j) && p == At(l, k, j);
      assert IsStep(l, k, ps[k]);
      var i: nat :| Nearest(l, k, i) && ps[k] == At(l, k, i);
      NearestUnique(l, k, i, j);
    }
    if p in ps {
      var k :| 0 <= k < |ps| && ps[k] == p;
      assert IsStep(l, k, ps[k]);
    }
  }
}
