/** The two point-in-polygon tests of the 3D map and the box that prefilters one of them.

    Both tests cast a ray from the query point towards larger x and count the edges it meets.
    They disagree about heights that pass exactly through a vertex: `pnpoly` counts an edge for
    lowest <= y < highest, `isRayCrossSeg` for lowest < y <= highest. */
module Polygon {
  import opened Reals

  datatype Point = Point(x: real, y: real)

  // ---------- Geometry, independent of either test ----------

  /** The point a fraction t of the way from a to b. */
  function At(a: Point, b: Point, t: real): Point {
    Point(a.x + t * (b.x - a.x), a.y + t * (b.y - a.y))
  }

  /** p lies on the closed segment from a to b. */
  ghost predicate OnSegment(p: Point, a: Point, b: Point) {
    exists t: real :: 0.0 <= t <= 1.0 && p == At(a, b, t)
  }

  /** The segment meets the horizontal ray from p strictly to the right of p. */
  ghost predicate HitsRight(a: Point, b: Point, p: Point) {
    exists t: real :: 0.0 <= t <= 1.0 && At(a, b, t).y == p.y && p.x < At(a, b, t).x
  }

  /** The segment meets the horizontal ray from p at p itself or to its right. */
  ghost predicate HitsFrom(a: Point, b: Point, p: Point) {
    exists t: real :: 0.0 <= t <= 1.0 && At(a, b, t).y == p.y && p.x <= At(a, b, t).x
  }

  /** Vertex v lies on the open ray from p towards larger x. */
  predicate OnRay(v: Point, p: Point) { v.y == p.y && p.x < v.x }

  /** The endpoint the two tests agree to leave out: the lower one, or the right one of a level edge. */
  function LowEnd(a: Point, b: Point): Point {
    if a.y < b.y || (a.y == b.y && a.x >= b.x) then a else b
  }

  /** p lies on the edge, its LowEnd excepted: exactly here the strict and the lax comparison part. */
  ghost predicate Blurs(a: Point, b: Point, p: Point) {
    OnSegment(p, a, b) && p != LowEnd(a, b)
  }

  // ---------- The two edge tests, as the source computes them ----------

  /** Abscissa where the line through a and b reaches height y, as `pnpoly` writes it. */
  function CrossX(a: Point, b: Point, y: real): real
    requires a.y != b.y
  {
    (b.x - a.x) * (y - a.y) / (b.y - a.y) + a.x
  }

  /** The condition under which `pnpoly` flips its answer at the edge from b to a. */
  predicate Toggles(a: Point, b: Point, p: Point) {
    (a.y > p.y) != (b.y > p.y) && p.x < CrossX(a, b, p.y)
  }

  /** The same abscissa as `isRayCrossSeg` writes it. */
  function RayX(s: Point, e: Point, y: real): real
    requires s.y != e.y
  {
    e.x - (e.x - s.x) * (e.y - y) / (e.y - s.y)
  }

  /** `isRayCrossSeg`, early returns in source order. */
  predicate RayCrosses(p: Point, s: Point, e: Point) {
    if s.y == e.y then false
    else if s.y > p.y && e.y > p.y then false
    else if s.y < p.y && e.y < p.y then false
    else if s.y == p.y && e.y > p.y then false
    else if e.y == p.y && s.y > p.y then false
    else if s.x < p.x && e.x < p.x then false
    else !(RayX(s, e, p.y) < p.x)
  }

  // ---------- Where an edge reaches a height ----------

  /** The fraction of the edge at which it reaches height y. */
  function Fraction(a: Point, b: Point, y: real): real
    requires a.y != b.y
  {
    (y - a.y) / (b.y - a.y)
  }

  lemma FractionRange(a: Point, b: Point, y: real)
    requires a.y != b.y
    requires Min(a.y, b.y) <= y <= Max(a.y, b.y)
    ensures 0.0 <= Fraction(a, b, y) <= 1.0
  {
    var d, f := b.y - a.y, Fraction(a, b, y);
    Quotient(y - a.y, d, f);
    if d > 0.0 {
      FractionOf(f, d, y - a.y);
    } else {
      assert f * (a.y - b.y) == -(f * d);
      FractionOf(f, a.y - b.y, a.y - y);
    }
  }

  /** CrossX is the abscissa of the one point of the edge's line at height y. */
  lemma CrossXAt(a: Point, b: Point, y: real, t: real)
    requires a.y != b.y
    ensures At(a, b, t).y == y <==> t == Fraction(a, b, y)
    ensures At(a, b, Fraction(a, b, y)) == Point(CrossX(a, b, y), y)
  {
    Quotient(y - a.y, b.y - a.y, t);
    Quotient(y - a.y, b.y - a.y, Fraction(a, b, y));
    ScaledQuotient(b.x - a.x, y - a.y, b.y - a.y);
  }

  /** The two formulas for the crossing abscissa agree, whichever endpoint comes first. */
  lemma CrossXSymmetric(a: Point, b: Point, y: real)
    requires a.y != b.y
    ensures RayX(b, a, y) == CrossX(a, b, y)
  {
    var q := (b.x - a.x) * (y - a.y) / (b.y - a.y);
    Quotient((b.x - a.x) * (y - a.y), b.y - a.y, q);
    assert (-q) * (a.y - b.y) == (b.x - a.x) * (y - a.y);
    assert (a.x - b.x) * (a.y - y) == (b.x - a.x) * (y - a.y);
    Quotient((a.x - b.x) * (a.y - y), a.y - b.y, -q);
  }

  /** Within the edge's heights the crossing stays between the edge's endpoints. */
  lemma CrossXBetween(a: Point, b: Point, y: real)
    requires a.y != b.y
    requires Min(a.y, b.y) <= y <= Max(a.y, b.y)
    ensures Min(a.x, b.x) <= CrossX(a, b, y) <= Max(a.x, b.x)
  {
    FractionRange(a, b, y);
    CrossXAt(a, b, y, 0.0);
    Between(a.x, b.x, Fraction(a, b, y));
  }

  lemma Between(u: real, v: real, f: real)
    requires 0.0 <= f <= 1.0
    ensures Min(u, v) <= u + f * (v - u) <= Max(u, v)
  {
    var d := if u <= v then v - u else u - v;
    Product(f, d);
    Product(1.0 - f, d);
    assert (1.0 - f) * d == d - f * d;
    assert u > v ==> f * (v - u) == -(f * d);
  }

  /** Both tests on a slanted edge, with the crossing abscissa as the only arithmetic. */
  lemma SlantedTests(a: Point, b: Point, p: Point)
    requires a.y != b.y
    ensures Toggles(a, b, p) <==> Min(a.y, b.y) <= p.y < Max(a.y, b.y) && p.x < CrossX(a, b, p.y)
    ensures RayCrosses(p, b, a) <==> Min(a.y, b.y) < p.y <= Max(a.y, b.y) && p.x <= CrossX(a, b, p.y)
  {
    hide CrossX, RayX;
    CrossXSymmetric(a, b, p.y);
    if Min(a.y, b.y) <= p.y <= Max(a.y, b.y) {
      CrossXBetween(a, b, p.y);
    }
  }

  lemma AtBetween(a: Point, b: Point, t: real)
    requires 0.0 <= t <= 1.0
    ensures Min(a.x, b.x) <= At(a, b, t).x <= Max(a.x, b.x)
    ensures Min(a.y, b.y) <= At(a, b, t).y <= Max(a.y, b.y)
  {
    Between(a.x, b.x, t);
    Between(a.y, b.y, t);
  }

  // ---------- What each edge test means ----------

  /** `pnpoly` flips exactly when the edge covers the height under the rule lowest <= y < highest
      and meets the ray strictly to the right of p. */
  lemma TogglesMeans(a: Point, b: Point, p: Point)
    ensures Toggles(a, b, p) <==> Min(a.y, b.y) <= p.y < Max(a.y, b.y) && HitsRight(a, b, p)
  {
    hide CrossX, Fraction, At;
    if a.y != b.y {
      hide Toggles;
      SlantedTests(a, b, p);
      if Min(a.y, b.y) <= p.y < Max(a.y, b.y) {
        FractionRange(a, b, p.y);
        CrossXAt(a, b, p.y, Fraction(a, b, p.y));
        if HitsRight(a, b, p) {
          var t: real :| 0.0 <= t <= 1.0 && At(a, b, t).y == p.y && p.x < At(a, b, t).x;
          CrossXAt(a, b, p.y, t);
        }
      }
    }
  }

  /** `isRayCrossSeg` holds exactly when the edge covers the height under the rule
      lowest < y <= highest and meets the ray at p or to its right. */
  lemma RayCrossesMeans(p: Point, s: Point, e: Point)
    ensures RayCrosses(p, s, e) <==> Min(s.y, e.y) < p.y <= Max(s.y, e.y) && HitsFrom(e, s, p)
  {
    hide CrossX, Fraction, At;
    if e.y != s.y {
      hide RayCrosses;
      SlantedTests(e, s, p);
      if Min(s.y, e.y) < p.y <= Max(s.y, e.y) {
        FractionRange(e, s, p.y);
        CrossXAt(e, s, p.y, Fraction(e, s, p.y));
        if HitsFrom(e, s, p) {
          var t: real :| 0.0 <= t <= 1.0 && At(e, s, t).y == p.y && p.x <= At(e, s, t).x;
          CrossXAt(e, s, p.y, t);
        }
      }
    }
  }

  /** On a slanted edge, p is on the segment exactly when p is the crossing at its own height. */
  lemma OnSlantedSegment(p: Point, a: Point, b: Point)
    requires a.y != b.y
    ensures OnSegment(p, a, b) <==> Min(a.y, b.y) <= p.y <= Max(a.y, b.y) && p.x == CrossX(a, b, p.y)
  {
    hide CrossX, Fraction, At;
    CrossXAt(a, b, p.y, Fraction(a, b, p.y));
    if Min(a.y, b.y) <= p.y <= Max(a.y, b.y) {
      FractionRange(a, b, p.y);
    }
    if OnSegment(p, a, b) {
      var t: real :| 0.0 <= t <= 1.0 && p == At(a, b, t);
      CrossXAt(a, b, p.y, t);
      AtBetween(a, b, t);
    }
  }

  /** On a level edge, p is on the segment exactly when it is at that height between the ends. */
  lemma OnLevelSegment(p: Point, a: Point, b: Point)
    requires a.y == b.y
    ensures OnSegment(p, a, b) <==> p.y == a.y && Min(a.x, b.x) <= p.x <= Max(a.x, b.x)
  {
    if OnSegment(p, a, b) {
      var t: real :| 0.0 <= t <= 1.0 && p == At(a, b, t);
      AtBetween(a, b, t);
    }
    if p.y == a.y && Min(a.x, b.x) <= p.x <= Max(a.x, b.x) {
      if a.x == b.x {
        assert At(a, b, 0.0) == p;
      } else {
        LevelPoint(p, a, b);
      }
    }
  }

  lemma LevelPoint(p: Point, a: Point, b: Point)
    requires a.y == b.y == p.y && a.x != b.x
    requires Min(a.x, b.x) <= p.x <= Max(a.x, b.x)
    ensures OnSegment(p, a, b)
  {
    var u, v := Point(0.0, a.x), Point(0.0, b.x);
    FractionRange(u, v, p.x);
    CrossXAt(u, v, p.x, 0.0);
    assert At(a, b, Fraction(u, v, p.x)) == p;
  }

  /** Per edge, the two tests differ by the ray flags of the two endpoints and by whether p blurs the edge. */
  lemma EdgeParity(a: Point, b: Point, p: Point)
    ensures (Toggles(a, b, p) != RayCrosses(p, b, a)) == ((OnRay(a, p) != OnRay(b, p)) != Blurs(a, b, p))
  {
    if a.y == b.y {
      OnLevelSegment(p, a, b);
    } else {
      SlantedParity(a, b, p);
    }
  }

  lemma SlantedParity(a: Point, b: Point, p: Point)
    requires a.y != b.y
    ensures (Toggles(a, b, p) != RayCrosses(p, b, a)) == ((OnRay(a, p) != OnRay(b, p)) != Blurs(a, b, p))
  {
    var x := CrossX(a, b, p.y);
    OnSlantedSegment(p, a, b);
    SlantedTests(a, b, p);
    CrossXAtEnds(a, b);
  }

  lemma CrossXAtEnds(a: Point, b: Point)
    requires a.y != b.y
    ensures CrossX(a, b, a.y) == a.x && CrossX(a, b, b.y) == b.x
  {
    CrossXAt(a, b, a.y, 0.0);
    Quotient(b.y - a.y, b.y - a.y, 1.0);
    CrossXAt(a, b, b.y, 1.0);
  }

  // ---------- Round the closed cycle ----------

  /** The vertex before vertex i on the closed cycle: what the source keeps in j. */
  function Prev(poly: seq<Point>, i: nat): Point
    requires i < |poly|
  {
    if i == 0 then poly[|poly| - 1] else poly[i - 1]
  }

  /** An odd number of the flags is set. */
  predicate Odd(flags: seq<bool>) {
    |flags| > 0 && (Odd(flags[..|flags| - 1]) != flags[|flags| - 1])
  }

  /** Per edge: does it flip `pnpoly`? */
  function ToggleFlags(poly: seq<Point>, p: Point): seq<bool> {
    seq(|poly|, i requires 0 <= i < |poly| => Toggles(poly[i], Prev(poly, i), p))
  }

  /** Per edge: does it satisfy `isRayCrossSeg`? */
  function CrossFlags(poly: seq<Point>, p: Point): seq<bool> {
    seq(|poly|, i requires 0 <= i < |poly| => RayCrosses(p, Prev(poly, i), poly[i]))
  }

  /** Per edge: does p blur it? */
  ghost function BlurFlags(poly: seq<Point>, p: Point): seq<bool> {
    seq(|poly|, i requires 0 <= i < |poly| => Blurs(poly[i], Prev(poly, i), p))
  }

  predicate InsideLow(poly: seq<Point>, p: Point) { Odd(ToggleFlags(poly, p)) }

  predicate InsideHigh(poly: seq<Point>, p: Point) { Odd(CrossFlags(poly, p)) }

  lemma OddStep(flags: seq<bool>, k: nat)
    requires k < |flags|
    ensures Odd(flags[..k + 1]) == (Odd(flags[..k]) != flags[k])
  {
    assert flags[..k + 1][..k] == flags[..k];
  }

  /** `pnpoly`. */
  method PnPoly(poly: seq<Point>, p: Point) returns (c: bool)
    ensures c <==> InsideLow(poly, p)
  {
    hide Toggles;
    c := false;
    var i, j := 0, |poly| - 1;
    while i < |poly|
      invariant 0 <= i <= |poly|
      invariant i < |poly| ==> 0 <= j < |poly| && poly[j] == Prev(poly, i)
      invariant c <==> Odd(ToggleFlags(poly, p)[..i])
    {
      OddStep(ToggleFlags(poly, p), i);
      if Toggles(poly[i], poly[j], p) {
        c := !c;
      }
      j, i := i, i + 1;
    }
    assert ToggleFlags(poly, p)[..i] == ToggleFlags(poly, p);
  }

  /** `isInPolygon`. */
  method IsInPolygon(p: Point, poly: seq<Point>) returns (inside: bool)
    ensures inside <==> InsideHigh(poly, p)
  {
    hide RayCrosses;
    var crossPointNum := 0;
    var j := |poly| - 1;
    for k := 0 to |poly|
      invariant k < |poly| ==> 0 <= j < |poly| && poly[j] == Prev(poly, k)
      invariant crossPointNum % 2 == 1 <==> Odd(CrossFlags(poly, p)[..k])
    {
      OddStep(CrossFlags(poly, p), k);
      if RayCrosses(p, poly[j], poly[k]) {
        crossPointNum := crossPointNum + 1;
      }
      j := k;
    }
    assert CrossFlags(poly, p)[..|poly|] == CrossFlags(poly, p);
    inside := crossPointNum % 2 == 1;
  }

  /** Flags that change from one vertex to the next cancel round a closed cycle: after k edges only
      the last vertex of the cycle and the last vertex seen are left. */
  lemma {:induction false} Telescopes(t: seq<bool>, c: seq<bool>, b: seq<bool>, v: seq<bool>, k: nat)
    requires |t| == |c| == |b| == |v| && 1 <= k <= |v|
    requires forall i :: 0 <= i < |v| ==> (t[i] != c[i]) == ((v[i] != v[if i == 0 then |v| - 1 else i - 1]) != b[i])
    ensures (Odd(t[..k]) != Odd(c[..k])) == ((v[k - 1] != v[|v| - 1]) != Odd(b[..k]))
  {
    OddStep(t, k - 1);
    OddStep(c, k - 1);
    OddStep(b, k - 1);
    if k == 1 {
      assert !Odd(t[..0]) && !Odd(c[..0]) && !Odd(b[..0]);
    } else {
      Telescopes(t, c, b, v, k - 1);
    }
  }

  /** Main result: for every vertex list and every point, the two tests agree exactly when the
      point blurs an even number of edges. */
  lemma Agreement(poly: seq<Point>, p: Point)
    ensures InsideLow(poly, p) == InsideHigh(poly, p) <==> !Odd(BlurFlags(poly, p))
  {
    var n := |poly|;
    var t, c, b := ToggleFlags(poly, p), CrossFlags(poly, p), BlurFlags(poly, p);
    var v := seq(n, i requires 0 <= i < n => OnRay(poly[i], p));
    if n > 0 {
      forall i | 0 <= i < n
        ensures (t[i] != c[i]) == ((v[i] != v[if i == 0 then n - 1 else i - 1]) != b[i])
      {
        EdgeParity(poly[i], Prev(poly, i), p);
      }
      Telescopes(t, c, b, v, n);
      assert t[..n] == t && c[..n] == c && b[..n] == b;
    }
  }

  lemma {:induction false} NoneSet(flags: seq<bool>)
    requires forall i :: 0 <= i < |flags| ==> !flags[i]
    ensures !Odd(flags)
  {
    if |flags| > 0 {
      NoneSet(flags[..|flags| - 1]);
    }
  }

  /** Away from the boundary the opposite half-open rules give one answer. */
  lemma AgreementOffBoundary(poly: seq<Point>, p: Point)
    requires forall i :: 0 <= i < |poly| ==> !OnSegment(p, poly[i], Prev(poly, i))
    ensures InsideLow(poly, p) == InsideHigh(poly, p)
  {
    NoneSet(BlurFlags(poly, p));
    Agreement(poly, p);
  }

  lemma UprightEdge(a: Point, b: Point, p: Point)
    requires a.x == b.x && a.y != b.y
    ensures Toggles(a, b, p) <==> Min(a.y, b.y) <= p.y < Max(a.y, b.y) && p.x < a.x
    ensures RayCrosses(p, b, a) <==> Min(a.y, b.y) < p.y <= Max(a.y, b.y) && p.x <= a.x
  {
    hide CrossX;
    SlantedTests(a, b, p);
    if Min(a.y, b.y) <= p.y <= Max(a.y, b.y) {
      CrossXBetween(a, b, p.y);
    }
  }

  /** On the boundary they can differ: the middle of a square's right side. */
  lemma BoundaryDisagreement()
    ensures var square := [Point(0.0, 0.0), Point(4.0, 0.0), Point(4.0, 4.0), Point(0.0, 4.0)];
            InsideHigh(square, Point(4.0, 2.0)) && !InsideLow(square, Point(4.0, 2.0))
  {
    var square := [Point(0.0, 0.0), Point(4.0, 0.0), Point(4.0, 4.0), Point(0.0, 4.0)];
    var p := Point(4.0, 2.0);
    assert !Toggles(square[1], square[0], p) && !Toggles(square[3], square[2], p);
    assert !RayCrosses(p, square[0], square[1]) && !RayCrosses(p, square[2], square[3]);
    hide Toggles, RayCrosses;
    UprightEdge(square[0], square[3], p);
    UprightEdge(square[2], square[1], p);
    NoneSet(ToggleFlags(square, p));
    var c := CrossFlags(square, p);
    assert c == [false, false, true, false];
    NoneSet(c[..2]);
    OddStep(c, 2);
    OddStep(c, 3);
    assert c[..4] == c;
  }

  // ---------- The bounding box ----------

  datatype Box = Box(minX: real, minY: real, maxX: real, maxY: real)

  /** The negation of the prefilter's early return. */
  predicate InBox(b: Box, p: Point) {
    !(p.x < b.minX || p.x > b.maxX || p.y < b.minY || p.y > b.maxY)
  }

  predicate Bounds(b: Box, poly: seq<Point>) {
    forall i :: 0 <= i < |poly| ==> InBox(b, poly[i])
  }

  predicate Straddles(a: Point, b: Point, y: real) { (a.y > y) != (b.y > y) }

  function StraddleFlags(poly: seq<Point>, y: real): seq<bool> {
    seq(|poly|, i requires 0 <= i < |poly| => Straddles(poly[i], Prev(poly, i), y))
  }

  /** A closed cycle passes any height an even number of times. */
  lemma StraddledEven(poly: seq<Point>, y: real)
    ensures !Odd(StraddleFlags(poly, y))
  {
    var n := |poly|;
    if n > 0 {
      var none := seq(n, _ => false);
      var v := seq(n, i requires 0 <= i < n => poly[i].y > y);
      Telescopes(StraddleFlags(poly, y), none, none, v, n);
      NoneSet(none[..n]);
      assert StraddleFlags(poly, y)[..n] == StraddleFlags(poly, y);
    }
  }

  /** Left of the box every straddling edge flips the answer; on the other three sides none does. */
  lemma EdgeOutside(u: Point, v: Point, b: Box, p: Point)
    requires InBox(b, u) && InBox(b, v) && !InBox(b, p)
    ensures Toggles(u, v, p) <==> p.x < b.minX && Straddles(u, v, p.y)
  {
    if Straddles(u, v, p.y) {
      CrossXBetween(u, v, p.y);
    }
  }

  /** Main result: outside any box that holds the vertices `pnpoly` says no, so the prefilter is lossless. */
  lemma OutsideBox(poly: seq<Point>, b: Box, p: Point)
    requires Bounds(b, poly)
    requires !InBox(b, p)
    ensures !InsideLow(poly, p)
  {
    forall i | 0 <= i < |poly|
      ensures ToggleFlags(poly, p)[i] <==> p.x < b.minX && StraddleFlags(poly, p.y)[i]
    {
      EdgeOutside(poly[i], Prev(poly, i), b, p);
    }
    if p.x < b.minX {
      assert ToggleFlags(poly, p) == StraddleFlags(poly, p.y);
      StraddledEven(poly, p.y);
    } else {
      NoneSet(ToggleFlags(poly, p));
    }
  }
}
