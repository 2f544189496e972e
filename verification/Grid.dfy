/** Truncation to a cell index, the clamped window of cells around a square, and the strip swept by
    squares along a line. Pure geometry: no map contents. */
module Grid {
  import opened Polygon
  import opened Reals

  /** C's conversion from double to int: towards zero. */
  function Trunc(r: real): int {
    if r >= 0.0 then r.Floor else -((-r).Floor)
  }

  /** Towards zero: the nearest integer that is no further from zero. */
  lemma TruncMeans(r: real)
    ensures r >= 0.0 ==> Trunc(r) as real <= r < Trunc(r) as real + 1.0
    ensures r <= 0.0 ==> Trunc(r) as real - 1.0 < r <= Trunc(r) as real
  {
  }

  lemma TruncMonotone(a: real, b: real)
    requires a <= b
    ensures Trunc(a) <= Trunc(b)
  {
  }

  /** Origin, cell size and cell counts of the block map. */
  datatype Grid = Grid(minX: real, minY: real, sizeX: real, sizeY: real, nx: nat, ny: nat)

  ghost predicate ValidGrid(g: Grid) { g.sizeX > 0.0 && g.sizeY > 0.0 }

  function CellOf(v: real, min: real, size: real): int
    requires size > 0.0
  {
    Trunc((v - min) / size)
  }

  lemma CellMonotone(u: real, v: real, min: real, size: real)
    requires size > 0.0 && u <= v
    ensures CellOf(u, min, size) <= CellOf(v, min, size)
  {
    QuotientMonotone(u - min, v - min, size);
    TruncMonotone((u - min) / size, (v - min) / size);
  }

  /** Coordinate v lies within n cells starting at min. */
  predicate Within(v: real, min: real, size: real, n: nat) {
    min <= v < min + size * n as real
  }

  lemma WithinCell(v: real, min: real, size: real, n: nat)
    requires size > 0.0
    ensures Within(v, min, size, n) ==> 0 <= CellOf(v, min, size) < n
    ensures Within(v, min, size, n) ==>
      var k := CellOf(v, min, size) as real; min + k * size <= v < min + (k + 1.0) * size
  {
    if Within(v, min, size, n) {
      var q, w := (v - min) / size, v - min;
      Quotient(w, size, q);
      assert (-q) * size == -w;
      ScaleDown(-q, size);
      assert (q - n as real) * size == w - size * n as real;
      ScaleDown(q - n as real, size);
      CellEnds(q, size, w, Trunc(q));
    }
  }

  lemma CellEnds(q: real, size: real, w: real, k: int)
    requires size > 0.0 && q * size == w && k as real <= q < k as real + 1.0
    ensures k as real * size <= w < (k as real + 1.0) * size
  {
    var lo, hi := q - k as real, k as real + 1.0 - q;
    Product(lo, size);
    assert lo * size == w - k as real * size;
    ScaleDown(-hi, size);
    assert hi * size > 0.0;
    assert hi * size == (k as real + 1.0) * size - w;
  }

  /** Cell indices, both ends included. */
  datatype Window = Window(x0: int, y0: int, x1: int, y1: int)

  function RawWindow(g: Grid, x: real, y: real, d: real): Window
    requires ValidGrid(g)
  {
    Window(CellOf(x - d, g.minX, g.sizeX), CellOf(y - d, g.minY, g.sizeY),
           CellOf(x + d, g.minX, g.sizeX), CellOf(y + d, g.minY, g.sizeY))
  }

  /** The window misses the grid: the source's error return. */
  predicate OffGrid(g: Grid, w: Window) {
    w.x0 >= g.nx || w.x1 < 0 || w.y0 >= g.ny || w.y1 < 0
  }

  function Clamp(g: Grid, w: Window): Window {
    Window(if w.x0 < 0 then 0 else w.x0,
           if w.y0 < 0 then 0 else w.y0,
           if w.x1 > g.nx - 1 then g.nx - 1 else w.x1,
           if w.y1 > g.ny - 1 then g.ny - 1 else w.y1)
  }

  predicate InWindow(w: Window, xi: int, yi: int) {
    w.x0 <= xi <= w.x1 && w.y0 <= yi <= w.y1
  }

  predicate InGrid(g: Grid, q: Point) {
    Within(q.x, g.minX, g.sizeX, g.nx) && Within(q.y, g.minY, g.sizeY, g.ny)
  }

  /** q lies in the axis-parallel square of half side d round (x, y). */
  predicate InSquare(q: Point, x: real, y: real, d: real) {
    x - d <= q.x <= x + d && y - d <= q.y <= y + d
  }

  /** Main result on truncation and clamping: the cell of every in-grid point of the square is in
      the clamped window, and a window that misses the grid belongs to a square that misses it. */
  lemma SquareInWindow(g: Grid, x: real, y: real, d: real, q: Point)
    requires ValidGrid(g) && InGrid(g, q) && InSquare(q, x, y, d)
    ensures !OffGrid(g, RawWindow(g, x, y, d))
    ensures InWindow(Clamp(g, RawWindow(g, x, y, d)),
                     CellOf(q.x, g.minX, g.sizeX), CellOf(q.y, g.minY, g.sizeY))
    ensures 0 <= CellOf(q.x, g.minX, g.sizeX) < g.nx && 0 <= CellOf(q.y, g.minY, g.sizeY) < g.ny
  {
    hide CellOf;
    WithinCell(q.x, g.minX, g.sizeX, g.nx);
    WithinCell(q.y, g.minY, g.sizeY, g.ny);
    CellMonotone(x - d, q.x, g.minX, g.sizeX);
    CellMonotone(q.x, x + d, g.minX, g.sizeX);
    CellMonotone(y - d, q.y, g.minY, g.sizeY);
    CellMonotone(q.y, y + d, g.minY, g.sizeY);
  }

  /** A window that is not rejected asks about at least one cell, and only about cells of the grid. */
  lemma WindowNonEmpty(g: Grid, x: real, y: real, d: real)
    requires ValidGrid(g) && d >= 0.0 && g.nx > 0 && g.ny > 0
    requires !OffGrid(g, RawWindow(g, x, y, d))
    ensures var w := Clamp(g, RawWindow(g, x, y, d)); 0 <= w.x0 <= w.x1 < g.nx && 0 <= w.y0 <= w.y1 < g.ny
  {
    hide CellOf;
    CellMonotone(x - d, x + d, g.minX, g.sizeX);
    CellMonotone(y - d, y + d, g.minY, g.sizeY);
  }

  /** A smaller square asks about no further cells. */
  lemma SmallerWindow(g: Grid, x: real, y: real, d: real, d': real, xi: int, yi: int)
    requires ValidGrid(g) && d' <= d
    requires InWindow(Clamp(g, RawWindow(g, x, y, d')), xi, yi)
    ensures InWindow(Clamp(g, RawWindow(g, x, y, d)), xi, yi)
  {
    hide CellOf;
    CellMonotone(x - d, x - d', g.minX, g.sizeX);
    CellMonotone(x + d', x + d, g.minX, g.sizeX);
    CellMonotone(y - d, y - d', g.minY, g.sizeY);
    CellMonotone(y + d', y + d, g.minY, g.sizeY);
  }

  // ---------- What the window asks about ----------

  /** Cell k of an axis meets the interval from v - d to v + d. The first cell reaches one cell further out,
      since truncation towards zero brings what lies there into it. */
  predicate MeetsAxis(v: real, d: real, min: real, size: real, k: nat) {
    && v - d < min + (k as real + 1.0) * size
    && (if k == 0 then min - size < v + d else min + k as real * size <= v + d)
  }

  /** Block [yi][xi] meets the square of half side d round (x, y). */
  predicate Meets(g: Grid, x: real, y: real, d: real, xi: nat, yi: nat) {
    MeetsAxis(x, d, g.minX, g.sizeX, xi) && MeetsAxis(y, d, g.minY, g.sizeY, yi)
  }

  lemma QuotientBelow(w: real, size: real, a: real)
    requires size > 0.0
    ensures w / size < a <==> w < a * size
  {
    var q := w / size;
    Quotient(w, size, q);
    assert (q - a) * size == w - a * size;
    ScaleDown(q - a, size);
    assert (a - q) * size == a * size - w;
    ScaleDown(a - q, size);
  }

  lemma CellUpTo(v: real, min: real, size: real, k: nat)
    requires size > 0.0
    ensures CellOf(v, min, size) <= k <==> v < min + (k as real + 1.0) * size
    ensures CellOf(v, min, size) >= k <==> if k == 0 then min - size < v else min + k as real * size <= v
  {
    var q := (v - min) / size;
    TruncBounds(q, k);
    QuotientBelow(v - min, size, k as real + 1.0);
    QuotientBelow(v - min, size, k as real);
    assert -q < 1.0 <==> min - size < v by {
      QuotientBelow(min - v, size, 1.0);
      Quotient(v - min, size, q);
      Quotient(min - v, size, -q);
    }
    hide Trunc;
  }

  lemma AxisWindow(v: real, d: real, min: real, size: real, k: nat)
    requires size > 0.0
    ensures CellOf(v - d, min, size) <= k <= CellOf(v + d, min, size) <==> MeetsAxis(v, d, min, size, k)
  {
    hide CellOf;
    CellUpTo(v - d, min, size, k);
    CellUpTo(v + d, min, size, k);
  }

  lemma TruncBounds(q: real, k: nat)
    ensures Trunc(q) <= k <==> q < k as real + 1.0
    ensures Trunc(q) >= k <==> if k == 0 then -q < 1.0 else k as real <= q
  {
  }

  /** The window asks about exactly the blocks of the grid that meet the square. */
  lemma WindowIsMeeting(g: Grid, x: real, y: real, d: real, xi: nat, yi: nat)
    requires ValidGrid(g) && xi < g.nx && yi < g.ny
    ensures InWindow(Clamp(g, RawWindow(g, x, y, d)), xi, yi) <==> Meets(g, x, y, d, xi, yi)
  {
    hide CellOf, MeetsAxis;
    AxisWindow(x, d, g.minX, g.sizeX, xi);
    AxisWindow(y, d, g.minY, g.sizeY, yi);
  }

  /** The window is rejected exactly when no block of the grid meets the square. */
  lemma OffGridIff(g: Grid, x: real, y: real, d: real)
    requires ValidGrid(g) && d >= 0.0 && g.nx > 0 && g.ny > 0
    ensures OffGrid(g, RawWindow(g, x, y, d)) <==>
              forall xi: nat, yi: nat :: xi < g.nx && yi < g.ny ==> !Meets(g, x, y, d, xi, yi)
  {
    var w := Clamp(g, RawWindow(g, x, y, d));
    forall xi: nat, yi: nat | xi < g.nx && yi < g.ny
      ensures InWindow(w, xi, yi) <==> Meets(g, x, y, d, xi, yi)
    {
      WindowIsMeeting(g, x, y, d, xi, yi);
    }
    hide Meets, CellOf;
    if !OffGrid(g, RawWindow(g, x, y, d)) {
      WindowNonEmpty(g, x, y, d);
      assert InWindow(w, w.x0, w.y0);
    }
  }

  // ---------- The swept strip ----------

  /** Start point and direction (cosine, sine) of a line. */
  datatype Ray = Ray(x: real, y: real, c: real, s: real)

  ghost predicate UnitRay(r: Ray) { r.c * r.c + r.s * r.s == 1.0 }

  function Advance(x: real, t: real, c: real): real { x + t * c }

  function Along(r: Ray, t: real): Point {
    Point(Advance(r.x, t, r.c), Advance(r.y, t, r.s))
  }

  /** q is the point at distance t from the start: t times the cosine further in x, t times the sine in y. */
  predicate OnLine(r: Ray, t: real, q: Point) {
    q.x == r.x + t * r.c && q.y == r.y + t * r.s
  }

  lemma OnLineIs(r: Ray, t: real, q: Point)
    ensures OnLine(r, t, q) <==> q == Along(r, t)
  {
  }

  /** q is within m of the ray's point at distance t, in either coordinate. */
  predicate Near(r: Ray, t: real, m: real, q: Point) {
    InSquare(q, Along(r, t).x, Along(r, t).y, m)
  }

  lemma CosineBound(c: real, s: real)
    requires c * c + s * s == 1.0
    ensures -1.0 <= c <= 1.0
  {
    assert s * s >= 0.0;
    SquareBound(c);
  }

  lemma SquareBound(c: real)
    requires c * c <= 1.0
    ensures -1.0 <= c <= 1.0
  {
  }

  lemma Shift(x: real, c: real, t: real, l: real)
    requires -1.0 <= c <= 1.0
    ensures var w := if t <= l then l - t else t - l;
            Advance(x, l, c) - w <= Advance(x, t, c) <= Advance(x, l, c) + w
  {
    var w := if t <= l then l - t else t - l;
    Product(w, 1.0 - c);
    Product(w, 1.0 + c);
    assert t * c - l * c == (t - l) * c;
  }

  /** A square round the sample at l covers what is near the line at t, if the slack allows. */
  lemma SampleCovers(r: Ray, t: real, m: real, l: real, d: real, q: Point)
    requires UnitRay(r) && Near(r, t, m, q)
    requires (if t <= l then l - t else t - l) + m <= d
    ensures Near(r, l, d, q)
  {
    CosineBound(r.c, r.s);
    CosineBound(r.s, r.c);
    hide UnitRay, Advance;
    Shift(r.x, r.c, t, l);
    Shift(r.y, r.s, t, l);
  }

  /** Half the clearance kept beside the line at t when the strip has been swept up to `end`. */
  function Margin(t: real, end: real, d: real): real {
    Min(Min(t, d / 2.0), end - t)
  }

  /** q is within that margin of the line at t. */
  predicate InStrip(r: Ray, t: real, end: real, d: real, q: Point) {
    Near(r, t, Margin(t, end, d), q)
  }

  /** k detection distances. */
  function Nth(k: nat, d: real): real { k as real * d }

  lemma NthStep(k: nat, d: real)
    ensures Nth(0, d) == 0.0 && Nth(1, d) == d && Nth(k + 1, d) == Nth(k, d) + d
  {
  }

  lemma NthOfZero(k: nat)
    ensures Nth(k, 0.0) == 0.0
  {
  }

  lemma NthAscends(k: nat, n: nat, d: real)
    requires d > 0.0 && Nth(k, d) < Nth(n, d)
    ensures k < n
  {
    ScaleDown(k as real - n as real, d);
    assert (k as real - n as real) * d == Nth(k, d) - Nth(n, d);
  }

  /** Some number of detection distances exceeds any length. */
  lemma NthExceeds(w: real, d: real) returns (k: nat)
    requires d > 0.0 && w >= 0.0
    ensures Nth(k, d) > w
  {
    FloorDrops(w, d);
    k := (w / d).Floor + 1;
    Quotient(w, d, w / d);
    ScaleDown(k as real - w / d, d);
    assert (k as real - w / d) * d == Nth(k, d) - w;
  }

  /** One step of length d uses up one unit of what is left: the sweep ends for every length. */
  lemma FloorDrops(w: real, d: real)
    requires d > 0.0 && w >= 0.0
    ensures (w / d).Floor >= 0
    ensures ((w - d) / d).Floor == (w / d).Floor - 1
  {
    Quotient(w, d, w / d);
    Quotient(w - d, d, w / d - 1.0);
    assert (w / d - 1.0) * d == w - d;
    QuotientMonotone(0.0, w, d);
    Quotient(0.0, d, 0.0);
  }
}
