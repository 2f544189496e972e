/** The 3D block map: areas and polygons read from the map file, the rasteriser that caches area
    membership per block, and the obstacle queries over the blocks. */
module BlockMap {
  import opened AreaChoice
  import opened Grid
  import opened Polygon
  import opened Reals

  /** The height the source uses for "never clear". */
  const FAR := 999999999.9

  datatype Area = Area(pointsId: int, nodeI: nat, nodeCount: nat, heightLimit: real, box: Box)

  const ZERO_AREA := Area(0, 0, 0, 0.0, Box(0.0, 0.0, 0.0, 0.0))

  datatype Block = Block(restrictionI: nat, groundI: nat, zI: int, zMaxMm: int)

  /** One line inside a `<points>` element: a vertex, a vertex line that does not parse, or another line. */
  datatype NodeLine = Vertex(p: Point) | Malformed | Other

  datatype Verdict = Err | Over | Hit

  function Vertices(lines: seq<NodeLine>): seq<Point> {
    if lines == [] then []
    else
      var n := |lines| - 1;
      Vertices(lines[..n]) + (match lines[n] case Vertex(p) => [p] case _ => [])
  }

  lemma {:induction false} VerticesPrefix(lines: seq<NodeLine>, k: nat)
    requires k <= |lines|
    ensures Vertices(lines[..k]) <= Vertices(lines)
  {
    if k < |lines| {
      var n := |lines| - 1;
      VerticesPrefix(lines[..n], k);
      assert lines[..n][..k] == lines[..k];
    } else {
      assert lines[..k] == lines;
    }
  }

  function MalformedCount(lines: seq<NodeLine>): nat {
    if lines == [] then 0
    else MalformedCount(lines[..|lines| - 1]) + (if lines[|lines| - 1].Malformed? then 1 else 0)
  }

  lemma LineStep(lines: seq<NodeLine>, k: nat)
    requires k < |lines|
    ensures Vertices(lines[..k + 1]) == Vertices(lines[..k]) + (match lines[k] case Vertex(p) => [p] case _ => [])
    ensures MalformedCount(lines[..k + 1]) == MalformedCount(lines[..k]) + (if lines[k].Malformed? then 1 else 0)
    ensures |Vertices(lines[..k + 1])| <= |Vertices(lines)|
  {
    assert lines[..k + 1][..k] == lines[..k];
    VerticesPrefix(lines, k + 1);
  }

  /** The vertices are exactly the points of the vertex lines, in the order of the lines. */
  lemma {:induction false} VerticesInOrder(lines: seq<NodeLine>, k: nat)
    requires k < |lines| && lines[k].Vertex?
    ensures |Vertices(lines[..k])| < |Vertices(lines)| && Vertices(lines)[|Vertices(lines[..k])|] == lines[k].p
    ensures |Vertices(lines)| == |set i | 0 <= i < |lines| && lines[i].Vertex?|
  {
    LineStep(lines, k);
    VerticesPrefix(lines, k + 1);
    VertexCount(lines);
  }

  lemma {:induction false} VertexCount(lines: seq<NodeLine>)
    ensures |Vertices(lines)| == |set i | 0 <= i < |lines| && lines[i].Vertex?|
  {
    if lines != [] {
      var n := |lines| - 1;
      VertexCount(lines[..n]);
      var before := set i | 0 <= i < n && lines[..n][i].Vertex?;
      var all := set i | 0 <= i < |lines| && lines[i].Vertex?;
      assert all == if lines[n].Vertex? then before + {n} else before;
    }
  }

  /** The box before the first vertex. */
  const EMPTY_BOX := Box(FAR, FAR, 0.0, 0.0)

  function Widen(b: Box, p: Point): Box {
    Box(if b.minX > p.x then p.x else b.minX, if b.minY > p.y then p.y else b.minY,
        if b.maxX < p.x then p.x else b.maxX, if b.maxY < p.y then p.y else b.maxY)
  }

  function BoxOf(vs: seq<Point>): Box {
    if vs == [] then EMPTY_BOX else Widen(BoxOf(vs[..|vs| - 1]), vs[|vs| - 1])
  }

  lemma BoxStep(vs: seq<Point>, p: Point)
    ensures BoxOf(vs + [p]) == Widen(BoxOf(vs), p)
  {
    assert (vs + [p])[..|vs|] == vs;
  }

  /** The accumulated box holds every vertex, and reaches no further than a vertex or its start value. */
  lemma {:induction false} BoxHoldsVertices(vs: seq<Point>)
    ensures Bounds(BoxOf(vs), vs)
    ensures var b := BoxOf(vs);
      && (b.minX == FAR || exists v :: v in vs && v.x == b.minX)
      && (b.minY == FAR || exists v :: v in vs && v.y == b.minY)
      && (b.maxX == 0.0 || exists v :: v in vs && v.x == b.maxX)
      && (b.maxY == 0.0 || exists v :: v in vs && v.y == b.maxY)
  {
    if vs != [] {
      var n := |vs| - 1;
      BoxHoldsVertices(vs[..n]);
      assert forall v :: v in vs[..n] ==> v in vs;
      assert vs[n] in vs;
      assert forall i :: 0 <= i < n ==> vs[..n][i] == vs[i];
    }
  }

  /** The area record after a `<points>` element with this id and these vertices. */
  function Attach(a: Area, id: int, nodeI: nat, vs: seq<Point>): Area {
    if a.pointsId == id then a.(nodeI := nodeI, nodeCount := |vs|, box := BoxOf(vs)) else a
  }

  function Limits(areas: seq<Area>): seq<real> {
    seq(|areas|, k requires 0 <= k < |areas| => areas[k].heightLimit)
  }

  // ---------- Areas over the nodes read so far ----------

  /** The area's vertices lie among the nodes and inside its box. */
  predicate AreaOk(ns: seq<Point>, a: Area) {
    a.nodeI + a.nodeCount <= |ns| && Bounds(a.box, ns[a.nodeI..a.nodeI + a.nodeCount])
  }

  predicate AreasOk(ns: seq<Point>, areas: seq<Area>) {
    forall k :: 0 <= k < |areas| ==> AreaOk(ns, areas[k])
  }

  function Shape(ns: seq<Point>, a: Area): seq<Point>
    requires AreaOk(ns, a)
  {
    ns[a.nodeI..a.nodeI + a.nodeCount]
  }

  lemma ShapeIs(ns: seq<Point>, a: Area, poly: seq<Point>)
    requires AreaOk(ns, a) && |poly| == a.nodeCount && a.nodeI + a.nodeCount <= |ns|
    requires forall k :: 0 <= k < a.nodeCount ==> poly[k] == ns[a.nodeI + k]
    ensures poly == Shape(ns, a)
  {
    hide Bounds;
  }

  /** Lower left corner of block [j][i]. */
  function Corner(g: Grid, j: nat, i: nat): Point {
    Point(g.minX + g.sizeX * i as real, g.minY + g.sizeY * j as real)
  }

  /** One of the four corners of the block with lower left corner c is inside the area. */
  predicate Touches(g: Grid, ns: seq<Point>, a: Area, c: Point)
    requires AreaOk(ns, a)
  {
    || InsideLow(Shape(ns, a), c)
    || InsideLow(Shape(ns, a), Point(c.x + g.sizeX, c.y))
    || InsideLow(Shape(ns, a), Point(c.x + g.sizeX, c.y + g.sizeY))
    || InsideLow(Shape(ns, a), Point(c.x, c.y + g.sizeY))
  }

  /** An area whose box lies beside the closed block, left, right, below or above it, does not mark it. */
  lemma FarIsUnmarked(g: Grid, ns: seq<Point>, a: Area, c: Point)
    requires ValidGrid(g) && AreaOk(ns, a)
    requires a.box.maxX < c.x || c.x + g.sizeX < a.box.minX || a.box.maxY < c.y || c.y + g.sizeY < a.box.minY
    ensures !Touches(g, ns, a, c)
  {
    var vs := Shape(ns, a);
    hide InsideLow, Bounds, Shape;
    assert Bounds(a.box, vs) by { hide *; AreaBounds(ns, a); }
    OutsideBox(vs, a.box, c);
    OutsideBox(vs, a.box, Point(c.x + g.sizeX, c.y));
    OutsideBox(vs, a.box, Point(c.x + g.sizeX, c.y + g.sizeY));
    OutsideBox(vs, a.box, Point(c.x, c.y + g.sizeY));
  }

  lemma AreaBounds(ns: seq<Point>, a: Area)
    requires AreaOk(ns, a)
    ensures Bounds(a.box, Shape(ns, a))
  {
  }

  /** The block the queries look up for a point is the one the rasteriser placed round it. */
  lemma CellHoldsPoint(g: Grid, q: Point)
    requires ValidGrid(g) && InGrid(g, q)
    ensures CellOf(q.x, g.minX, g.sizeX) >= 0 && CellOf(q.y, g.minY, g.sizeY) >= 0
    ensures var c := Corner(g, CellOf(q.y, g.minY, g.sizeY), CellOf(q.x, g.minX, g.sizeX));
      c.x <= q.x < c.x + g.sizeX && c.y <= q.y < c.y + g.sizeY
  {
    hide CellOf, Within;
    CellHolds(q.x, g.minX, g.sizeX, g.nx);
    CellHolds(q.y, g.minY, g.sizeY, g.ny);
  }

  lemma CellHolds(v: real, min: real, size: real, n: nat)
    requires size > 0.0 && Within(v, min, size, n)
    ensures CellOf(v, min, size) >= 0
    ensures var c := min + size * CellOf(v, min, size) as real; c <= v < c + size
  {
    hide CellOf;
    WithinCell(v, min, size, n);
    CornerAt(min, size, CellOf(v, min, size));
  }

  lemma CornerAt(min: real, size: real, k: int)
    ensures size * k as real == k as real * size
    ensures min + size * (k + 1) as real == min + size * k as real + size
    ensures min + (k as real + 1.0) * size == min + size * k as real + size
  {
  }

  /** A grid vertex inside an area marks all four blocks that meet there. */
  lemma VertexMarksFourBlocks(g: Grid, ns: seq<Point>, a: Area, j: nat, i: nat)
    requires AreaOk(ns, a) && InsideLow(Shape(ns, a), Corner(g, j + 1, i + 1))
    ensures Touches(g, ns, a, Corner(g, j, i)) && Touches(g, ns, a, Corner(g, j, i + 1))
    ensures Touches(g, ns, a, Corner(g, j + 1, i)) && Touches(g, ns, a, Corner(g, j + 1, i + 1))
  {
    NextCorner(g, j, i);
    hide InsideLow, AreaOk, Corner;
  }

  lemma NextCorner(g: Grid, j: nat, i: nat)
    ensures var c, v := Corner(g, j, i), Corner(g, j + 1, i + 1);
      && v == Point(c.x + g.sizeX, c.y + g.sizeY)
      && Corner(g, j, i + 1) == Point(v.x, c.y) && Corner(g, j + 1, i) == Point(c.x, v.y)
  {
    CornerAt(g.minX, g.sizeX, i);
    CornerAt(g.minY, g.sizeY, j);
  }

  /** q lies in the half-open box with lower left corner (u, v) and the size of a cell. */
  predicate InCellBox(g: Grid, u: real, v: real, q: Point) {
    u <= q.x < u + g.sizeX && v <= q.y < v + g.sizeY
  }

  /** Round q a box of the size of a cell fits into the polygon. */
  ghost predicate Thick(g: Grid, poly: seq<Point>, q: Point) {
    exists u: real, v: real :: InCellBox(g, u, v, q) && forall p :: InCellBox(g, u, v, p) ==> InsideLow(poly, p)
  }

  /** Corners are all the rasteriser looks at, but they suffice where the area is as wide as a cell: the block
      of every such point is reached. */
  lemma ThickIsMarked(g: Grid, ns: seq<Point>, a: Area, q: Point)
    requires ValidGrid(g) && InGrid(g, q) && AreaOk(ns, a) && Thick(g, Shape(ns, a), q)
    ensures CellOf(q.x, g.minX, g.sizeX) >= 0 && CellOf(q.y, g.minY, g.sizeY) >= 0
    ensures Touches(g, ns, a, Corner(g, CellOf(q.y, g.minY, g.sizeY), CellOf(q.x, g.minX, g.sizeX)))
  {
    CellHoldsPoint(g, q);
    hide CellOf, Corner, InsideLow, AreaOk, Shape;
    var c := Corner(g, CellOf(q.y, g.minY, g.sizeY), CellOf(q.x, g.minX, g.sizeX));
    var u: real, v: real :| InCellBox(g, u, v, q) && forall p :: InCellBox(g, u, v, p) ==> InsideLow(Shape(ns, a), p);
    var p := Point(if u <= c.x then c.x else c.x + g.sizeX, if v <= c.y then c.y else c.y + g.sizeY);
    assert InCellBox(g, u, v, p);
  }

  /** A narrower area can be missed altogether: here it lies between the corners of the only block. */
  lemma NarrowIsMissed()
    ensures var g, poly := Grid(0.0, 0.0, 4.0, 4.0, 1, 1),
                           [Point(1.0, 1.0), Point(3.0, 1.0), Point(3.0, 3.0), Point(1.0, 3.0)];
            var a, q := Area(0, 0, 4, NO_FLY, Box(1.0, 1.0, 3.0, 3.0)), Point(2.0, 2.0);
      && AreaOk(poly, a) && InGrid(g, q) && InsideLow(Shape(poly, a), q)
      && !Touches(g, poly, a, Corner(g, 0, 0))
  {
    var poly := [Point(1.0, 1.0), Point(3.0, 1.0), Point(3.0, 3.0), Point(1.0, 3.0)];
    assert poly[0..4] == poly;
    SquareCentre(poly);
    hide InsideLow;
    SquareOutside(poly, Point(0.0, 0.0));
    SquareOutside(poly, Point(4.0, 0.0));
    SquareOutside(poly, Point(4.0, 4.0));
    SquareOutside(poly, Point(0.0, 4.0));
  }

  lemma SquareCentre(poly: seq<Point>)
    requires poly == [Point(1.0, 1.0), Point(3.0, 1.0), Point(3.0, 3.0), Point(1.0, 3.0)]
    ensures InsideLow(poly, Point(2.0, 2.0))
  {
    var p := Point(2.0, 2.0);
    assert !Toggles(poly[1], poly[0], p) && !Toggles(poly[3], poly[2], p);
    UprightEdge(poly[0], poly[3], p);
    UprightEdge(poly[2], poly[1], p);
    hide Toggles, RayCrosses;
    var t := ToggleFlags(poly, p);
    assert t == [false, false, true, false];
    NoneSet(t[..2]);
    OddStep(t, 2);
    OddStep(t, 3);
    assert t[..4] == t;
  }

  lemma SquareOutside(poly: seq<Point>, p: Point)
    requires poly == [Point(1.0, 1.0), Point(3.0, 1.0), Point(3.0, 3.0), Point(1.0, 3.0)]
    requires !(1.0 <= p.x <= 3.0)
    ensures !InsideLow(poly, p)
  {
    OutsideBox(poly, Box(1.0, 1.0, 3.0, 3.0), p);
  }

  /** Which of the areas reach the block with lower left corner c. */
  function TouchFlags(g: Grid, ns: seq<Point>, areas: seq<Area>, c: Point): seq<bool>
    requires AreasOk(ns, areas)
  {
    seq(|areas|, k requires 0 <= k < |areas| => Touches(g, ns, areas[k], c))
  }

  /** Block b is b0 with exactly the two indices the areas determine for position [j][i]. */
  ghost predicate Assigned(g: Grid, ns: seq<Point>, rs: seq<Area>, gs: seq<Area>, b: Block, b0: Block, j: nat, i: nat)
    requires AreasOk(ns, rs) && AreasOk(ns, gs)
  {
    && b == b0.(restrictionI := b.restrictionI, groundI := b.groundI)
    && IsChoice(TouchFlags(g, ns, rs, Corner(g, j, i)), Limits(rs), b.restrictionI)
    && IsLast(TouchFlags(g, ns, gs, Corner(g, j, i)), b.groundI)
  }

  /** The block's indices are 0, as the reader leaves them, or the ones the areas determine. */
  ghost predicate Startable(g: Grid, ns: seq<Point>, rs: seq<Area>, gs: seq<Area>, b: Block, j: nat, i: nat)
    requires AreasOk(ns, rs) && AreasOk(ns, gs)
  {
    && (b.restrictionI == 0 || IsChoice(TouchFlags(g, ns, rs, Corner(g, j, i)), Limits(rs), b.restrictionI))
    && (b.groundI == 0 || IsLast(TouchFlags(g, ns, gs, Corner(g, j, i)), b.groundI))
  }

  /** Rasterising a second time changes nothing: the first pass leaves startable blocks behind, and a block
      is assigned in one way only. */
  lemma AssignedAgain(g: Grid, ns: seq<Point>, rs: seq<Area>, gs: seq<Area>, b: Block, b0: Block, b': Block,
                      j: nat, i: nat)
    requires AreasOk(ns, rs) && AreasOk(ns, gs) && Assigned(g, ns, rs, gs, b, b0, j, i)
    ensures Startable(g, ns, rs, gs, b, j, i)
    ensures Assigned(g, ns, rs, gs, b', b, j, i) <==> b' == b
  {
    hide IsChoice, IsLast, AreasOk, Corner;
    if Assigned(g, ns, rs, gs, b', b, j, i) {
      ChoiceUnique(TouchFlags(g, ns, rs, Corner(g, j, i)), Limits(rs), b.restrictionI, b'.restrictionI);
      LastUnique(TouchFlags(g, ns, gs, Corner(g, j, i)), b.groundI, b'.groundI);
    }
  }

  lemma AssignedSelf(g: Grid, ns: seq<Point>, rs: seq<Area>, gs: seq<Area>, b: Block, b0: Block, j: nat, i: nat)
    requires AreasOk(ns, rs) && AreasOk(ns, gs) && Assigned(g, ns, rs, gs, b, b0, j, i)
    ensures Assigned(g, ns, rs, gs, b, b, j, i)
  {
  }

  lemma StartableChoice(touch: seq<bool>, limits: seq<real>, r: nat)
    requires |touch| == |limits| && (r == 0 || IsChoice(touch, limits, r))
    ensures r <= |touch| && IsChoice(touch, limits, OfferAll(touch, limits, r, |touch|))
  {
    if r == 0 {
      OfferFromZero(touch, limits, |touch|);
      assert touch[..|touch|] == touch && limits[..|touch|] == limits;
    } else {
      OfferAgain(touch, limits, r);
    }
  }

  lemma AssignedIndex(g: Grid, ns: seq<Point>, rs: seq<Area>, gs: seq<Area>, b: Block, b0: Block, j: nat, i: nat)
    requires AreasOk(ns, rs) && AreasOk(ns, gs) && Assigned(g, ns, rs, gs, b, b0, j, i)
    ensures b.restrictionI <= |rs| && b.groundI <= |gs|
  {
  }

  /** What a rasterised block's restriction index says about the map: 0 exactly if no area has one of the
      block's corners inside, else an area that has; if none of these is no-fly, the earliest of greatest limit. */
  lemma IndexMeans(g: Grid, ns: seq<Point>, rs: seq<Area>, gs: seq<Area>, b: Block, b0: Block, j: nat, i: nat)
    requires AreasOk(ns, rs) && AreasOk(ns, gs) && Assigned(g, ns, rs, gs, b, b0, j, i)
    ensures b.restrictionI == 0 <==> forall k :: 0 <= k < |rs| ==> !Touches(g, ns, rs[k], Corner(g, j, i))
    ensures b.restrictionI > 0 ==> b.restrictionI <= |rs| && Touches(g, ns, rs[b.restrictionI - 1], Corner(g, j, i))
    ensures b.restrictionI > 0
            && (forall k :: 0 <= k < |rs| && Touches(g, ns, rs[k], Corner(g, j, i)) ==> rs[k].heightLimit != NO_FLY) ==>
              forall k :: 0 <= k < |rs| && Touches(g, ns, rs[k], Corner(g, j, i)) ==>
                var limit := rs[b.restrictionI - 1].heightLimit;
                rs[k].heightLimit <= limit && (rs[k].heightLimit == limit ==> b.restrictionI - 1 <= k)
  {
    hide Touches, Corner, AreaOk, IsLast;
    var c := Corner(g, j, i);
    var touch, limits := TouchFlags(g, ns, rs, c), Limits(rs);
    assert |touch| == |limits| == |rs|;
    assert forall k :: 0 <= k < |rs| ==> (touch[k] <==> Touches(g, ns, rs[k], c)) && limits[k] == rs[k].heightLimit;
    hide TouchFlags, Limits;
    ZeroIffUntouched(touch, limits, b.restrictionI);
    if b.restrictionI > 0 && forall k :: 0 <= k < |rs| && touch[k] ==> limits[k] != NO_FLY {
      HighestLimitChosen(touch, limits, b.restrictionI);
    }
    hide IsChoice;
  }

  /** Rasteriser and query together: a block reached by a no-fly area is never clear, provided no area
      later in the file reaches the block with a greater limit. */
  lemma NoFlyStopsFlight(g: Grid, ns: seq<Point>, rs: seq<Area>, gs: seq<Area>, b: Block, b0: Block,
                         j: nat, i: nat, z: real, dz: real)
    requires AreasOk(ns, rs) && AreasOk(ns, gs) && Assigned(g, ns, rs, gs, b, b0, j, i)
    requires var touch := TouchFlags(g, ns, rs, Corner(g, j, i));
      && LastNoFly(touch, Limits(rs)) >= 0
      && forall k :: LastNoFly(touch, Limits(rs)) < k < |rs| && touch[k] ==> Limits(rs)[k] <= NO_FLY
    requires z - dz < FAR
    ensures b.restrictionI <= |rs| && !Clear(b, rs, z, dz)
  {
    hide Touches, AreaOk, Corner, IsLast;
    var touch, limits := TouchFlags(g, ns, rs, Corner(g, j, i)), Limits(rs);
    assert |touch| == |limits| == |rs|;
    hide TouchFlags;
    NoFlyKeptIff(touch, limits, b.restrictionI);
    ZeroIffUntouched(touch, limits, b.restrictionI);
    hide IsChoice, Limits;
    assert limits[b.restrictionI - 1] == NO_FLY;
    LimitAt(rs, b.restrictionI - 1);
  }

  /** The same for one no-fly area of the file: no later area that reaches the block may have a greater limit. */
  lemma NoFlyMarked(g: Grid, ns: seq<Point>, rs: seq<Area>, gs: seq<Area>, b: Block, b0: Block,
                    j: nat, i: nat, z: real, dz: real, k: nat)
    requires AreasOk(ns, rs) && AreasOk(ns, gs) && Assigned(g, ns, rs, gs, b, b0, j, i) && z - dz < FAR
    requires k < |rs| && rs[k].heightLimit == NO_FLY && Touches(g, ns, rs[k], Corner(g, j, i))
    requires forall k' :: k < k' < |rs| && Touches(g, ns, rs[k'], Corner(g, j, i)) ==> rs[k'].heightLimit <= NO_FLY
    ensures b.restrictionI <= |rs| && !Clear(b, rs, z, dz)
  {
    hide Touches, AreaOk, Corner, IsLast, IsChoice, Clear;
    var touch, limits := TouchFlags(g, ns, rs, Corner(g, j, i)), Limits(rs);
    assert touch[k] && limits[k] == NO_FLY;
    assert LastNoFly(touch, limits) >= k;
    NoFlyStopsFlight(g, ns, rs, gs, b, b0, j, i, z, dz);
  }

  lemma LimitAt(areas: seq<Area>, k: nat)
    requires k < |areas|
    ensures Limits(areas)[k] == areas[k].heightLimit
  {
  }

  /** Nodes added at the end leave the areas read before as they were. */
  lemma AreaKept(ns: seq<Point>, more: seq<Point>, a: Area)
    requires AreaOk(ns, a)
    ensures AreaOk(ns + more, a) && Shape(ns + more, a) == Shape(ns, a)
  {
    assert (ns + more)[a.nodeI..a.nodeI + a.nodeCount] == ns[a.nodeI..a.nodeI + a.nodeCount];
  }

  /** An area that takes the vertices just appended is sound, and has exactly them as its shape. */
  lemma AreaAttached(ns: seq<Point>, vs: seq<Point>, a: Area, id: int)
    requires AreaOk(ns, a)
    ensures var a' := Attach(a, id, |ns|, vs);
      && AreaOk(ns + vs, a') && Shape(ns + vs, a') == (if a.pointsId == id then vs else Shape(ns, a))
      && a'.pointsId == a.pointsId && a'.heightLimit == a.heightLimit
  {
    if a.pointsId == id {
      BoxHoldsVertices(vs);
      assert (ns + vs)[|ns|..|ns| + |vs|] == vs;
    } else {
      AreaKept(ns, vs, a);
    }
  }

  // ---------- When a block is clear ----------

  /** The height a block blocks up to, for a flight at height z: the source's `blockz`. */
  function BlockZ(b: Block, areas: seq<Area>, z: real): real
    requires b.restrictionI <= |areas|
  {
    var terrain := if b.zI > 0 then b.zMaxMm as real / 1000.0 else FAR;
    if b.restrictionI > 0 then
      var limit := areas[b.restrictionI - 1].heightLimit;
      if limit == NO_FLY then FAR else if limit > z then limit else terrain
    else terrain
  }

  predicate Clear(b: Block, areas: seq<Area>, z: real, dz: real)
    requires b.restrictionI <= |areas|
  {
    !(BlockZ(b, areas, z) > z - dz)
  }

  /** What clear means: the terrain height is known and at least dz below the flight, and the area the
      block names, if any, is neither no-fly nor limited above the flight. */
  lemma ClearMeans(b: Block, areas: seq<Area>, z: real, dz: real)
    requires b.restrictionI <= |areas|
    requires dz >= 0.0 && z - dz < 999999999.9
    ensures Clear(b, areas, z, dz) <==>
      && b.zI > 0 && b.zMaxMm as real / 1000.0 <= z - dz
      && (b.restrictionI > 0 ==>
            areas[b.restrictionI - 1].heightLimit != -1.0 && areas[b.restrictionI - 1].heightLimit <= z)
  {
  }

  /** Climbing keeps a clear block clear. */
  lemma ClimbingStaysClear(b: Block, areas: seq<Area>, z: real, z': real, dz: real)
    requires b.restrictionI <= |areas|
    requires dz >= 0.0 && z <= z'
    requires Clear(b, areas, z, dz)
    ensures Clear(b, areas, z', dz)
  {
  }

  class MapStore {
    const nodes: array<Point>
    const restrictions: array<Area>
    const grounds: array<Area>
    const blocks: array2<Block>
    const grid: Grid
    var nodeCount: nat
    var restrictionCount: nat
    var groundCount: nat
    var errCount: nat

    /** Room for everything the first pass over the file counted, zeroed. */
    constructor (nodeRoom: nat, restrictionRoom: nat, groundRoom: nat, g: Grid)
      requires ValidGrid(g)
      ensures Valid() && grid == g
      ensures nodeCount == restrictionCount == groundCount == errCount == 0
      ensures nodes.Length == nodeRoom && restrictions.Length == restrictionRoom && grounds.Length == groundRoom
      ensures forall k :: 0 <= k < nodeRoom ==> nodes[k] == Point(0.0, 0.0)
      ensures forall k :: 0 <= k < restrictionRoom ==> restrictions[k] == ZERO_AREA
      ensures forall k :: 0 <= k < groundRoom ==> grounds[k] == ZERO_AREA
      ensures forall j, i :: 0 <= j < g.ny && 0 <= i < g.nx ==> blocks[j, i] == Block(0, 0, 0, 0)
      ensures fresh(nodes) && fresh(restrictions) && fresh(grounds) && fresh(blocks)
    {
      nodes := new Point[nodeRoom](_ => Point(0.0, 0.0));
      restrictions := new Area[restrictionRoom](_ => ZERO_AREA);
      grounds := new Area[groundRoom](_ => ZERO_AREA);
      blocks := new Block[g.ny, g.nx]((_, _) => Block(0, 0, 0, 0));
      grid := g;
      nodeCount, restrictionCount, groundCount, errCount := 0, 0, 0, 0;
    }

    ghost predicate Valid()
      reads this, nodes, restrictions, grounds
    {
      && ValidGrid(grid)
      && blocks.Length0 == grid.ny && blocks.Length1 == grid.nx
      && restrictions != grounds
      && nodeCount <= nodes.Length
      && restrictionCount <= restrictions.Length
      && groundCount <= grounds.Length
      && AreasOk(nodes[..nodeCount], restrictions[..restrictionCount])
      && AreasOk(nodes[..nodeCount], grounds[..groundCount])
    }

    /** `<restriction_area>`: a record without vertices yet. */
    method AddRestriction(pointsId: int, heightLimit: real)
      requires Valid() && restrictionCount < restrictions.Length
      modifies this`restrictionCount, restrictions
      ensures Valid() && restrictionCount == old(restrictionCount) + 1
      ensures restrictions[..restrictionCount]
              == old(restrictions[..restrictionCount]) + [ZERO_AREA.(pointsId := pointsId, heightLimit := heightLimit)]
    {
      restrictions[restrictionCount] := ZERO_AREA.(pointsId := pointsId, heightLimit := heightLimit);
      restrictionCount := restrictionCount + 1;
    }

    /** `<ground_area>`. */
    method AddGround(pointsId: int)
      requires Valid() && groundCount < grounds.Length
      modifies this`groundCount, grounds
      ensures Valid() && groundCount == old(groundCount) + 1
      ensures grounds[..groundCount]
              == old(grounds[..groundCount]) + [ZERO_AREA.(pointsId := pointsId)]
    {
      grounds[groundCount] := ZERO_AREA.(pointsId := pointsId);
      groundCount := groundCount + 1;
    }

    /** The vertex loop of a `<points>` element: append what parses, widen the box. */
    method ReadVertices(lines: seq<NodeLine>) returns (box: Box)
      requires nodeCount + |Vertices(lines)| <= nodes.Length
      modifies this`nodeCount, this`errCount, nodes
      ensures nodeCount <= nodes.Length
      ensures nodes[..nodeCount] == old(nodes[..nodeCount]) + Vertices(lines)
      ensures errCount == old(errCount) + MalformedCount(lines)
      ensures box == BoxOf(Vertices(lines))
    {
      box := EMPTY_BOX;
      ghost var before, got := nodes[..nodeCount], [];
      for k := 0 to |lines|
        invariant nodeCount <= nodes.Length
        invariant nodes[..nodeCount] == before + got
        invariant got == Vertices(lines[..k])
        invariant errCount == old(errCount) + MalformedCount(lines[..k])
        invariant box == BoxOf(got)
      {
        hide Vertices, MalformedCount, BoxOf, Widen;
        LineStep(lines, k);
        match lines[k] {
          case Vertex(p) =>
            BoxStep(got, p);
            nodes[nodeCount] := p;
            nodeCount := nodeCount + 1;
            box := Widen(box, p);
            got := got + [p];
          case Malformed =>
            errCount := errCount + 1;
          case Other =>
        }
      }
      assert lines[..|lines|] == lines;
    }

    /** The loop that hands the vertices just read to the areas that refer to them. */
    static method AttachAll(areas: array<Area>, count: nat, id: int, nodeI: nat, ghost vs: seq<Point>,
                            nodeCount: nat, box: Box)
      returns (used: nat)
      requires count <= areas.Length && nodeCount == |vs| && box == BoxOf(vs)
      modifies areas
      ensures forall i :: 0 <= i < count ==> areas[i] == Attach(old(areas[i]), id, nodeI, vs)
      ensures used == 0 <==> forall i :: 0 <= i < count ==> areas[i].pointsId != id
    {
      used := 0;
      for k := 0 to count
        invariant forall i :: 0 <= i < k ==> areas[i] == Attach(old(areas[i]), id, nodeI, vs)
        invariant forall i :: k <= i < count ==> areas[i] == old(areas[i])
        invariant used == 0 <==> forall i :: 0 <= i < k ==> areas[i].pointsId != id
      {
        if areas[k].pointsId == id {
          areas[k] := areas[k].(nodeI := nodeI, nodeCount := nodeCount, box := box);
          used := used + 1;
        }
      }
    }

    /** A whole `<points>` element: every area that refers to it gets the vertices and their box, and
        the box of every area still holds its vertices. */
    method LoadPoints(id: int, lines: seq<NodeLine>)
      requires Valid() && nodeCount + |Vertices(lines)| <= nodes.Length
      modifies this`nodeCount, this`errCount, nodes, restrictions, grounds
      ensures Valid()
      ensures nodes[..nodeCount] == old(nodes[..nodeCount]) + Vertices(lines)
      ensures forall i :: 0 <= i < restrictionCount ==>
                restrictions[i] == Attach(old(restrictions[i]), id, old(nodeCount), Vertices(lines))
      ensures forall i :: 0 <= i < groundCount ==>
                grounds[i] == Attach(old(grounds[i]), id, old(nodeCount), Vertices(lines))
      ensures errCount == old(errCount) + MalformedCount(lines) +
                (if (forall i :: 0 <= i < restrictionCount ==> restrictions[i].pointsId != id) &&
                    (forall i :: 0 <= i < groundCount ==> grounds[i].pointsId != id) then 1 else 0)
    {
      ghost var vs, ns := Vertices(lines), nodes[..nodeCount];
      var nodeI := nodeCount;
      var box := ReadVertices(lines);
      var usedR := AttachAll(restrictions, restrictionCount, id, nodeI, vs, nodeCount - nodeI, box);
      var usedG := AttachAll(grounds, groundCount, id, nodeI, vs, nodeCount - nodeI, box);
      if usedR + usedG == 0 {
        errCount := errCount + 1;
      }
      assert nodes[..nodeCount] == ns + vs;
      hide AreaOk, Attach, BoxOf, Vertices, MalformedCount;
      forall i | 0 <= i < restrictionCount
        ensures AreaOk(ns + vs, restrictions[i])
      {
        assert AreaOk(ns, old(restrictions[..restrictionCount])[i]);
        AreaAttached(ns, vs, old(restrictions[i]), id);
      }
      forall i | 0 <= i < groundCount
        ensures AreaOk(ns + vs, grounds[i])
      {
        assert AreaOk(ns, old(grounds[..groundCount])[i]);
        AreaAttached(ns, vs, old(grounds[i]), id);
      }
    }

    /** `check_in_area`: the prefilter never changes the answer of the polygon test. */
    method CheckInArea(p: Point, a: Area) returns (inside: bool)
      requires nodeCount <= nodes.Length && AreaOk(nodes[..nodeCount], a)
      ensures inside <==> InsideLow(Shape(nodes[..nodeCount], a), p)
    {
      hide InsideLow, Bounds;
      if p.x < a.box.minX || p.x > a.box.maxX || p.y < a.box.minY || p.y > a.box.maxY {
        OutsideBox(Shape(nodes[..nodeCount], a), a.box, p);
        return false;
      }
      var poly := nodes[a.nodeI..a.nodeI + a.nodeCount];
      assert poly == Shape(nodes[..nodeCount], a) by {
        hide *;
        ghost var ns := nodes[..nodeCount];
        assert forall k :: 0 <= k < a.nodeCount ==> poly[k] == ns[a.nodeI + k];
        ShapeIs(ns, a, poly);
      }
      inside := PnPoly(poly, p);
    }

    // ---------- The rasteriser ----------

    method CheckCorners(a: Area, c: Point) returns (touches: bool)
      requires nodeCount <= nodes.Length && AreaOk(nodes[..nodeCount], a)
      ensures touches <==> Touches(grid, nodes[..nodeCount], a, c)
    {
      hide InsideLow, AreaOk;
      touches := CheckInArea(c, a);
      if !touches {
        touches := CheckInArea(Point(c.x + grid.sizeX, c.y), a);
      }
      if !touches {
        touches := CheckInArea(Point(c.x + grid.sizeX, c.y + grid.sizeY), a);
      }
      if !touches {
        touches := CheckInArea(Point(c.x, c.y + grid.sizeY), a);
      }
    }

    /** The loop over the restriction areas for one block, starting from its current index. */
    method OfferRestrictions(c: Point, start: nat) returns (r: nat)
      requires Valid() && start <= restrictionCount
      ensures r == OfferAll(TouchFlags(grid, nodes[..nodeCount], restrictions[..restrictionCount], c),
                            Limits(restrictions[..restrictionCount]), start, restrictionCount)
    {
      hide Touches, AreaOk;
      ghost var rs := restrictions[..restrictionCount];
      ghost var touch, limits := TouchFlags(grid, nodes[..nodeCount], rs, c), Limits(rs);
      r := start;
      for k := 0 to restrictionCount
        invariant r <= restrictionCount && r == OfferAll(touch, limits, start, k)
      {
        assert rs[k] == restrictions[k] && (r > 0 ==> rs[r - 1] == restrictions[r - 1]);
        var touches := CheckCorners(restrictions[k], c);
        if touches {
          if r == 0 || restrictions[k].heightLimit == NO_FLY ||
             restrictions[k].heightLimit > restrictions[r - 1].heightLimit {
            r := k + 1;
          }
        }
      }
    }

    /** The loop over the ground areas for one block. */
    method OfferGrounds(c: Point) returns (r: nat)
      requires Valid()
      ensures IsLast(TouchFlags(grid, nodes[..nodeCount], grounds[..groundCount], c), r)
    {
      hide Touches, AreaOk;
      ghost var gs := grounds[..groundCount];
      ghost var touch := TouchFlags(grid, nodes[..nodeCount], gs, c);
      r := 0;
      for k := 0 to groundCount
        invariant IsLast(touch[..k], r)
      {
        assert gs[k] == grounds[k];
        var touches := CheckCorners(grounds[k], c);
        if touches {
          r := k + 1;
        }
      }
      assert touch[..groundCount] == touch;
    }

    /** The blocks can be rasterised: fresh from the reader, or rasterised before over the same areas. */
    ghost predicate RowStartable(j: nat)
      requires Valid() && j < blocks.Length0
      reads this, nodes, restrictions, grounds, blocks
    {
      forall i :: 0 <= i < blocks.Length1 ==>
        Startable(grid, nodes[..nodeCount], restrictions[..restrictionCount], grounds[..groundCount],
                  blocks[j, i], j, i)
    }

    /** The two loops for one block. */
    method SetBlock(j: nat, i: nat)
      requires Valid() && j < blocks.Length0 && i < blocks.Length1
      requires Startable(grid, nodes[..nodeCount], restrictions[..restrictionCount], grounds[..groundCount],
                         blocks[j, i], j, i)
      modifies blocks
      ensures Assigned(grid, nodes[..nodeCount], restrictions[..restrictionCount], grounds[..groundCount],
                       blocks[j, i], old(blocks[j, i]), j, i)
      ensures forall v, u :: 0 <= v < blocks.Length0 && 0 <= u < blocks.Length1 && (v != j || u != i) ==>
                blocks[v, u] == old(blocks[v, u])
    {
      ghost var ns, rs, gs := nodes[..nodeCount], restrictions[..restrictionCount], grounds[..groundCount];
      hide IsChoice, IsLast, TouchFlags, Corner, AreasOk, OfferAll, Limits;
      StartableChoice(TouchFlags(grid, ns, rs, Corner(grid, j, i)), Limits(rs), blocks[j, i].restrictionI);
      var r := OfferRestrictions(Corner(grid, j, i), blocks[j, i].restrictionI);
      blocks[j, i] := blocks[j, i].(restrictionI := r);
      if blocks[j, i].groundI == 0 {
        var g := OfferGrounds(Corner(grid, j, i));
        blocks[j, i] := blocks[j, i].(groundI := g);
      }
    }

    /** `set_map_block_area`. The indices are stored in one signed byte each. */
    method SetBlockAreas()
      requires Valid() && forall j :: 0 <= j < blocks.Length0 ==> RowStartable(j)
      requires restrictionCount <= 127 && groundCount <= 127
      modifies blocks
      ensures Valid() && Indexed() && Rasterised()
      ensures forall j, i :: 0 <= j < blocks.Length0 && 0 <= i < blocks.Length1 ==>
                Assigned(grid, nodes[..nodeCount], restrictions[..restrictionCount], grounds[..groundCount],
                         blocks[j, i], old(blocks[j, i]), j, i)
    {
      ghost var ns, rs, gs := nodes[..nodeCount], restrictions[..restrictionCount], grounds[..groundCount];
      assert forall v, u :: 0 <= v < blocks.Length0 && 0 <= u < blocks.Length1 ==>
               RowStartable(v) && Startable(grid, ns, rs, gs, blocks[v, u], v, u);
      hide Assigned, Startable, RowStartable;
      for j := 0 to blocks.Length0
        invariant forall v, u :: 0 <= v < j && 0 <= u < blocks.Length1 ==>
                    Assigned(grid, ns, rs, gs, blocks[v, u], old(blocks[v, u]), v, u)
        invariant forall v, u :: j <= v < blocks.Length0 && 0 <= u < blocks.Length1 ==>
                    blocks[v, u] == old(blocks[v, u])
      {
        for i := 0 to blocks.Length1
          invariant forall v, u :: 0 <= v <= j && 0 <= u < blocks.Length1 && (v < j || u < i) ==>
                      Assigned(grid, ns, rs, gs, blocks[v, u], old(blocks[v, u]), v, u)
          invariant forall v, u :: j <= v < blocks.Length0 && 0 <= u < blocks.Length1 && (v > j || u >= i) ==>
                      blocks[v, u] == old(blocks[v, u])
        {
          SetBlock(j, i);
        }
      }
      forall j, i | 0 <= j < grid.ny && 0 <= i < grid.nx
        ensures blocks[j, i].restrictionI <= restrictionCount
      {
        AssignedIndex(grid, ns, rs, gs, blocks[j, i], old(blocks[j, i]), j, i);
      }
      forall j, i | 0 <= j < grid.ny && 0 <= i < grid.nx
        ensures Assigned(grid, ns, rs, gs, blocks[j, i], blocks[j, i], j, i)
      {
        AssignedSelf(grid, ns, rs, gs, blocks[j, i], old(blocks[j, i]), j, i);
      }
    }

    // ---------- The obstacle queries ----------

    /** What `set_map_block_area` leaves behind for the queries: every stored index names an area. */
    ghost predicate Indexed()
      reads this`restrictionCount, restrictions, blocks
    {
      && ValidGrid(grid)
      && blocks.Length0 == grid.ny && blocks.Length1 == grid.nx
      && restrictionCount <= restrictions.Length
      && forall j, i :: 0 <= j < grid.ny && 0 <= i < grid.nx ==> blocks[j, i].restrictionI <= restrictionCount
    }

    ghost predicate CellClear(xi: int, yi: int, z: real, dz: real)
      requires Indexed() && 0 <= xi < grid.nx && 0 <= yi < grid.ny
      reads this`restrictionCount, restrictions, blocks
    {
      Clear(blocks[yi, xi], restrictions[..restrictionCount], z, dz)
    }

    /** If the point is on the map, its block is clear. */
    ghost predicate PointClear(q: Point, z: real, dz: real)
      requires Indexed()
      reads this`restrictionCount, restrictions, blocks
    {
      InGrid(grid, q) ==>
        var xi, yi := CellOf(q.x, grid.minX, grid.sizeX), CellOf(q.y, grid.minY, grid.sizeY);
        0 <= xi < grid.nx && 0 <= yi < grid.ny && CellClear(xi, yi, z, dz)
    }

    ghost predicate WindowClear(w: Window, z: real, dz: real)
      requires Indexed() && 0 <= w.x0 && 0 <= w.y0 && w.x1 < grid.nx && w.y1 < grid.ny
      reads this`restrictionCount, restrictions, blocks
    {
      forall yi, xi :: w.y0 <= yi <= w.y1 && w.x0 <= xi <= w.x1 ==> CellClear(xi, yi, z, dz)
    }

    /** The verdict on the square of half side d round (x, y). */
    ghost function Around(x: real, y: real, z: real, d: real, dz: real): Verdict
      requires Indexed()
      reads this`restrictionCount, restrictions, blocks
    {
      var w := RawWindow(grid, x, y, d);
      if OffGrid(grid, w) then Err
      else if WindowClear(Clamp(grid, w), z, dz) then Over
      else Hit
    }

    /** Some block of the grid meets the square. */
    ghost predicate OnMap(x: real, y: real, d: real) {
      exists xi: nat, yi: nat :: xi < grid.nx && yi < grid.ny && Meets(grid, x, y, d, xi, yi)
    }

    /** Some block that meets the square is not clear. */
    ghost predicate Blocked(x: real, y: real, z: real, d: real, dz: real)
      requires Indexed()
      reads this`restrictionCount, restrictions, blocks
    {
      exists xi: nat, yi: nat ::
        xi < grid.nx && yi < grid.ny && Meets(grid, x, y, d, xi, yi) && !CellClear(xi, yi, z, dz)
    }

    /** The verdict in terms of blocks and square alone: an error if no block meets the square, a hit if one
        that meets it is not clear, else RET_OVER. */
    lemma AroundMeans(x: real, y: real, z: real, d: real, dz: real)
      requires Indexed() && d >= 0.0 && grid.nx > 0 && grid.ny > 0
      ensures Around(x, y, z, d, dz)
              == if !OnMap(x, y, d) then Err else if Blocked(x, y, z, d, dz) then Hit else Over
    {
      var w := Clamp(grid, RawWindow(grid, x, y, d));
      OffGridIff(grid, x, y, d);
      hide CellClear, CellOf, RawWindow, Meets;
      forall xi: nat, yi: nat | xi < grid.nx && yi < grid.ny
        ensures InWindow(w, xi, yi) <==> Meets(grid, x, y, d, xi, yi)
      {
        WindowIsMeeting(grid, x, y, d, xi, yi);
      }
      if !OffGrid(grid, RawWindow(grid, x, y, d)) && !WindowClear(w, z, dz) {
        var yi, xi :| w.y0 <= yi <= w.y1 && w.x0 <= xi <= w.x1 && !CellClear(xi, yi, z, dz);
        assert InWindow(w, xi, yi);
        assert Meets(grid, x, y, d, xi, yi);
      }
    }

    /** `check_block_around`. */
    method CheckAround(x: real, y: real, z: real, d: real, dz: real) returns (r: Verdict)
      requires Indexed()
      ensures r == Around(x, y, z, d, dz)
      ensures d >= 0.0 && grid.nx > 0 && grid.ny > 0 ==>
                r == if !OnMap(x, y, d) then Err else if Blocked(x, y, z, d, dz) then Hit else Over
    {
      if d >= 0.0 && grid.nx > 0 && grid.ny > 0 {
        AroundMeans(x, y, z, d, dz);
      }
      hide OnMap, Blocked;
      hide CellOf, CellClear;
      var zmin := z - dz;
      var xiMin, yiMin := CellOf(x - d, grid.minX, grid.sizeX), CellOf(y - d, grid.minY, grid.sizeY);
      var xiMax, yiMax := CellOf(x + d, grid.minX, grid.sizeX), CellOf(y + d, grid.minY, grid.sizeY);
      if xiMin >= grid.nx || xiMax < 0 || yiMin >= grid.ny || yiMax < 0 {
        return Err;
      }
      if xiMin < 0 { xiMin := 0; }
      if yiMin < 0 { yiMin := 0; }
      if xiMax > grid.nx - 1 { xiMax := grid.nx - 1; }
      if yiMax > grid.ny - 1 { yiMax := grid.ny - 1; }
      ghost var w := Clamp(grid, RawWindow(grid, x, y, d));
      assert w == Window(xiMin, yiMin, xiMax, yiMax);
      var yi := yiMin;
      while yi <= yiMax
        invariant yiMin <= yi
        invariant forall v, u :: yiMin <= v < yi && v <= yiMax && xiMin <= u <= xiMax ==> CellClear(u, v, z, dz)
      {
        var xi := xiMin;
        while xi <= xiMax
          invariant xiMin <= xi
          invariant forall u :: xiMin <= u < xi && u <= xiMax ==> CellClear(u, yi, z, dz)
        {
          var blocked := IsBlocked(xi, yi, z, dz, zmin);
          if blocked {
            assert !CellClear(xi, yi, z, dz);
            return Hit;
          }
          xi := xi + 1;
        }
        yi := yi + 1;
      }
      return Over;
    }

    /** The loop body of `check_block_around`: the block's height against the lowest flight height. */
    method IsBlocked(xi: int, yi: int, z: real, ghost dz: real, zmin: real) returns (blocked: bool)
      requires Indexed() && 0 <= xi < grid.nx && 0 <= yi < grid.ny && zmin == z - dz
      ensures blocked <==> !CellClear(xi, yi, z, dz)
    {
      var blockZ := FAR;
      if blocks[yi, xi].zI > 0 {
        blockZ := blocks[yi, xi].zMaxMm as real / 1000.0;
      }
      if blocks[yi, xi].restrictionI > 0 {
        var k := blocks[yi, xi].restrictionI - 1;
        if restrictions[k].heightLimit == NO_FLY {
          blockZ := FAR;
        } else if restrictions[k].heightLimit > z {
          blockZ := restrictions[k].heightLimit;
        }
      }
      blocked := blockZ > zmin;
    }

    /** RET_OVER means that every on-map point of the square lies in a clear block. */
    lemma OverMeansSquareClear(x: real, y: real, z: real, d: real, dz: real, q: Point)
      requires Indexed() && Around(x, y, z, d, dz) == Over
      requires InSquare(q, x, y, d)
      ensures PointClear(q, z, dz)
    {
      hide CellClear, CellOf;
      if InGrid(grid, q) {
        SquareInWindow(grid, x, y, d, q);
      }
    }

    /** Every block holds the indices the areas determine: what `set_map_block_area` leaves behind. */
    ghost predicate Rasterised()
      requires Valid()
      reads this, nodes, restrictions, grounds, blocks
    {
      forall j, i :: 0 <= j < blocks.Length0 && 0 <= i < blocks.Length1 ==>
        Assigned(grid, nodes[..nodeCount], restrictions[..restrictionCount], grounds[..groundCount],
                 blocks[j, i], blocks[j, i], j, i)
    }

    /** Reader, rasteriser and query together: RET_OVER is never given for a square with a point q of a no-fly
        area in it, provided the area is as wide as a cell there and no later area outbids it in q's block. */
    lemma NoFlyIsRespected(x: real, y: real, z: real, d: real, dz: real, q: Point, j: nat, i: nat, k: nat)
      requires Valid() && Indexed() && Rasterised()
      requires InGrid(grid, q) && InSquare(q, x, y, d) && z - dz < FAR && k < restrictionCount
      requires j == CellOf(q.y, grid.minY, grid.sizeY) && i == CellOf(q.x, grid.minX, grid.sizeX)
      requires var ns, rs := nodes[..nodeCount], restrictions[..restrictionCount];
        && rs[k].heightLimit == NO_FLY && Thick(grid, Shape(ns, rs[k]), q)
        && forall k' :: k < k' < |rs| && Touches(grid, ns, rs[k'], Corner(grid, j, i)) ==> rs[k'].heightLimit <= NO_FLY
      ensures Around(x, y, z, d, dz) != Over
    {
      var ns, rs, gs := nodes[..nodeCount], restrictions[..restrictionCount], grounds[..groundCount];
      ThickIsMarked(grid, ns, rs[k], q);
      if Around(x, y, z, d, dz) == Over {
        OverMeansSquareClear(x, y, z, d, dz, q);
        hide Touches, AreaOk, AreasOk, Corner, CellOf, Around, Thick;
        NoFlyMarked(grid, ns, rs, gs, blocks[j, i], blocks[j, i], j, i, z, dz, k);
      }
    }

    /** A smaller square or a higher flight never turns RET_OVER into a hit. */
    lemma OverIsMonotone(x: real, y: real, z: real, d: real, dz: real, z': real, d': real)
      requires Indexed() && dz >= 0.0 && d' <= d && z <= z'
      requires Around(x, y, z, d, dz) == Over
      ensures Around(x, y, z', d', dz) != Hit
    {
      var w, w' := RawWindow(grid, x, y, d), RawWindow(grid, x, y, d');
      if !OffGrid(grid, w') {
        forall yi, xi | Clamp(grid, w').y0 <= yi <= Clamp(grid, w').y1 && Clamp(grid, w').x0 <= xi <= Clamp(grid, w').x1
          ensures CellClear(xi, yi, z', dz)
        {
          hide CellOf, RawWindow, Clear;
          SmallerWindow(grid, x, y, d, d', xi, yi);
          assert CellClear(xi, yi, z, dz);
          ClimbingStaysClear(blocks[yi, xi], restrictions[..restrictionCount], z, z', dz);
        }
      }
    }

    /** Everything near the line is clear, up to distance `end`: half a detection distance to each side,
        less only close to the two ends of the strip. */
    ghost predicate Swept(ray: Ray, end: real, z: real, d: real, dz: real)
      requires Indexed()
      reads this`restrictionCount, restrictions, blocks
    {
      forall t, q :: 0.0 <= t <= end && InStrip(ray, t, end, d, q) ==> PointClear(q, z, dz)
    }

    /** The verdict on the sample at distance l. */
    ghost function Sample(ray: Ray, l: real, z: real, d: real, dz: real): Verdict
      requires Indexed()
      reads this`restrictionCount, restrictions, blocks
    {
      Around(Along(ray, l).x, Along(ray, l).y, z, d, dz)
    }

    /** Every on-map point of the line up to distance `end` lies in a clear block. */
    ghost predicate LineClear(ray: Ray, end: real, z: real, dz: real)
      requires Indexed()
      reads this`restrictionCount, restrictions, blocks
    {
      forall t, q :: 0.0 <= t <= end && OnLine(ray, t, q) ==> PointClear(q, z, dz)
    }

    /** What swept means: clear is everything within m, in either coordinate, of the line's point p at t, for
        every m up to half a detection distance and up to the distance to the nearer end. */
    lemma SweptMeans(ray: Ray, end: real, z: real, d: real, dz: real, t: real, p: Point, m: real, q: Point)
      requires Indexed() && Swept(ray, end, z, d, dz)
      requires 0.0 <= t <= end && OnLine(ray, t, p)
      requires m <= t && m <= end - t && m <= d / 2.0 && InSquare(q, p.x, p.y, m)
      ensures PointClear(q, z, dz)
    {
      OnLineIs(ray, t, p);
      hide PointClear, Along, OnLine;
      assert InStrip(ray, t, end, d, q);
    }

    lemma SweptLine(ray: Ray, end: real, z: real, d: real, dz: real)
      requires Indexed() && Swept(ray, end, z, d, dz) && d > 0.0
      ensures LineClear(ray, end, z, dz)
    {
      hide PointClear, Swept, OnLine;
      forall t, q | 0.0 <= t <= end && OnLine(ray, t, q)
        ensures PointClear(q, z, dz)
      {
        SweptMeans(ray, end, z, d, dz, t, q, 0.0, q);
      }
    }

    lemma LineClearUpTo(ray: Ray, end: real, end': real, z: real, dz: real)
      requires Indexed() && LineClear(ray, end, z, dz) && end' <= end
      ensures LineClear(ray, end', z, dz)
    {
      hide PointClear, OnLine;
    }

    /** One more clear sample at l carries the swept strip on to l + d. */
    lemma SweepStep(ray: Ray, l: real, z: real, d: real, dz: real)
      requires Indexed() && UnitRay(ray) && d > 0.0
      requires l <= d || Swept(ray, l, z, d, dz)
      requires Sample(ray, l, z, d, dz) == Over
      ensures Swept(ray, l + d, z, d, dz)
    {
      var end := l + d;
      forall t, q | 0.0 <= t <= end && InStrip(ray, t, end, d, q)
        ensures PointClear(q, z, dz)
      {
        hide PointClear, Around, Along, UnitRay, CellOf;
        var m := Margin(t, end, d);
        if l <= d || l - d / 2.0 <= t {
          assert (if t <= l then l - t else t - l) + m <= d;
          SampleCovers(ray, t, m, l, d, q);
          OverMeansSquareClear(Along(ray, l).x, Along(ray, l).y, z, d, dz, q);
        } else {
          assert Margin(t, l, d) == m;
          assert InStrip(ray, t, l, d, q);
        }
      }
    }

    /** The sample at k detection distances is clear. */
    ghost predicate NthOver(ray: Ray, k: nat, z: real, d: real, dz: real)
      requires Indexed()
      reads this`restrictionCount, restrictions, blocks
    {
      Sample(ray, Nth(k, d), z, d, dz) == Over
    }

    /** Every sample before number n + 1 is one of the first n. */
    lemma FirstSamples(ray: Ray, n: nat, end: real, z: real, d: real, dz: real)
      requires Indexed() && d > 0.0
      requires forall k: nat :: 1 <= k <= n ==> NthOver(ray, k, z, d, dz)
      requires end < Nth(n + 1, d)
      ensures forall k: nat :: 1 <= k && Nth(k, d) <= end ==> NthOver(ray, k, z, d, dz)
    {
      forall k: nat | 1 <= k && Nth(k, d) <= end
        ensures NthOver(ray, k, z, d, dz)
      {
        hide NthOver;
        NthAscends(k, n + 1, d);
      }
    }

    lemma FirstFrom(ray: Ray, n: nat, end: real, z: real, d: real, dz: real, length: real)
      requires Indexed() && d > 0.0
      requires length >= d ==> end < Nth(n + 1, d)
      requires length >= d ==> forall k: nat :: 1 <= k <= n ==> NthOver(ray, k, z, d, dz)
      requires length < d ==> end < d
      ensures forall k: nat :: 1 <= k && Nth(k, d) <= end ==> NthOver(ray, k, z, d, dz)
    {
      if length >= d {
        FirstSamples(ray, n, end, z, d, dz);
      } else {
        NthStep(0, d);
        FirstSamples(ray, 0, end, z, d, dz);
      }
    }

    lemma NthIsSample(ray: Ray, k: nat, z: real, d: real, dz: real)
      requires Indexed()
      ensures NthOver(ray, k, z, d, dz) <==> Sample(ray, Nth(k, d), z, d, dz) == Over
    {
    }

    lemma SampleOnLine(ray: Ray, l: real, z: real, d: real, dz: real)
      requires Indexed()
      ensures forall p :: OnLine(ray, l, p) ==> Sample(ray, l, z, d, dz) == Around(p.x, p.y, z, d, dz)
    {
      hide Around, OnLine, Along;
      forall p | OnLine(ray, l, p)
        ensures p == Along(ray, l)
      {
        OnLineIs(ray, l, p);
      }
    }

    /** The call of `check_block_around` at distance l. */
    method SampleVerdict(ray: Ray, l: real, z: real, d: real, dz: real) returns (ret: Verdict)
      requires Indexed()
      ensures ret == Sample(ray, l, z, d, dz)
    {
      hide Along, Around;
      var p := Along(ray, l);
      ret := CheckAround(p.x, p.y, z, d, dz);
    }

    /** The sweep of `check_block_around_line` is over by sample number k: it has passed the length, or the
        sample is not clear. */
    ghost predicate OverBy(ray: Ray, k: nat, z: real, length: real, d: real, dz: real)
      requires Indexed()
      reads this`restrictionCount, restrictions, blocks
    {
      var l := (if length < d then length else d) + Nth(k, d);
      l > length || Sample(ray, l, z, d, dz) != Over
    }

    /** The sweep ends unless the detection distance is 0 and the first sample is clear: then it samples the
        same square for ever. */
    lemma SweepEndsIff(ray: Ray, z: real, length: real, d: real, dz: real)
      requires Indexed() && d >= 0.0
      ensures (exists k: nat :: OverBy(ray, k, z, length, d, dz))
              <==> d > 0.0 || Sample(ray, if length < d then length else d, z, d, dz) != Over
    {
      hide Around, Along, Sample, Nth;
      var first := if length < d then length else d;
      if d > 0.0 {
        var k := NthExceeds(length - first, d);
        assert OverBy(ray, k, z, length, d, dz);
      } else {
        forall k: nat
          ensures OverBy(ray, k, z, length, d, dz) <==> Sample(ray, first, z, d, dz) != Over
        {
          NthOfZero(k);
          assert first + Nth(k, d) == first;
        }
        assert OverBy(ray, 0, z, length, d, dz) <==> Sample(ray, first, z, d, dz) != Over;
      }
    }

    /** `check_block_around_line`, for a positive horizontal detection distance. */
    method CheckLine(ray: Ray, z: real, length: real, d: real, dz: real) returns (r: Verdict, safe: real)
      requires Indexed() && UnitRay(ray) && d > 0.0
      ensures r == Over ==> length < safe <= length + d && Swept(ray, safe, z, d, dz)
      ensures r == Over ==> LineClear(ray, length, z, dz)
      ensures r != Over ==> var l := if length < d then length else safe + d;
                safe >= 0.0 && forall p :: OnLine(ray, l, p) ==> r == Around(p.x, p.y, z, d, dz)
      ensures r != Over && length >= d ==> safe + d <= length
      ensures r != Over && length < d ==> safe == 0.0
      ensures r != Over && safe > 0.0 ==> Swept(ray, safe + d, z, d, dz) && LineClear(ray, safe + d, z, dz)
      ensures forall k: nat :: 1 <= k && Nth(k, d) <= (if r == Over then length else safe) ==>
                NthOver(ray, k, z, d, dz)
    {
      hide PointClear, Around, Along, UnitRay, Nth, Swept, Sample, NthOver, LineClear, OnLine;
      var curLen := d;
      if length < d {
        curLen := length;
      }
      ghost var first, n := curLen, 0;
      NthStep(0, d);
      while curLen <= length
        invariant length >= d ==> curLen == Nth(n + 1, d)
        invariant length < d ==> n <= 1
        invariant curLen <= length + d
        invariant if n == 0 then curLen == first
                  else curLen >= first + d && Swept(ray, curLen, z, d, dz)
        invariant length >= d ==> forall k: nat :: 1 <= k <= n ==> NthOver(ray, k, z, d, dz)
        decreases ((length - curLen) / d).Floor
      {
        var ret := SampleVerdict(ray, curLen, z, d, dz);
        if ret != Over {
          if curLen < d {
            safe := 0.0;
          } else {
            safe := curLen - d;
          }
          FirstFrom(ray, n, safe, z, d, dz, length);
          SampleOnLine(ray, curLen, z, d, dz);
          if safe > 0.0 {
            SweptLine(ray, safe + d, z, d, dz);
          }
          return ret, safe;
        }
        SweepStep(ray, curLen, z, d, dz);
        FloorDrops(length - curLen, d);
        NthStep(n + 1, d);
        NthIsSample(ray, n + 1, z, d, dz);
        n, curLen := n + 1, curLen + d;
      }
      FirstFrom(ray, n, length, z, d, dz, length);
      SweptLine(ray, curLen, z, d, dz);
      LineClearUpTo(ray, curLen, length, z, dz);
      return Over, curLen;
    }
  }
}
