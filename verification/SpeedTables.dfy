/** The two lookup tables of the flight controller: stick offset for a speed, and turn rate for a zoom. */
module SpeedTables {
  import opened Reals

  datatype SpeedPoint = SpeedPoint(speed: real, offset: int)

  const HORIZONTAL := [SpeedPoint(1.0, 165), SpeedPoint(2.0, 220), SpeedPoint(3.0, 260), SpeedPoint(4.0, 295),
                       SpeedPoint(5.0, 330), SpeedPoint(6.0, 370), SpeedPoint(7.0, 410), SpeedPoint(8.0, 450),
                       SpeedPoint(9.0, 490), SpeedPoint(10.0, 530), SpeedPoint(11.0, 570), SpeedPoint(12.0, 600),
                       SpeedPoint(13.0, 625), SpeedPoint(14.0, 645), SpeedPoint(15.0, 660)]

  const ASCEND := [SpeedPoint(1.0, 272), SpeedPoint(2.0, 378), SpeedPoint(3.0, 463),
                   SpeedPoint(4.0, 536), SpeedPoint(5.0, 603), SpeedPoint(6.0, 660)]

  const DESCEND := [SpeedPoint(1.0, 272), SpeedPoint(2.0, 378), SpeedPoint(3.0, 463),
                    SpeedPoint(4.0, 536), SpeedPoint(5.0, 603), SpeedPoint(6.0, 660)]

  /** The index whose offset is taken: the first whose speed is not exceeded, else the last. */
  function Slot(t: seq<SpeedPoint>, speed: real): (i: nat)
    requires t != []
    ensures i < |t| && forall k :: 0 <= k < i ==> t[k].speed < speed
    ensures i < |t| - 1 ==> speed <= t[i].speed
  {
    if |t| == 1 || speed <= t[0].speed then 0 else 1 + Slot(t[1..], speed)
  }

  function Offset(t: seq<SpeedPoint>, speed: real): int {
    if t == [] then 0 else t[Slot(t, speed)].offset
  }

  /** `speedToOffset`. */
  method SpeedToOffset(speed: real, t: seq<SpeedPoint>) returns (offset: int)
    ensures offset == Offset(t, speed)
  {
    if |t| == 0 { return 0; }
    for i := 0 to |t|
      invariant forall k :: 0 <= k < i ==> t[k].speed < speed
    {
      if speed <= t[i].speed {
        SlotIs(t, speed, i);
        return t[i].offset;
      }
    }
    var last := |t| - 1;
    SlotIs(t, speed, last);
    return t[last].offset;
  }

  lemma SlotIs(t: seq<SpeedPoint>, speed: real, i: nat)
    requires i < |t| && forall k :: 0 <= k < i ==> t[k].speed < speed
    requires speed <= t[i].speed || i == |t| - 1
    ensures Slot(t, speed) == i
  {
    var e, e' := t[i], t[Slot(t, speed)];
  }

  lemma SlotMonotone(t: seq<SpeedPoint>, u: real, v: real)
    requires t != [] && u <= v
    ensures Slot(t, u) <= Slot(t, v)
  {
    var e := t[Slot(t, v)];
  }

  ghost predicate OffsetsAscend(t: seq<SpeedPoint>) {
    forall i, j :: 0 <= i <= j < |t| ==> t[i].offset <= t[j].offset
  }

  /** A faster request never gets a smaller offset, and no request leaves the table's ends. */
  lemma OffsetMonotone(t: seq<SpeedPoint>, u: real, v: real)
    requires t != [] && OffsetsAscend(t) && u <= v
    ensures t[0].offset <= Offset(t, u) <= Offset(t, v) <= t[|t| - 1].offset
  {
    SlotMonotone(t, u, v);
  }

  ghost predicate SpeedsAscend(t: seq<SpeedPoint>) {
    forall i, j :: 0 <= i < j < |t| ==> t[i].speed < t[j].speed
  }

  lemma OffsetBetween(t: seq<SpeedPoint>, speed: real, i: nat)
    requires i < |t| && SpeedsAscend(t) && speed <= t[i].speed && (i > 0 ==> t[i - 1].speed < speed)
    ensures Offset(t, speed) == t[i].offset
  {
    assert i > 0 ==> forall k :: 0 <= k < i - 1 ==> t[k].speed < t[i - 1].speed;
    SlotIs(t, speed, i);
  }

  /** On strictly ascending speeds every table entry is its own answer. */
  lemma OffsetExact(t: seq<SpeedPoint>, i: nat)
    requires i < |t| && SpeedsAscend(t)
    ensures Offset(t, t[i].speed) == t[i].offset
  {
    SlotIs(t, t[i].speed, i);
  }

  /** The shipped tables are strictly ascending in speed and ascend in offset, so OffsetMonotone and
      OffsetExact hold for them. */
  lemma ShippedTables()
    ensures OffsetsAscend(HORIZONTAL) && OffsetsAscend(ASCEND) && OffsetsAscend(DESCEND)
    ensures SpeedsAscend(HORIZONTAL) && SpeedsAscend(ASCEND) && SpeedsAscend(DESCEND)
    ensures HORIZONTAL[0].offset == 165 && ASCEND[0].offset == 272 && DESCEND[0].offset == 272
  {
    ShippedSpeeds();
    hide SpeedsAscend;
    assert forall i :: 0 <= i < 14 ==> HORIZONTAL[i].offset <= HORIZONTAL[i + 1].offset;
    Chain(HORIZONTAL);
    Chain(ASCEND);
    Chain(DESCEND);
  }

  lemma ShippedSpeeds()
    ensures SpeedsAscend(HORIZONTAL) && SpeedsAscend(ASCEND) && SpeedsAscend(DESCEND)
  {
    assert forall i :: 0 <= i < 15 ==> HORIZONTAL[i].speed == (i + 1) as real;
  }

  /** Every speed gets a deflection between one and the full 660. */
  lemma ShippedOffsets(speed: real)
    ensures 0 < Offset(HORIZONTAL, speed) <= 660
    ensures 0 < Offset(ASCEND, speed) <= 660 && 0 < Offset(DESCEND, speed) <= 660
  {
    ShippedTables();
    OffsetMonotone(HORIZONTAL, speed, speed);
    OffsetMonotone(ASCEND, speed, speed);
    OffsetMonotone(DESCEND, speed, speed);
    hide OffsetsAscend, Offset;
  }

  lemma {:induction false} Chain(t: seq<SpeedPoint>)
    requires forall i :: 0 <= i < |t| - 1 ==> t[i].offset <= t[i + 1].offset
    ensures OffsetsAscend(t)
  {
    if |t| > 1 {
      var u := t[..|t| - 1];
      assert forall i :: 0 <= i < |u| ==> u[i] == t[i];
      Chain(u);
      forall i, j | 0 <= i <= j < |t|
        ensures t[i].offset <= t[j].offset
      {
        if i < j == |u| {
          assert u[i].offset <= u[j - 1].offset && t[j - 1].offset <= t[j - 1 + 1].offset;
        } else if j < |u| {
          assert u[i].offset <= u[j].offset;
        }
      }
    }
  }

  // ---------- Turn rate for a zoom factor ----------

  datatype ZoomPoint = ZoomPoint(zoom: real, speed: real)

  const ZOOM_YAW := [ZoomPoint(1.0, 72.5), ZoomPoint(2.0, 36.7), ZoomPoint(3.0, 28.4), ZoomPoint(4.0, 22.8),
                     ZoomPoint(5.0, 19.2), ZoomPoint(6.0, 16.5), ZoomPoint(7.0, 14.5), ZoomPoint(8.0, 12.9),
                     ZoomPoint(9.0, 11.9), ZoomPoint(10.0, 10.9)]

  /** Zooms strictly ascend, speeds descend: ShippedZooms shows it of the table above. */
  ghost predicate ValidZooms(t: seq<ZoomPoint>) {
    t != [] && forall i, j :: 0 <= i < j < |t| ==> t[i].zoom < t[j].zoom && t[i].speed >= t[j].speed
  }

  lemma ShippedZooms()
    ensures ValidZooms(ZOOM_YAW)
  {
  }

  lemma ZoomOrder(t: seq<ZoomPoint>, i: nat, j: nat)
    requires ValidZooms(t) && i < |t| && j < |t|
    ensures t[i].zoom < t[j].zoom <==> i < j
    ensures i <= j ==> t[i].speed >= t[j].speed
  {
  }

  /** The interpolated speed on the segment that ends at entry i. */
  function Interpolated(t: seq<ZoomPoint>, i: nat, zoom: real): real
    requires 1 <= i < |t| && t[i - 1].zoom < t[i].zoom
  {
    t[i - 1].speed + (zoom - t[i - 1].zoom) / (t[i].zoom - t[i - 1].zoom) * (t[i].speed - t[i - 1].speed)
  }

  /** The result for a zoom: a table end outside the table, else the segment the zoom lies on. */
  ghost predicate IsYawSpeed(t: seq<ZoomPoint>, zoom: real, r: real)
    requires ValidZooms(t)
  {
    if zoom <= t[0].zoom then r == t[0].speed
    else if zoom >= t[|t| - 1].zoom then r == t[|t| - 1].speed
    else exists i :: 1 <= i < |t| && t[i - 1].zoom < zoom <= t[i].zoom && r == Interpolated(t, i, zoom)
  }

  /** `yawSpeedForZoom`. */
  method YawSpeedForZoom(t: seq<ZoomPoint>, zoom: real) returns (r: real)
    requires ValidZooms(t)
    ensures IsYawSpeed(t, zoom, r)
  {
    if zoom <= t[0].zoom { return t[0].speed; }
    var back := t[|t| - 1];
    if zoom >= back.zoom { return back.speed; }
    var i := 1;
    while i < |t|
      invariant 1 <= i < |t| && t[i - 1].zoom < zoom
    {
      if zoom <= t[i].zoom {
        hide Interpolated;
        return Interpolated(t, i, zoom);
      }
      i := i + 1;
    }
    return back.speed;
  }

  /** On one segment the speed falls from its left to its right end. */
  lemma SegmentFalls(t: seq<ZoomPoint>, i: nat, u: real, v: real)
    requires ValidZooms(t) && 1 <= i < |t| && t[i - 1].zoom <= u <= v <= t[i].zoom
    ensures t[i].speed <= Interpolated(t, i, v) <= Interpolated(t, i, u) <= t[i - 1].speed
    ensures Interpolated(t, i, t[i].zoom) == t[i].speed
  {
    var span, drop := t[i].zoom - t[i - 1].zoom, t[i - 1].speed - t[i].speed;
    var f, g := (u - t[i - 1].zoom) / span, (v - t[i - 1].zoom) / span;
    Quotient(u - t[i - 1].zoom, span, f);
    Quotient(v - t[i - 1].zoom, span, g);
    FractionOf(f, span, u - t[i - 1].zoom);
    FractionOf(g, span, v - t[i - 1].zoom);
    FractionsOrdered(f, g, span, u - t[i - 1].zoom, v - t[i - 1].zoom);
    Product(f, drop);
    Product(g - f, drop);
    Product(1.0 - g, drop);
    Quotient(span, span, 1.0);
  }

  lemma SegmentOf(t: seq<ZoomPoint>, zoom: real, r: real) returns (i: nat)
    requires ValidZooms(t) && IsYawSpeed(t, zoom, r) && t[0].zoom < zoom < t[|t| - 1].zoom
    ensures 1 <= i < |t| && t[i - 1].zoom < zoom <= t[i].zoom && r == Interpolated(t, i, zoom)
  {
    hide Interpolated;
    i :| 1 <= i < |t| && t[i - 1].zoom < zoom <= t[i].zoom && r == Interpolated(t, i, zoom);
  }

  /** Between two knots the rate lies on the straight line through them. */
  lemma YawLinear(t: seq<ZoomPoint>, i: nat, zoom: real, r: real)
    requires ValidZooms(t) && 1 <= i < |t| && t[i - 1].zoom < zoom < t[i].zoom && IsYawSpeed(t, zoom, r)
    ensures (r - t[i - 1].speed) * (t[i].zoom - t[i - 1].zoom)
            == (zoom - t[i - 1].zoom) * (t[i].speed - t[i - 1].speed)
  {
    ZoomOrder(t, 0, i);
    ZoomOrder(t, i - 1, |t| - 1);
    assert r == Interpolated(t, i, zoom) by {
      hide Interpolated;
      var j := SegmentOf(t, zoom, r);
      ZoomOrder(t, j - 1, i);
      ZoomOrder(t, i - 1, j);
    }
    OnTheLine(t[i - 1].speed, zoom - t[i - 1].zoom, t[i].zoom - t[i - 1].zoom, t[i].speed - t[i - 1].speed);
  }

  lemma OnTheLine(v: real, run: real, span: real, rise: real)
    requires span > 0.0
    ensures (v + run / span * rise - v) * span == run * rise
  {
    var f := run / span;
    Quotient(run, span, f);
    assert (f * rise) * span == (f * span) * rise;
  }

  lemma YawWithinEnds(t: seq<ZoomPoint>, zoom: real, r: real)
    requires ValidZooms(t) && IsYawSpeed(t, zoom, r)
    ensures t[|t| - 1].speed <= r <= t[0].speed
  {
    hide Interpolated;
    if t[0].zoom < zoom < t[|t| - 1].zoom {
      var i :| 1 <= i < |t| && t[i - 1].zoom < zoom <= t[i].zoom && r == Interpolated(t, i, zoom);
      SegmentFalls(t, i, zoom, zoom);
    }
  }

  /** Main result: a larger zoom never turns faster, over the whole line. */
  lemma YawMonotone(t: seq<ZoomPoint>, u: real, v: real, r: real, s: real)
    requires ValidZooms(t) && u <= v && IsYawSpeed(t, u, r) && IsYawSpeed(t, v, s)
    ensures s <= r
  {
    assert t != [];
    hide Interpolated, ValidZooms, IsYawSpeed;
    YawWithinEnds(t, u, r);
    YawWithinEnds(t, v, s);
    if u <= t[0].zoom || v >= t[|t| - 1].zoom {
      YawAtEnds(t, u, r);
      YawAtEnds(t, v, s);
    } else {
      var i := SegmentOf(t, u, r);
      var j := SegmentOf(t, v, s);
      ZoomOrder(t, i - 1, j);
      if i == j {
        SegmentFalls(t, i, u, v);
      } else {
        ZoomOrder(t, i, j - 1);
        SegmentFalls(t, i, u, u);
        SegmentFalls(t, j, v, v);
      }
    }
  }

  lemma YawAtEnds(t: seq<ZoomPoint>, zoom: real, r: real)
    requires ValidZooms(t) && IsYawSpeed(t, zoom, r)
    ensures zoom <= t[0].zoom ==> r == t[0].speed
    ensures zoom >= t[|t| - 1].zoom ==> r == t[|t| - 1].speed
  {
    hide Interpolated;
  }

  /** Every table entry is its own answer. */
  lemma YawExact(t: seq<ZoomPoint>, i: nat, r: real)
    requires ValidZooms(t) && i < |t| && IsYawSpeed(t, t[i].zoom, r)
    ensures r == t[i].speed
  {
    hide Interpolated;
    if t[0].zoom < t[i].zoom < t[|t| - 1].zoom {
      var j :| 1 <= j < |t| && t[j - 1].zoom < t[i].zoom <= t[j].zoom && r == Interpolated(t, j, t[i].zoom);
      ZoomOrder(t, j - 1, i);
      ZoomOrder(t, j, i);
      SegmentFalls(t, j, t[j].zoom, t[j].zoom);
    }
  }

  /** The shipped turn rates: every zoom gets between 10.9 and 72.5 degrees a second, and each whole factor
      of the table its own rate. */
  lemma ShippedYaw(zoom: real, r: real)
    requires ValidZooms(ZOOM_YAW) && IsYawSpeed(ZOOM_YAW, zoom, r)
    ensures 10.9 <= r <= 72.5
    ensures forall i :: 0 <= i < |ZOOM_YAW| && zoom == ZOOM_YAW[i].zoom ==> r == ZOOM_YAW[i].speed
  {
    YawWithinEnds(ZOOM_YAW, zoom, r);
    forall i | 0 <= i < |ZOOM_YAW| && zoom == ZOOM_YAW[i].zoom
      ensures r == ZOOM_YAW[i].speed
    {
      YawExact(ZOOM_YAW, i, r);
    }
  }
}
