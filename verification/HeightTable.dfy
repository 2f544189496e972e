/** The table of ground heights sorted by x, and the jumping search over it
    (`pf_map_get_utm_z_by_xy`). */
module HeightTable {
  import opened Grid

  datatype Entry = Entry(x: int, y: int, z: real)

  /** The source's PF_MAP_ERR is None. */
  datatype Height = None | Some(z: real)

  ghost predicate SortedByX(t: seq<Entry>) {
    forall i, j :: 0 <= i < j < |t| ==> t[i].x <= t[j].x
  }

  predicate Matches(e: Entry, qx: int, qy: int) { e.x == qx && e.y == qy }

  /** An answer to the query: the height of some matching entry, or an error when there is none. */
  ghost predicate Answers(t: seq<Entry>, qx: int, qy: int, r: Height) {
    match r
    case Some(z) => exists i :: 0 <= i < |t| && Matches(t[i], qx, qy) && t[i].z == z
    case None => forall i :: 0 <= i < |t| ==> !Matches(t[i], qx, qy)
  }

  /** The plain linear scan. */
  function Linear(t: seq<Entry>, qx: int, qy: int): Height {
    if t == [] then None
    else if Matches(t[0], qx, qy) then Some(t[0].z)
    else Linear(t[1..], qx, qy)
  }

  lemma {:induction false} LinearAnswers(t: seq<Entry>, qx: int, qy: int)
    ensures Answers(t, qx, qy, Linear(t, qx, qy))
  {
    if t != [] && !Matches(t[0], qx, qy) {
      LinearAnswers(t[1..], qx, qy);
      assert forall i :: 1 <= i < |t| ==> t[i] == t[1..][i - 1];
      assert forall i :: 0 <= i < |t| - 1 ==> t[1..][i] == t[i + 1];
    }
  }

  /** Any answer errs exactly when the linear scan does, and is the linear scan's answer wherever no
      two entries share their coordinates but not their height. */
  lemma AnswersAsLinear(t: seq<Entry>, qx: int, qy: int, r: Height)
    requires Answers(t, qx, qy, r)
    ensures r.None? <==> Linear(t, qx, qy).None?
    ensures (forall i, j :: 0 <= i < |t| && 0 <= j < |t| && t[i].x == t[j].x && t[i].y == t[j].y ==> t[i].z == t[j].z)
            ==> r == Linear(t, qx, qy)
  {
    LinearAnswers(t, qx, qy);
  }

  // ---------- Where the jumps lead ----------

  /** One turn of the outer loop while the entry's x is still too small. */
  function Jump(t: seq<Entry>, stride: int, qx: int, i: nat): nat
    requires i < |t| && t[i].x < qx && stride >= 1
  {
    Far(qx - t[i].x, stride);
    var i' := i + (qx - t[i].x) * stride;
    if i' >= |t| then |t| - 1 else i'
  }

  lemma Far(step: int, stride: int)
    requires step >= 1 && stride >= 1
    ensures step * stride >= 1
  {
  }

  /** The index after k turns; a turn that leaves the outer loop stays where it is. */
  function Turns(t: seq<Entry>, stride: int, qx: int, k: nat): (i: nat)
    requires |t| > 0 && stride >= 1
    ensures i < |t|
  {
    if k == 0 then 0
    else
      var i := Turns(t, stride, qx, k - 1);
      if t[i].x < qx then Jump(t, stride, qx, i) else i
  }

  lemma {:induction false} TurnsAdvance(t: seq<Entry>, stride: int, qx: int, k: nat)
    requires |t| > 0 && stride >= 1
    ensures var i := Turns(t, stride, qx, k); t[i].x >= qx || i >= k || i == |t| - 1
  {
    if k > 0 {
      TurnsAdvance(t, stride, qx, k - 1);
      var i := Turns(t, stride, qx, k - 1);
      if t[i].x < qx {
        Far(qx - t[i].x, stride);
      }
    }
  }

  /** Main result on termination: on a sorted table the outer loop is left exactly when the query
      does not lie beyond the last x. */
  lemma LeavesIff(t: seq<Entry>, stride: int, qx: int)
    requires |t| > 0 && stride >= 1 && SortedByX(t)
    ensures (exists k: nat :: t[Turns(t, stride, qx, k)].x >= qx) <==> qx <= t[|t| - 1].x
  {
    TurnsAdvance(t, stride, qx, |t|);
    if qx > t[|t| - 1].x {
      forall k: nat
        ensures t[Turns(t, stride, qx, k)].x < qx
      {
        var i := Turns(t, stride, qx, k);
        assert i < |t| - 1 ==> t[i].x <= t[|t| - 1].x;
      }
    }
  }

  /** `pf_map_get_utm_z_by_xy`, for queries that do not lie beyond the last x. */
  method GetUtmZ(table: array<Entry>, count: nat, stride: int, utmX: real, utmY: real) returns (r: Height)
    requires count <= table.Length && SortedByX(table[..count]) && stride >= 1
    requires count > 0 ==> Trunc(utmX) <= table[count - 1].x
    ensures Answers(table[..count], Trunc(utmX), Trunc(utmY), r)
  {
    var qx, qy := Trunc(utmX), Trunc(utmY);
    hide Trunc;
    var i := 0;
    while i < count
      invariant 0 <= i <= count
      invariant count > 0 ==> i < count
      decreases count - i
    {
      var step := qx - table[i].x;
      if step > 0 {
        Far(step, stride);
        i := i + step * stride;
        if i >= count {
          i := count - 1;
        }
        continue;
      }
      step := i;
      if table[i].x == qx {
        while i < count
          invariant step <= i <= count
          invariant forall k :: step <= k < i ==> !Matches(table[k], qx, qy)
        {
          if table[i].x > qx {
            break;
          } else if table[i].x == qx && table[i].y == qy {
            assert table[..count][i] == table[i];
            return Some(table[i].z);
          }
          i := i + 1;
        }
      }
      assert forall k :: step <= k < count ==> !Matches(table[..count][k], qx, qy);
      i := step - 1;
      while i >= 0
        invariant -1 <= i < step
        invariant forall k :: i < k < count ==> !Matches(table[..count][k], qx, qy)
      {
        if table[i].x < qx {
          return None;
        } else if table[i].x == qx && table[i].y == qy {
          assert table[..count][i] == table[i];
          return Some(table[i].z);
        }
        i := i - 1;
      }
      return None;
    }
    return None;
  }

  // ---------- The stride ----------

  /** The stride the file reader computes over the entries read; Undefined where it divides by zero. */
  datatype Stride = Undefined | Every(n: int)

  function StrideOf(t: seq<Entry>): Stride
    requires t != []
  {
    var span := (t[|t| - 1].x - t[0].x) % 0x1_0000_0000;
    if span == 0 then Undefined
    else
      var n := |t| / span;
      Every(if n < 1 then 1 else n)
  }

  lemma StrideBounds(count: nat, span: int)
    requires count > 0 && span > 0
    ensures var n := if count / span < 1 then 1 else count / span;
      n >= 1 && (n > 1 ==> n * span <= count) && count < (n + 1) * span
  {
    var q, r := count / span, count % span;
    assert q * span + r == count;
    assert (q + 1) * span == q * span + span;
    if q < 1 {
      assert q == 0 && (1 + 1) * span == span + span;
    }
  }

  /** On a sorted table spanning less than 2^32 the stride exists exactly when x is not constant, and is
      then a legal one for the search. */
  lemma StrideLegal(t: seq<Entry>)
    requires t != [] && SortedByX(t) && t[|t| - 1].x - t[0].x < 0x1_0000_0000
    ensures StrideOf(t).Every? <==> exists i, j :: 0 <= i < |t| && 0 <= j < |t| && t[i].x != t[j].x
    ensures StrideOf(t).Every? ==> var n, span := StrideOf(t).n, t[|t| - 1].x - t[0].x;
              n >= 1 && (n > 1 ==> n * span <= |t|) && |t| < (n + 1) * span
  {
    var n := |t| - 1;
    assert n > 0 ==> t[0].x <= t[n].x;
    var span := t[n].x - t[0].x;
    assert span % 0x1_0000_0000 == span;
    if span == 0 {
      forall i | 0 <= i < |t| ensures t[i].x == t[0].x {
        assert i > 0 ==> t[0].x <= t[i].x;
        assert i < n ==> t[i].x <= t[n].x;
      }
    } else {
      StrideBounds(|t|, span);
      assert t[0].x != t[n].x;
    }
  }
}
