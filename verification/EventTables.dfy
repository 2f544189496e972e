/** The two-level tables between event ids and names (`decl_event.cpp`). Declaration lists serve twice: as a
    C enum, which numbers the events, and as the list the tables are built from. Two builds use one list for
    both purposes, two use different ones. */
module EventTables {

  /** DECL_BEGIN opens a segment at number z, DECL_EVENT takes the next number. */
  datatype Decl = Begin(z: nat) | Event

  datatype Index = Unknown | At(c: nat)

  /** EVENT_SEG_LEN numbers form a segment: the segment of a number and its place in it. */
  function Seg(id: nat): nat { id / 256 }

  function Off(id: nat): (o: nat)
    ensures o < 256
  {
    id % 256
  }

  lemma Parts(g: nat, o: nat)
    requires o < 256
    ensures Seg(g * 256 + o) == g && Off(g * 256 + o) == o
  {
  }

  lemma Whole(id: nat)
    ensures id == Seg(id) * 256 + Off(id)
  {
  }

  /** A declaration list the reader accepts as a whole: it starts with a segment. */
  predicate Starts(D: seq<Decl>) { D != [] && D[0].Begin? }

  // ---------- The C enum ----------

  /** The DECL_BEGIN of the segment declaration c belongs to. */
  function BeginOf(D: seq<Decl>, c: nat): (b: nat)
    requires Starts(D) && c < |D|
    ensures b <= c && D[b].Begin? && forall k :: b < k <= c ==> D[k].Event?
  {
    if D[c].Begin? then c else BeginOf(D, c - 1)
  }

  /** The enumerator's value. */
  function EnumValue(D: seq<Decl>, c: nat): nat
    requires Starts(D) && c < |D|
  {
    match D[c]
    case Begin(z) => z
    case Event => EnumValue(D, c - 1) + 1
  }

  lemma {:induction false} EnumFromBegin(D: seq<Decl>, c: nat)
    requires Starts(D) && c < |D|
    ensures EnumValue(D, c) == D[BeginOf(D, c)].z + (c - BeginOf(D, c))
  {
    if D[c].Event? {
      EnumFromBegin(D, c - 1);
    }
  }

  // ---------- The tables ----------

  /** The last segment opened with this table index before declaration n; -1 if there is none. */
  function LastBegin(D: seq<Decl>, n: nat, g: nat): (b: int)
    requires n <= |D|
    ensures -1 <= b < n
    ensures b >= 0 ==> D[b].Begin? && Seg(D[b].z) == g
    ensures forall k :: b < k < n && D[k].Begin? ==> Seg(D[k].z) != g
  {
    if n == 0 then -1
    else if D[n - 1].Begin? && Seg(D[n - 1].z) == g then n - 1
    else LastBegin(D, n - 1, g)
  }

  /** Declarations from b up to, but without, the next segment or n. */
  function Extent(D: seq<Decl>, b: nat, n: nat): (len: nat)
    requires b < n <= |D|
    ensures 1 <= len <= n - b && (forall k :: b < k < b + len ==> D[k].Event?)
    ensures b + len < n ==> D[b + len].Begin?
    decreases n - b
  {
    if b + 1 == n || D[b + 1].Begin? then 1 else 1 + Extent(D, b + 1, n)
  }

  lemma ExtentIs(D: seq<Decl>, b: nat, n: nat, len: nat)
    requires b < n <= |D| && 1 <= len <= n - b && (forall k :: b < k < b + len ==> D[k].Event?)
    requires b + len < n ==> D[b + len].Begin?
    ensures Extent(D, b, n) == len
  {
    var e := Extent(D, b, n);
    if b + e < n { var d := D[b + e]; }
    if b + len < n { var d := D[b + len]; }
  }

  /** Entry g of both tables after the first n declarations. */
  ghost predicate EntryOk(D: seq<Decl>, n: nat, g: nat, start: nat, len: nat)
    requires n <= |D|
  {
    var b := LastBegin(D, n, g);
    if b < 0 then len == 0 else start == b && len == Extent(D, b, n)
  }

  ghost predicate TablesOk(D: seq<Decl>, n: nat, segMap: seq<nat>, segLen: seq<nat>) {
    n <= |D| && |segMap| == |segLen| == 256 && forall g :: 0 <= g < 256 ==> EntryOk(D, n, g, segMap[g], segLen[g])
  }

  predicate Fits(D: seq<Decl>, n: nat)
    requires n <= |D|
  {
    forall c :: 0 <= c < n && D[c].Begin? ==> Seg(D[c].z) <= 255
  }

  lemma ExtentGrows(D: seq<Decl>, b: nat, n: nat)
    requires b < n < |D|
    ensures var len := Extent(D, b, n);
      Extent(D, b, n + 1) == if b + len == n && D[n].Event? then len + 1 else len
  {
    var len := Extent(D, b, n);
    if b + len == n && D[n].Event? {
      ExtentIs(D, b, n + 1, len + 1);
    } else {
      ExtentIs(D, b, n + 1, len);
    }
  }

  /** A segment opens: its own entry starts afresh, every other one stays. */
  lemma EntryBegin(D: seq<Decl>, n: nat, g: nat, start: nat, len: nat)
    requires Starts(D) && n < |D| && D[n].Begin? && EntryOk(D, n, g, start, len)
    ensures if Seg(D[n].z) == g then EntryOk(D, n + 1, g, n, 1) else EntryOk(D, n + 1, g, start, len)
  {
    if Seg(D[n].z) == g {
      ExtentIs(D, n, n + 1, 1);
    } else if LastBegin(D, n, g) >= 0 {
      ExtentGrows(D, LastBegin(D, n, g), n);
    }
  }

  /** An event is declared: the entry of the current segment grows, every other one stays. */
  lemma EntryEvent(D: seq<Decl>, n: nat, g: nat, start: nat, len: nat)
    requires Starts(D) && 1 <= n < |D| && D[n].Event? && EntryOk(D, n, g, start, len)
    ensures EntryOk(D, n + 1, g, start, if Seg(D[BeginOf(D, n - 1)].z) == g then len + 1 else len)
  {
    var a, b := BeginOf(D, n - 1), LastBegin(D, n, g);
    if b >= 0 {
      ExtentGrows(D, b, n);
      if b == a {
        ExtentIs(D, b, n, n - b);
      } else {
        BeginsApart(D, n, g);
      }
    }
  }

  lemma BeginsApart(D: seq<Decl>, n: nat, g: nat)
    requires Starts(D) && 1 <= n <= |D| && LastBegin(D, n, g) >= 0 && LastBegin(D, n, g) != BeginOf(D, n - 1)
    ensures LastBegin(D, n, g) + Extent(D, LastBegin(D, n, g), n) < n
    ensures Seg(D[BeginOf(D, n - 1)].z) != g
  {
    var a, b := BeginOf(D, n - 1), LastBegin(D, n, g);
    var d, e := D[a], D[b];
  }

  lemma TablesBegin(D: seq<Decl>, n: nat, m: seq<nat>, l: seq<nat>)
    requires Starts(D) && n < |D| && D[n].Begin? && Seg(D[n].z) <= 255 && TablesOk(D, n, m, l)
    ensures TablesOk(D, n + 1, m[Seg(D[n].z) := n], l[Seg(D[n].z) := 1])
  {
    var m', l', n' := m[Seg(D[n].z) := n], l[Seg(D[n].z) := 1], n + 1;
    forall g | 0 <= g < 256
      ensures EntryOk(D, n', g, m'[g], l'[g])
    {
      EntryBegin(D, n, g, m[g], l[g]);
      hide EntryOk;
    }
  }

  lemma TablesEvent(D: seq<Decl>, n: nat, m: seq<nat>, l: seq<nat>, a: nat)
    requires Starts(D) && 1 <= n < |D| && D[n].Event? && TablesOk(D, n, m, l)
    requires a == Seg(D[BeginOf(D, n - 1)].z) <= 255
    ensures TablesOk(D, n + 1, m, l[a := l[a] + 1])
  {
    hide EntryOk, BeginOf, Seg;
    var l' := l[a := l[a] + 1];
    forall g | 0 <= g < 256
      ensures EntryOk(D, n + 1, g, m[g], l'[g])
    {
      EntryEvent(D, n, g, m[g], l[g]);
    }
  }

  lemma TablesZero(D: seq<Decl>, m: seq<nat>, l: seq<nat>)
    requires |m| == |l| == 256 && (forall g :: 0 <= g < 256 ==> l[g] == 0)
    ensures TablesOk(D, 0, m, l)
  {
  }

  lemma BeginOfStep(D: seq<Decl>, c: nat)
    requires Starts(D) && c < |D|
    ensures BeginOf(D, c) == if D[c].Begin? then c else BeginOf(D, c - 1)
  {
  }

  // ---------- Lookups ----------

  datatype Id = NoId | Id(id: nat)

  /** What the tables answer for an id. */
  function Lookup(segMap: seq<nat>, segLen: seq<nat>, id: nat): Index
    requires |segMap| == |segLen| == 256
  {
    if Seg(id) >= 256 || Off(id) >= segLen[Seg(id)] then Unknown else At(segMap[Seg(id)] + Off(id))
  }

  predicate Covered(segMap: seq<nat>, segLen: seq<nat>, n: nat)
    requires |segMap| == |segLen| == 256
  {
    forall g :: 0 <= g < 256 && segLen[g] > 0 ==> segMap[g] + segLen[g] <= n
  }

  /** Position o of table entry g holds this name. */
  predicate InTable(segMap: seq<nat>, segLen: seq<nat>, names: seq<string>, name: string, g: nat, o: nat)
    requires |segMap| == |segLen| == 256 && Covered(segMap, segLen, |names|)
  {
    g < 256 && o < segLen[g] && names[segMap[g] + o] == name
  }

  /** The tables give this id this name. */
  predicate Named(segMap: seq<nat>, segLen: seq<nat>, names: seq<string>, id: nat, name: string)
    requires |segMap| == |segLen| == 256 && Covered(segMap, segLen, |names|)
  {
    var x := Lookup(segMap, segLen, id);
    x.At? && names[x.c] == name
  }

  class EventMap {
    const segMap: array<nat>
    const segLen: array<nat>

    constructor ()
      ensures fresh(segMap) && fresh(segLen) && segMap != segLen && segMap.Length == segLen.Length == 256
      ensures forall g :: 0 <= g < 256 ==> segMap[g] == segLen[g] == 0
    {
      segMap := new nat[256](_ => 0);
      segLen := new nat[256](_ => 0);
    }

    ghost predicate Valid()
      reads this
    {
      segMap != segLen && segMap.Length == segLen.Length == 256
    }

    /** `init_event_map`: false where its range assertion fires. */
    method InitEventMap(D: seq<Decl>) returns (ok: bool)
      requires Valid() && Starts(D)
      requires forall g :: 0 <= g < 256 ==> segMap[g] == segLen[g] == 0
      modifies segMap, segLen
      ensures ok <==> Fits(D, |D|)
      ensures ok ==> TablesOk(D, |D|, segMap[..], segLen[..])
    {
      hide EntryOk, BeginOf;
      var arrId: nat := 0;
      TablesZero(D, segMap[..], segLen[..]);
      for cnt: nat := 0 to |D|
        invariant Fits(D, cnt)
        invariant cnt > 0 ==> arrId == Seg(D[BeginOf(D, cnt - 1)].z) && arrId <= 255
        invariant TablesOk(D, cnt, segMap[..], segLen[..])
      {
        ghost var m, l := segMap[..], segLen[..];
        BeginOfStep(D, cnt);
        if D[cnt].Begin? {
          arrId := Seg(D[cnt].z);
          if arrId > 255 {
            return false;
          }
          TablesBegin(D, cnt, m, l);
          hide TablesOk;
          segMap[arrId] := cnt;
          segLen[arrId] := 1;
          assert segMap[..] == m[arrId := cnt] && segLen[..] == l[arrId := 1];
        } else {
          TablesEvent(D, cnt, m, l, arrId);
          hide TablesOk;
          segLen[arrId] := segLen[arrId] + 1;
          assert segMap[..] == m && segLen[..] == l[arrId := l[arrId] + 1];
        }
      }
      return true;
    }

    /** `pf_get_event_name`, as an index into the list of names. */
    method GetEventName(id: nat) returns (r: Index)
      requires Valid()
      ensures r == Lookup(segMap[..], segLen[..], id)
    {
      var seg, offset := Seg(id), Off(id);
      if seg >= 256 { return Unknown; }
      if offset >= segLen[seg] { return Unknown; }
      return At(segMap[seg] + offset);
    }

    /** `pf_get_event_id`: the first table position whose name matches; NoId is PF_RET_FAILURE. */
    method GetEventId(names: seq<string>, name: string) returns (r: Id)
      requires Valid() && Covered(segMap[..], segLen[..], |names|)
      ensures r.Id? ==>
        exists g: nat, o: nat :: InTable(segMap[..], segLen[..], names, name, g, o) && r.id == g * 256 + o
      ensures r.Id? && (forall g :: 0 <= g < 256 ==> segLen[g] <= 256) ==>
        Named(segMap[..], segLen[..], names, r.id, name)
      ensures r.NoId? ==> forall id: nat :: !Named(segMap[..], segLen[..], names, id, name)
    {
      ghost var m, l := segMap[..], segLen[..];
      for seg := 0 to 256
        invariant forall id: nat :: id < seg * 256 ==> !Named(m, l, names, id, name)
      {
        for offset := 0 to segLen[seg]
          invariant forall id: nat :: id < seg * 256 + (if offset < 256 then offset else 256) ==>
                      !Named(m, l, names, id, name)
        {
          if names[segMap[seg] + offset] == name {
            assert InTable(m, l, names, name, seg, offset);
            return Id(seg * 256 + offset);
          }
        }
      }
      return NoId;
    }
  }

  // ---------- Enum and tables agree ----------

  /** Every segment starts at a multiple of 256 and holds at most 256 numbers. */
  ghost predicate Aligned(D: seq<Decl>) {
    forall b :: 0 <= b < |D| && D[b].Begin? ==> Off(D[b].z) == 0 && Extent(D, b, |D|) <= 256
  }

  /** An aligned list in which no two segments start alike. */
  ghost predicate WellFormed(D: seq<Decl>) {
    Aligned(D) && forall a, b :: 0 <= a < b < |D| && D[a].Begin? && D[b].Begin? ==> D[a].z != D[b].z
  }

  /** The tables find every declaration under its own enumerator. */
  ghost predicate Agree(D: seq<Decl>, m: seq<nat>, l: seq<nat>)
    requires Starts(D) && |m| == |l| == 256
  {
    forall c :: 0 <= c < |D| ==> Lookup(m, l, EnumValue(D, c)) == At(c)
  }

  lemma WithinExtent(D: seq<Decl>, c: nat)
    requires Starts(D) && c < |D|
    ensures c - BeginOf(D, c) < Extent(D, BeginOf(D, c), |D|)
  {
    var b := BeginOf(D, c);
    var e := Extent(D, b, |D|);
    if b + e < |D| { var d := D[b + e]; }
  }

  /** In a well-formed list segment b owns its table entry. */
  lemma OwnEntry(D: seq<Decl>, m: seq<nat>, l: seq<nat>, b: nat)
    requires Starts(D) && Fits(D, |D|) && TablesOk(D, |D|, m, l) && WellFormed(D)
    requires b < |D| && D[b].Begin?
    ensures |m| == |l| == 256
    ensures var g := Seg(D[b].z); g < 256 && m[g] == b && l[g] == Extent(D, b, |D|) <= 256 && D[b].z == g * 256
  {
    hide Seg, Off;
    var g := Seg(D[b].z);
    var b' := LastBegin(D, |D|, g);
    assert EntryOk(D, |D|, g, m[g], l[g]);
    assert b' >= b && Seg(D[b'].z) == g && Off(D[b'].z) == 0;
    Whole(D[b].z);
    Whole(D[b'].z);
  }

  /** What the tables answer from the start of segment b on. */
  lemma SegmentLookup(D: seq<Decl>, m: seq<nat>, l: seq<nat>, b: nat, o: nat)
    requires Starts(D) && Fits(D, |D|) && TablesOk(D, |D|, m, l) && WellFormed(D)
    requires b < |D| && D[b].Begin? && o < 256
    ensures |m| == |l| == 256
    ensures Lookup(m, l, D[b].z + o) == if o < Extent(D, b, |D|) then At(b + o) else Unknown
  {
    hide *;
    OwnEntry(D, m, l, b);
    LookupWithin(m, l, Seg(D[b].z), o);
  }

  lemma LookupWithin(m: seq<nat>, l: seq<nat>, g: nat, o: nat)
    requires |m| == |l| == 256 && g < 256 && o < 256
    ensures Lookup(m, l, g * 256 + o) == if o < l[g] then At(m[g] + o) else Unknown
  {
    Parts(g, o);
    hide Seg, Off;
  }

  lemma AgreeIfWellFormed(D: seq<Decl>, m: seq<nat>, l: seq<nat>, c: nat)
    requires Starts(D) && Fits(D, |D|) && TablesOk(D, |D|, m, l) && WellFormed(D) && c < |D|
    ensures Lookup(m, l, EnumValue(D, c)) == At(c)
  {
    hide *;
    var b := BeginOf(D, c);
    EnumFromBegin(D, c);
    WithinExtent(D, c);
    OwnEntry(D, m, l, b);
    SegmentLookup(D, m, l, b, c - b);
  }

  lemma LookupFrom(D: seq<Decl>, m: seq<nat>, l: seq<nat>, id: nat)
    requires TablesOk(D, |D|, m, l) && Lookup(m, l, id).At?
    ensures Seg(id) < 256 && Off(id) < l[Seg(id)] && Lookup(m, l, id) == At(m[Seg(id)] + Off(id))
    ensures var b := m[Seg(id)]; b < |D| && D[b].Begin? && Seg(D[b].z) == Seg(id) && l[Seg(id)] == Extent(D, b, |D|)
  {
    hide Seg, Off;
    assert EntryOk(D, |D|, Seg(id), m[Seg(id)], l[Seg(id)]);
  }

  lemma TailOfSegment(D: seq<Decl>, b: nat, c: nat)
    requires Starts(D) && b < |D| && D[b].Begin? && b <= c < b + Extent(D, b, |D|)
    ensures c < |D| && BeginOf(D, c) == b && (c > b ==> D[c].Event?)
  {
    var d := D[BeginOf(D, c)];
  }

  /** Declaration 256 of an over-long segment is not found: its number starts a table entry, and no table
      entry starts at it. */
  lemma LongSegmentMissed(D: seq<Decl>, m: seq<nat>, l: seq<nat>, b: nat)
    requires Starts(D) && TablesOk(D, |D|, m, l)
    requires b < |D| && D[b].Begin? && Off(D[b].z) == 0 && Extent(D, b, |D|) > 256
    ensures b + 256 < |D| && Lookup(m, l, EnumValue(D, b + 256)) != At(b + 256)
  {
    hide Seg, Off;
    var c, g := b + 256, Seg(D[b].z) + 1;
    TailOfSegment(D, b, c);
    EnumFromBegin(D, c);
    Whole(D[b].z);
    Parts(g, 0);
    if g < 256 {
      assert EntryOk(D, |D|, g, m[g], l[g]);
    }
  }

  /** What agreement forces on one segment. */
  lemma SegmentForced(D: seq<Decl>, m: seq<nat>, l: seq<nat>, b: nat)
    requires Starts(D) && Fits(D, |D|) && TablesOk(D, |D|, m, l) && Agree(D, m, l)
    requires b < |D| && D[b].Begin?
    ensures Off(D[b].z) == 0 && LastBegin(D, |D|, Seg(D[b].z)) == b && Extent(D, b, |D|) <= 256
  {
    hide Seg, Off;
    var g := Seg(D[b].z);
    assert EntryOk(D, |D|, g, m[g], l[g]);
    assert Lookup(m, l, EnumValue(D, b)) == At(b);
    assert LastBegin(D, |D|, g) >= b;
    if Extent(D, b, |D|) > 256 {
      LongSegmentMissed(D, m, l, b);
    }
  }

  /** Main result: the tables find every event under its enumerator exactly when the list is well formed. */
  lemma AgreeIff(D: seq<Decl>, m: seq<nat>, l: seq<nat>)
    requires Starts(D) && Fits(D, |D|) && TablesOk(D, |D|, m, l)
    ensures Agree(D, m, l) <==> WellFormed(D)
  {
    if WellFormed(D) {
      forall c | 0 <= c < |D| ensures Lookup(m, l, EnumValue(D, c)) == At(c) {
        AgreeIfWellFormed(D, m, l, c);
      }
    }
    if Agree(D, m, l) {
      forall b | 0 <= b < |D| && D[b].Begin?
        ensures Off(D[b].z) == 0 && Extent(D, b, |D|) <= 256 && LastBegin(D, |D|, Seg(D[b].z)) == b
      {
        SegmentForced(D, m, l, b);
      }
    }
  }

  lemma EnumeratorOf(D: seq<Decl>, m: seq<nat>, l: seq<nat>, b: nat, o: nat)
    requires Starts(D) && Fits(D, |D|) && TablesOk(D, |D|, m, l) && WellFormed(D)
    requires b < |D| && D[b].Begin? && o < Extent(D, b, |D|)
    ensures b + o < |D| && EnumValue(D, b + o) == Seg(D[b].z) * 256 + o
  {
    hide *;
    TailOfSegment(D, b, b + o);
    EnumFromBegin(D, b + o);
    assert D[b].z == Seg(D[b].z) * 256 by { OwnEntry(D, m, l, b); }
  }

  /** Where an answered id stands: at its offset in the segment that owns its table entry. */
  lemma AnswerIn(D: seq<Decl>, m: seq<nat>, l: seq<nat>, id: nat) returns (b: nat, o: nat)
    requires Starts(D) && Fits(D, |D|) && TablesOk(D, |D|, m, l) && WellFormed(D) && Lookup(m, l, id).At?
    ensures b < |D| && D[b].Begin? && o < Extent(D, b, |D|)
    ensures Lookup(m, l, id) == At(b + o) && id == Seg(D[b].z) * 256 + o
  {
    LookupFrom(D, m, l, id);
    Whole(id);
    b, o := m[Seg(id)], Off(id);
    hide *;
  }

  lemma EnumeratorAnswered(D: seq<Decl>, m: seq<nat>, l: seq<nat>, id: nat)
    requires Starts(D) && Fits(D, |D|) && TablesOk(D, |D|, m, l) && WellFormed(D) && Lookup(m, l, id).At?
    ensures Lookup(m, l, id).c < |D| && EnumValue(D, Lookup(m, l, id).c) == id
  {
    var b, o := AnswerIn(D, m, l, id);
    var x := Lookup(m, l, id);
    hide *;
    assert x == At(b + o) && o < Extent(D, b, |D|);
    EnumeratorOf(D, m, l, b, o);
  }

  /** Every other id is unknown: an id the tables answer is the enumerator of the answer. */
  lemma OnlyEnumerators(D: seq<Decl>, m: seq<nat>, l: seq<nat>, id: nat)
    requires Starts(D) && Fits(D, |D|) && TablesOk(D, |D|, m, l) && WellFormed(D)
    ensures Lookup(m, l, id).At? ==> Lookup(m, l, id).c < |D| && EnumValue(D, Lookup(m, l, id).c) == id
  {
    if Lookup(m, l, id).At? {
      EnumeratorAnswered(D, m, l, id);
    }
  }

  lemma TablesCovered(D: seq<Decl>, m: seq<nat>, l: seq<nat>, n: nat)
    requires TablesOk(D, |D|, m, l) && |D| <= n
    ensures |m| == |l| == 256 && Covered(m, l, n)
  {
    forall g | 0 <= g < 256 && l[g] > 0 ensures m[g] + l[g] <= |D| {
      assert EntryOk(D, |D|, g, m[g], l[g]);
    }
  }

  /** With distinct names the two lookups are inverse: an event's name belongs to its enumerator only. */
  lemma NamesInverse(D: seq<Decl>, m: seq<nat>, l: seq<nat>, names: seq<string>, c: nat, id: nat)
    requires Starts(D) && Fits(D, |D|) && TablesOk(D, |D|, m, l) && WellFormed(D)
    requires |D| <= |names| && (forall i, j :: 0 <= i < j < |D| ==> names[i] != names[j]) && c < |D|
    ensures Covered(m, l, |names|)
    ensures Named(m, l, names, id, names[c]) <==> id == EnumValue(D, c)
  {
    TablesCovered(D, m, l, |names|);
    OnlyEnumerators(D, m, l, id);
    AgreeIfWellFormed(D, m, l, c);
  }

  /** The number LAST_EVENT gets, one past the last enumerator. */
  function LastEvent(D: seq<Decl>): nat
    requires Starts(D)
  {
    EnumValue(D, |D| - 1) + 1
  }

  /** The tables do not know LAST_EVENT, unless a full last segment makes it the start of another one. */
  lemma LastEventUnknownIff(D: seq<Decl>, m: seq<nat>, l: seq<nat>)
    requires Starts(D) && Fits(D, |D|) && TablesOk(D, |D|, m, l) && WellFormed(D)
    ensures Lookup(m, l, LastEvent(D)) == Unknown <==>
              forall b :: 0 <= b < |D| && D[b].Begin? ==> D[b].z != LastEvent(D)
  {
    var n, id := |D| - 1, LastEvent(D);
    var last := BeginOf(D, n);
    EnumFromBegin(D, n);
    WithinExtent(D, n);
    OwnEntry(D, m, l, last);
    hide Lookup, LastBegin, EntryOk, BeginOf, EnumValue, WellFormed, Seg, Off, Fits;
    if Lookup(m, l, id).At? {
      var b, o := AnswerIn(D, m, l, id);
      OwnEntry(D, m, l, b);
      assert o == 0;
    }
    if b: nat :| b < |D| && D[b].Begin? && D[b].z == id {
      SegmentLookup(D, m, l, b, 0);
    }
  }

  // ---------- An enum and tables from different lists ----------

  /** The tables built from T give each event of E, under E's own enumerator, E's name for it. */
  ghost predicate NamesAgree(E: seq<Decl>, enumNames: seq<string>, m: seq<nat>, l: seq<nat>, names: seq<string>)
    requires Starts(E) && |E| <= |enumNames| && |m| == |l| == 256 && Covered(m, l, |names|)
  {
    forall c :: 0 <= c < |E| ==> Named(m, l, names, EnumValue(E, c), enumNames[c])
  }

  predicate SameName(enumNames: seq<string>, b: nat, names: seq<string>, t: nat, o: nat) {
    b + o < |enumNames| && t + o < |names| && names[t + o] == enumNames[b + o]
  }

  /** Segment t of T starts at the number of segment b of E and begins with the same names. */
  ghost predicate Carries(E: seq<Decl>, enumNames: seq<string>, b: nat, T: seq<Decl>, names: seq<string>, t: nat)
    requires b < |E| && t < |T|
  {
    && E[b].Begin? && T[t] == E[b] && Extent(E, b, |E|) <= Extent(T, t, |T|)
    && forall o :: 0 <= o < Extent(E, b, |E|) ==> SameName(enumNames, b, names, t, o)
  }

  /** Every segment of E is carried by T. */
  ghost predicate AllCarried(E: seq<Decl>, enumNames: seq<string>, T: seq<Decl>, names: seq<string>)
    requires |E| <= |enumNames| && |T| <= |names|
  {
    forall b :: 0 <= b < |E| && E[b].Begin? ==> exists t :: 0 <= t < |T| && Carries(E, enumNames, b, T, names, t)
  }

  lemma AlignedAt(D: seq<Decl>, b: nat)
    requires Aligned(D) && b < |D| && D[b].Begin?
    ensures Off(D[b].z) == 0 && Extent(D, b, |D|) <= 256
  {
  }

  lemma AgreeAt(E: seq<Decl>, enumNames: seq<string>, m: seq<nat>, l: seq<nat>, names: seq<string>, c: nat)
    requires Starts(E) && c < |E| <= |enumNames| && |m| == |l| == 256 && Covered(m, l, |names|)
    requires NamesAgree(E, enumNames, m, l, names)
    ensures Named(m, l, names, EnumValue(E, c), enumNames[c]) && Lookup(m, l, EnumValue(E, c)).At?
  {
    hide Lookup, Covered, EnumValue;
  }

  lemma SameNameIf(enumNames: seq<string>, b: nat, names: seq<string>, t: nat, o: nat)
    requires b + o < |enumNames| && t + o < |names| && names[t + o] == enumNames[b + o]
    ensures SameName(enumNames, b, names, t, o)
  {
  }

  lemma NamedFrom(m: seq<nat>, l: seq<nat>, names: seq<string>, id: nat, c: nat, name: string)
    requires |m| == |l| == 256 && Covered(m, l, |names|) && Lookup(m, l, id) == At(c)
    ensures c < |names| && (Named(m, l, names, id, name) <==> names[c] == name)
  {
  }

  lemma CarriesAt(E: seq<Decl>, enumNames: seq<string>, b: nat, T: seq<Decl>, names: seq<string>, t: nat, o: nat)
    requires b < |E| && t < |T| && Carries(E, enumNames, b, T, names, t) && o < Extent(E, b, |E|)
    ensures T[t] == E[b] && T[t].Begin? && o < Extent(T, t, |T|)
    ensures b + o < |enumNames| && t + o < |names| && names[t + o] == enumNames[b + o]
  {
    assert SameName(enumNames, b, names, t, o);
  }

  lemma CarriedNamed(E: seq<Decl>, enumNames: seq<string>, T: seq<Decl>, names: seq<string>,
                     m: seq<nat>, l: seq<nat>, c: nat, t: nat)
    requires Starts(E) && c < |E| <= |enumNames| && Aligned(E)
    requires Starts(T) && Fits(T, |T|) && TablesOk(T, |T|, m, l) && WellFormed(T) && t < |T| <= |names|
    requires Carries(E, enumNames, BeginOf(E, c), T, names, t)
    ensures Covered(m, l, |names|) && Named(m, l, names, EnumValue(E, c), enumNames[c])
  {
    hide *;
    var b := BeginOf(E, c);
    EnumFromBegin(E, c);
    WithinExtent(E, c);
    AlignedAt(E, b);
    TablesCovered(T, m, l, |names|);
    CarriesAt(E, enumNames, b, T, names, t, c - b);
    SegmentLookup(T, m, l, t, c - b);
    NamedFrom(m, l, names, EnumValue(E, c), t + (c - b), enumNames[c]);
  }

  lemma NamedAt(E: seq<Decl>, enumNames: seq<string>, T: seq<Decl>, names: seq<string>,
                m: seq<nat>, l: seq<nat>, b: nat, t: nat, o: nat)
    requires Starts(E) && b < |E| <= |enumNames| && E[b].Begin? && Aligned(E) && o < Extent(E, b, |E|)
    requires Starts(T) && Fits(T, |T|) && TablesOk(T, |T|, m, l) && WellFormed(T) && t < |T| <= |names|
    requires Covered(m, l, |names|) && NamesAgree(E, enumNames, m, l, names) && T[t] == E[b]
    ensures o < Extent(T, t, |T|) && SameName(enumNames, b, names, t, o)
  {
    hide *;
    AlignedAt(E, b);
    TailOfSegment(E, b, b + o);
    EnumFromBegin(E, b + o);
    SegmentLookup(T, m, l, t, o);
    AgreeAt(E, enumNames, m, l, names, b + o);
    NamedFrom(m, l, names, EnumValue(E, b + o), t + o, enumNames[b + o]);
    SameNameIf(enumNames, b, names, t, o);
  }

  lemma NamedCarried(E: seq<Decl>, enumNames: seq<string>, T: seq<Decl>, names: seq<string>,
                     m: seq<nat>, l: seq<nat>, b: nat)
    requires Starts(E) && b < |E| <= |enumNames| && E[b].Begin? && Aligned(E)
    requires Starts(T) && Fits(T, |T|) && TablesOk(T, |T|, m, l) && WellFormed(T) && |T| <= |names|
    requires Covered(m, l, |names|) && NamesAgree(E, enumNames, m, l, names)
    ensures exists t :: 0 <= t < |T| && Carries(E, enumNames, b, T, names, t)
  {
    hide *;
    AlignedAt(E, b);
    var t := StartNamed(E, enumNames, T, names, m, l, b);
    NamedAt(E, enumNames, T, names, m, l, b, t, Extent(E, b, |E|) - 1);
    forall o | 0 <= o < Extent(E, b, |E|)
      ensures SameName(enumNames, b, names, t, o)
    {
      NamedAt(E, enumNames, T, names, m, l, b, t, o);
    }
    CarriesIf(E, enumNames, b, T, names, t);
  }

  lemma CarriesIf(E: seq<Decl>, enumNames: seq<string>, b: nat, T: seq<Decl>, names: seq<string>, t: nat)
    requires b < |E| && t < |T| && E[b].Begin? && T[t] == E[b] && Extent(E, b, |E|) <= Extent(T, t, |T|)
    requires forall o :: 0 <= o < Extent(E, b, |E|) ==> SameName(enumNames, b, names, t, o)
    ensures Carries(E, enumNames, b, T, names, t)
  {
  }

  /** The segment of T that owns the table entry of segment b of E. */
  lemma StartNamed(E: seq<Decl>, enumNames: seq<string>, T: seq<Decl>, names: seq<string>,
                   m: seq<nat>, l: seq<nat>, b: nat) returns (t: nat)
    requires Starts(E) && b < |E| <= |enumNames| && E[b].Begin? && Off(E[b].z) == 0
    requires Starts(T) && Fits(T, |T|) && TablesOk(T, |T|, m, l) && WellFormed(T) && |T| <= |names|
    requires Covered(m, l, |names|) && NamesAgree(E, enumNames, m, l, names)
    ensures t < |T| && T[t] == E[b]
  {
    assert EnumValue(E, b) == E[b].z;
    assert Named(m, l, names, EnumValue(E, b), enumNames[b]);
    hide Lookup, Covered, NamesAgree, EntryOk, EnumValue;
    var o: nat;
    t, o := AnswerIn(T, m, l, E[b].z);
    OwnEntry(T, m, l, t);
    Parts(Seg(T[t].z), o);
  }

  /** Main result for the builds with two lists: the tables give every enumerator its own name exactly when
      they carry every segment of the enum. */
  lemma NamesAgreeIff(E: seq<Decl>, enumNames: seq<string>, T: seq<Decl>, names: seq<string>, m: seq<nat>, l: seq<nat>)
    requires Starts(E) && |E| <= |enumNames| && Aligned(E)
    requires Starts(T) && Fits(T, |T|) && TablesOk(T, |T|, m, l) && WellFormed(T) && |T| <= |names|
    ensures Covered(m, l, |names|)
    ensures NamesAgree(E, enumNames, m, l, names) <==> AllCarried(E, enumNames, T, names)
  {
    TablesCovered(T, m, l, |names|);
    hide Named, Carries, Aligned, WellFormed, EntryOk, Fits, EnumValue, BeginOf;
    if AllCarried(E, enumNames, T, names) {
      forall c | 0 <= c < |E|
        ensures Named(m, l, names, EnumValue(E, c), enumNames[c])
      {
        var t :| 0 <= t < |T| && Carries(E, enumNames, BeginOf(E, c), T, names, t);
        CarriedNamed(E, enumNames, T, names, m, l, c, t);
      }
    }
    if NamesAgree(E, enumNames, m, l, names) {
      forall b | 0 <= b < |E| && E[b].Begin?
        ensures exists t :: 0 <= t < |T| && Carries(E, enumNames, b, T, names, t)
      {
        NamedCarried(E, enumNames, T, names, m, l, b);
      }
    }
  }

  ghost predicate Enumerates(D: seq<Decl>, id: nat)
    requires Starts(D)
  {
    exists c :: 0 <= c < |D| && EnumValue(D, c) == id
  }

  ghost predicate OthersUnknown(E: seq<Decl>, m: seq<nat>, l: seq<nat>)
    requires Starts(E) && |m| == |l| == 256
  {
    forall id: nat :: Lookup(m, l, id).At? ==> Enumerates(E, id)
  }

  ghost predicate NumbersWithin(T: seq<Decl>, E: seq<Decl>)
    requires Starts(T) && Starts(E)
  {
    forall k :: 0 <= k < |T| ==> Enumerates(E, EnumValue(T, k))
  }

  /** Every id that is no enumerator of E is unknown exactly when T numbers no event as E does not. */
  lemma OthersUnknownIff(E: seq<Decl>, T: seq<Decl>, m: seq<nat>, l: seq<nat>)
    requires Starts(E) && Starts(T) && Fits(T, |T|) && TablesOk(T, |T|, m, l) && WellFormed(T)
    ensures OthersUnknown(E, m, l) <==> NumbersWithin(T, E)
  {
    hide Lookup, WellFormed, EntryOk, Fits, EnumValue, Enumerates;
    if OthersUnknown(E, m, l) {
      forall k | 0 <= k < |T|
        ensures Enumerates(E, EnumValue(T, k))
      {
        AgreeIfWellFormed(T, m, l, k);
      }
    }
    if NumbersWithin(T, E) {
      forall id: nat | Lookup(m, l, id).At?
        ensures Enumerates(E, id)
      {
        OnlyEnumerators(T, m, l, id);
      }
    }
  }

  /** The default build: its enum opens segment 2048 with the r4 list, its tables with the older one, so
      some enumerators get another event's name. */
  lemma DefaultBuildDisagrees(E: seq<Decl>, enumNames: seq<string>, T: seq<Decl>, names: seq<string>,
                              m: seq<nat>, l: seq<nat>, b: nat)
    requires Starts(E) && |E| <= |enumNames| && Aligned(E)
    requires Starts(T) && Fits(T, |T|) && TablesOk(T, |T|, m, l) && WellFormed(T) && |T| <= |names|
    requires b < |E| - 1 && E[b] == Begin(2048) && E[b + 1].Event? && enumNames[b + 1] == "DRC_CRM_EVENT_IND"
    requires forall t :: 0 <= t < |T| - 1 && T[t] == Begin(2048) ==> names[t + 1] == "DRC_CRM_DRC_SWUPDATE_RSP"
    ensures Covered(m, l, |names|) && !NamesAgree(E, enumNames, m, l, names)
  {
    hide *;
    TablesCovered(T, m, l, |names|);
    if NamesAgree(E, enumNames, m, l, names) {
      NamedCarried(E, enumNames, T, names, m, l, b);
      var t :| 0 <= t < |T| && Carries(E, enumNames, b, T, names, t);
      CarriesAt(E, enumNames, b, T, names, t, 1);
    }
  }
}
