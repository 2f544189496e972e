/** The fuzzy distance between licence plates and its table of similar characters
    (`IniHanmingDistanceMap.cpp`). */
module PlateDistance {

  type Similar = map<(string, string), real>

  /** One configured character with the characters it resembles. */
  datatype Letter = Letter(s: string, apps: seq<App>)

  datatype App = App(s: string, value: real)

  ghost predicate Symmetric(m: Similar) {
    forall a, b :: (a, b) in m ==> (b, a) in m && m[(b, a)] == m[(a, b)]
  }

  /** std::map::insert: an existing entry stays. */
  function Insert(m: Similar, k: (string, string), v: real): Similar {
    if k in m then m else m[k := v]
  }

  // ---------- Loading ----------

  /** Positions j, ..., n - 1 of a letter. */
  function Positions(letter: nat, j: nat, n: nat): seq<(nat, nat)>
    decreases n - j
  {
    if j >= n then [] else [(letter, j)] + Positions(letter, j + 1, n)
  }

  /** The entries (letter, position) the two loops visit from outer index i on, in order: the inner loop
      counts in the outer loop's variable. */
  function Visits(config: seq<Letter>, i: nat): seq<(nat, nat)>
    decreases |config| - i
  {
    if i >= |config| then []
    else
      var n := |config[i].apps|;
      if i < n then Positions(i, i, n) + Visits(config, n + 1)
      else Visits(config, i + 1)
  }

  predicate IsEntry(config: seq<Letter>, i: nat, j: nat) { i < |config| && j < |config[i].apps| }

  /** The pair of characters an entry makes similar. */
  function PairAt(config: seq<Letter>, i: nat, j: nat): (string, string)
    requires IsEntry(config, i, j)
  {
    (config[i].s, config[i].apps[j].s)
  }

  function Swap(k: (string, string)): (string, string) { (k.1, k.0) }

  /** The entry makes k similar, in one of its two orders. */
  predicate PairOf(config: seq<Letter>, e: (nat, nat), k: (string, string)) {
    IsEntry(config, e.0, e.1) && (k == PairAt(config, e.0, e.1) || Swap(k) == PairAt(config, e.0, e.1))
  }

  /** The first of the entries that makes k similar; their number if none does. */
  function First(config: seq<Letter>, es: seq<(nat, nat)>, k: (string, string)): (n: nat)
    ensures n <= |es| && (n < |es| ==> PairOf(config, es[n], k))
    ensures forall i :: 0 <= i < n ==> !PairOf(config, es[i], k)
  {
    if es == [] then 0
    else
      var n := First(config, es[..|es| - 1], k);
      if n < |es| - 1 || PairOf(config, es[|es| - 1], k) then n else |es|
  }

  lemma FirstStep(config: seq<Letter>, es: seq<(nat, nat)>, e: (nat, nat), k: (string, string))
    ensures var n := First(config, es, k);
      First(config, es + [e], k) == if n < |es| || PairOf(config, e, k) then n else |es| + 1
  {
    assert (es + [e])[..|es|] == es;
  }

  /** The table after these entries: each pair has the value of the first entry that makes it similar. */
  ghost predicate Holds(config: seq<Letter>, es: seq<(nat, nat)>, m: Similar) {
    forall k ::
      var n := First(config, es, k);
      && (k in m <==> n < |es|)
      && (k in m ==> m[k] == config[es[n].0].apps[es[n].1].value)
  }

  lemma {:induction false} SwapFirst(config: seq<Letter>, es: seq<(nat, nat)>, k: (string, string))
    ensures First(config, es, Swap(k)) == First(config, es, k)
  {
    if es != [] {
      SwapFirst(config, es[..|es| - 1], k);
    }
  }

  /** A loaded table is symmetric. */
  lemma HoldsSymmetric(config: seq<Letter>, es: seq<(nat, nat)>, m: Similar)
    requires Holds(config, es, m)
    ensures Symmetric(m)
  {
    forall a, b | (a, b) in m
      ensures (b, a) in m && m[(b, a)] == m[(a, b)]
    {
      SwapFirst(config, es, (a, b));
      assert Swap((a, b)) == (b, a);
    }
  }

  /** The source's two insertions for one entry. */
  lemma InsertBoth(config: seq<Letter>, es: seq<(nat, nat)>, m: Similar, e: (nat, nat))
    requires Holds(config, es, m) && IsEntry(config, e.0, e.1)
    ensures var k, v := PairAt(config, e.0, e.1), config[e.0].apps[e.1].value;
            Holds(config, es + [e], Insert(Insert(m, k, v), Swap(k), v))
  {
    var k0, v := PairAt(config, e.0, e.1), config[e.0].apps[e.1].value;
    var m' := Insert(Insert(m, k0, v), Swap(k0), v);
    forall k
      ensures k in m' <==> First(config, es + [e], k) < |es| + 1
      ensures k in m' ==> var x := (es + [e])[First(config, es + [e], k)]; m'[k] == config[x.0].apps[x.1].value
    {
      FirstStep(config, es, e, k);
      hide First;
      assert PairOf(config, e, k) <==> k == k0 || k == Swap(k0);
    }
  }

  class Hanming {
    var similar: Similar
    var fuzzy: bool

    /** `iniHanmingDistanceMap`. */
    method Load(config: seq<Letter>)
      modifies this
      ensures Holds(config, Visits(config, 0), similar) && Symmetric(similar)
      ensures fuzzy <==> old(fuzzy) || similar != map[]
    {
      hide Holds, Symmetric, Insert, PairOf, Positions, Visits, First;
      similar := map[];
      ghost var seen: seq<(nat, nat)> := [];
      NothingLoaded(config);
      var i := 0;
      while i < |config|
        invariant Holds(config, seen, similar)
        invariant Visits(config, 0) == seen + Visits(config, i)
        invariant fuzzy == old(fuzzy)
        decreases |config| - i
      {
        var l := config[i];
        ghost var start, after := i, Visits(config, if i < |l.apps| then |l.apps| + 1 else i + 1);
        VisitsAt(config, i);
        while i < |l.apps|
          invariant start <= i && (start < |l.apps| ==> i <= |l.apps|) && (start >= |l.apps| ==> i == start)
          invariant Holds(config, seen, similar)
          invariant Visits(config, 0) == seen + (Positions(start, i, |l.apps|) + after)
          invariant fuzzy == old(fuzzy)
        {
          var p := l.apps[i];
          InsertBoth(config, seen, similar, (start, i));
          PositionsAt(start, i, |l.apps|);
          MoveOn(seen, (start, i), Positions(start, i + 1, |l.apps|), after);
          similar := Insert(similar, (l.s, p.s), p.value);
          similar := Insert(similar, (p.s, l.s), p.value);
          seen := seen + [(start, i)];
          i := i + 1;
        }
        PositionsAt(start, i, |l.apps|);
        assert [] + after == after;
        i := i + 1;
      }
      VisitsAt(config, i);
      assert seen + [] == seen;
      HoldsSymmetric(config, seen, similar);
      if similar != map[] {
        fuzzy := true;
      }
    }
  }

  lemma NothingLoaded(config: seq<Letter>)
    ensures Holds(config, [], map[])
  {
  }

  lemma PositionsAt(letter: nat, j: nat, n: nat)
    ensures Positions(letter, j, n) == if j >= n then [] else [(letter, j)] + Positions(letter, j + 1, n)
  {
  }

  lemma VisitsAt(config: seq<Letter>, i: nat)
    ensures Visits(config, i) ==
      if i >= |config| then []
      else
        var n := |config[i].apps|;
        Positions(i, i, n) + Visits(config, if i < n then n + 1 else i + 1)
  {
    if i < |config| && i >= |config[i].apps| {
      assert [] + Visits(config, i + 1) == Visits(config, i + 1);
    }
  }

  lemma MoveOn(seen: seq<(nat, nat)>, e: (nat, nat), more: seq<(nat, nat)>, after: seq<(nat, nat)>)
    ensures seen + (([e] + more) + after) == (seen + [e]) + (more + after)
  {
  }

  // ---------- What the shared loop variable loses ----------

  lemma {:induction false} PositionsHas(letter: nat, j: nat, n: nat, e: (nat, nat))
    ensures e in Positions(letter, j, n) <==> e.0 == letter && j <= e.1 < n
    decreases n - j
  {
    if j < n {
      PositionsHas(letter, j + 1, n, e);
    }
  }

  /** Entry j of letter i is visited only from j >= i on. */
  lemma {:induction false} VisitsFrom(config: seq<Letter>, i: nat, e: (nat, nat))
    ensures e in Visits(config, i) ==> i <= e.0 <= e.1 && IsEntry(config, e.0, e.1)
    ensures i < |config| && i < |config[i].apps| && e.0 == i <= e.1 < |config[i].apps| ==> e in Visits(config, i)
    decreases |config| - i
  {
    if i < |config| {
      var n := |config[i].apps|;
      VisitsFrom(config, if i < n then n + 1 else i + 1, e);
      PositionsHas(i, i, n, e);
    }
  }

  /** The loops visit every configured entry exactly when only the first letter has any. */
  lemma EverythingVisitedIff(config: seq<Letter>)
    ensures (forall i: nat, j: nat :: IsEntry(config, i, j) ==> (i, j) in Visits(config, 0))
            <==> forall i :: 1 <= i < |config| ==> config[i].apps == []
  {
    if forall i: nat, j: nat :: IsEntry(config, i, j) ==> (i, j) in Visits(config, 0) {
      forall i | 1 <= i < |config| ensures config[i].apps == [] {
        VisitsFrom(config, 0, (i, 0));
        assert !IsEntry(config, i, 0);
      }
    }
    if forall i :: 1 <= i < |config| ==> config[i].apps == [] {
      forall i: nat, j: nat | IsEntry(config, i, j) ensures (i, j) in Visits(config, 0) {
        VisitsFrom(config, 0, (i, j));
      }
    }
  }

  /** Where the loops go from a letter they reach: past a letter with more than i entries they continue after as
      many letters as it has entries, so letters i + 1 to n are passed over. */
  lemma PassedOver(config: seq<Letter>, i: nat, j: nat)
    requires i < |config| && i < |config[i].apps|
    ensures i < j <= |config[i].apps| ==> forall v: nat :: (j, v) !in Visits(config, i)
    ensures j == |config[i].apps| + 1 && j < |config| && j < |config[j].apps| ==> (j, j) in Visits(config, i)
  {
    var n := |config[i].apps|;
    forall v: nat | i < j <= n
      ensures (j, v) !in Visits(config, i)
    {
      PositionsHas(i, i, n, (j, v));
      VisitsFrom(config, n + 1, (j, v));
    }
    if j == n + 1 {
      VisitsFrom(config, j, (j, j));
    }
  }

  /** Every configured pair has a value in the table. */
  ghost predicate AllLoaded(config: seq<Letter>, m: Similar) {
    forall i: nat, j: nat :: IsEntry(config, i, j) ==> PairAt(config, i, j) in m
  }

  /** An entry that is visited makes the same pair similar, in either order. */
  ghost predicate Covered(config: seq<Letter>, i: nat, j: nat)
    requires IsEntry(config, i, j)
  {
    exists e :: e in Visits(config, 0) && PairOf(config, e, PairAt(config, i, j))
  }

  /** No pair is configured twice, in either order. */
  ghost predicate DistinctPairs(config: seq<Letter>) {
    forall i: nat, j: nat, e :: IsEntry(config, i, j) && PairOf(config, e, PairAt(config, i, j)) ==> e == (i, j)
  }

  lemma LoadedIffCovered(config: seq<Letter>, m: Similar, i: nat, j: nat)
    requires Holds(config, Visits(config, 0), m) && IsEntry(config, i, j)
    ensures PairAt(config, i, j) in m <==> Covered(config, i, j)
  {
    var es, k := Visits(config, 0), PairAt(config, i, j);
    var n := First(config, es, k);
    if n < |es| {
      assert es[n] in es;
    }
  }

  /** Every configured pair reaches the table exactly when each entry the loops pass over repeats the pair of
      one they visit; if no pair is configured twice, exactly when only the first letter has entries. */
  lemma EverythingLoadedIff(config: seq<Letter>, m: Similar)
    requires Holds(config, Visits(config, 0), m)
    ensures AllLoaded(config, m) <==>
              forall i: nat, j: nat :: IsEntry(config, i, j) && (i, j) !in Visits(config, 0) ==> Covered(config, i, j)
    ensures DistinctPairs(config) ==>
              (AllLoaded(config, m) <==> forall i :: 1 <= i < |config| ==> config[i].apps == [])
  {
    hide Holds, First, Visits;
    forall i: nat, j: nat | IsEntry(config, i, j)
      ensures PairAt(config, i, j) in m <==> Covered(config, i, j)
      ensures (i, j) in Visits(config, 0) ==> Covered(config, i, j)
      ensures DistinctPairs(config) && Covered(config, i, j) ==> (i, j) in Visits(config, 0)
    {
      LoadedIffCovered(config, m, i, j);
      assert PairOf(config, (i, j), PairAt(config, i, j));
    }
    EverythingVisitedIff(config);
  }

  // ---------- The distance ----------

  function Abs(i: int): nat { if i < 0 then -i else i }

  /** What two compared units add. */
  function UnitCost(m: Similar, fuzzy: bool, a: string, b: string): real {
    if a == b then 0.0 else if fuzzy && (a, b) in m then m[(a, b)] else 1.0
  }

  /** Comparing two strings of these lengths unit by unit reads no unit past an end. */
  predicate Paired(a: nat, b: nat, width: nat) {
    a == 0 || b == 0 || (0 < width <= a && width <= b && Paired(a - width, b - width, width))
  }

  function Shorter(a: nat, b: nat): nat { if a <= b then a else b }

  lemma {:induction false} PairedIff(a: nat, b: nat)
    ensures Paired(a, b, 1) && (Paired(a, b, 3) <==> Shorter(a, b) % 3 == 0)
  {
    if a >= 1 && b >= 1 { PairedIff(a - 1, b - 1); }
    if a >= 3 && b >= 3 { PairedIff(a - 3, b - 3); }
  }

  /** The cost of comparing units of the given width, as far as both strings reach. */
  function Compared(m: Similar, fuzzy: bool, a: string, b: string, width: nat): real
    requires Paired(|a|, |b|, width)
    decreases |a|
  {
    if a == [] || b == [] then 0.0
    else UnitCost(m, fuzzy, a[..width], b[..width]) + Compared(m, fuzzy, a[width..], b[width..], width)
  }

  /** The two plates after the source's regular expressions: `han` is what is left without capitals and
      digits, in units of three bytes, `latin` what is left without Chinese characters. */
  datatype Plate = Plate(text: string, han: string, latin: string)

  /** The shorter Chinese part consists of whole characters: otherwise the source reads past its end. */
  predicate InReach(a: Plate, b: Plate) { Shorter(|a.han|, |b.han|) % 3 == 0 }

  function Distance(m: Similar, fuzzy: bool, a: Plate, b: Plate, flag: int): real
    requires InReach(a, b)
  {
    PairedIff(|a.han|, |b.han|);
    PairedIff(|a.latin|, |b.latin|);
    if flag == 0 && (a.text == [] || b.text == []) then 0.0
    else if flag == 1 && (a.text == [] || b.text == []) then
      (if |a.text| >= |b.text| then |a.text| else |b.text|) as real
    else
      var han := (Abs(|a.han| - |b.han|) / 3) as real + Compared(m, fuzzy, a.han, b.han, 3);
      if a.latin == [] || b.latin == [] then han
      else han + Abs(|a.latin| - |b.latin|) as real + Compared(m, fuzzy, a.latin, b.latin, 1)
  }

  lemma ComparedFrom(m: Similar, fuzzy: bool, a: string, b: string, width: nat, i: nat)
    requires i <= |a| && i <= |b| && Paired(|a| - i, |b| - i, width)
    ensures i == |a| || i == |b| ==> Compared(m, fuzzy, a[i..], b[i..], width) == 0.0
    ensures i < |a| && i < |b| ==>
      && 0 < width && i + width <= |a| && i + width <= |b| && Paired(|a| - (i + width), |b| - (i + width), width)
      && Compared(m, fuzzy, a[i..], b[i..], width)
         == UnitCost(m, fuzzy, a[i..i + width], b[i..i + width])
            + Compared(m, fuzzy, a[i + width..], b[i + width..], width)
  {
    if i < |a| && i < |b| {
      hide UnitCost;
      assert a[i..][..width] == a[i..i + width] && b[i..][..width] == b[i..i + width];
      assert a[i..][width..] == a[i + width..] && b[i..][width..] == b[i + width..];
    }
  }

  /** One of the two comparison loops of `hanmingDistanceForStr`. */
  method Compare(m: Similar, fuzzy: bool, a: string, b: string, width: nat, ans0: real) returns (ans: real)
    requires Paired(|a|, |b|, width)
    ensures ans == ans0 + Compared(m, fuzzy, a, b, width)
  {
    hide Compared, Paired;
    ans := ans0;
    var i := 0;
    assert a[0..] == a && b[0..] == b;
    while i < |a|
      invariant 0 <= i <= |a| && i <= |b| && Paired(|a| - i, |b| - i, width)
      invariant ans + Compared(m, fuzzy, a[i..], b[i..], width) == ans0 + Compared(m, fuzzy, a, b, width)
      decreases |a| - i
    {
      ComparedFrom(m, fuzzy, a, b, width, i);
      if i >= |b| { break; }
      var l, r := a[i..i + width], b[i..i + width];
      if l != r {
        if fuzzy && (l, r) in m {
          ans := ans + m[(l, r)];
        } else {
          ans := ans + 1.0;
        }
      }
      i := i + width;
    }
    ComparedFrom(m, fuzzy, a, b, width, i);
  }

  /** `hanmingDistanceForStr`. */
  method HanmingDistance(m: Similar, fuzzy: bool, a: Plate, b: Plate, flag: int) returns (ans: real)
    requires InReach(a, b)
    ensures ans == Distance(m, fuzzy, a, b, flag)
  {
    PairedIff(|a.han|, |b.han|);
    PairedIff(|a.latin|, |b.latin|);
    ans := 0.0;
    if flag == 0 {
      if a.text == [] || b.text == [] { return ans; }
    }
    if flag == 1 {
      if a.text == [] || b.text == [] {
        ans := (if |a.text| >= |b.text| then |a.text| else |b.text|) as real;
        return ans;
      }
    }
    ans := ans + (Abs(|a.han| - |b.han|) / 3) as real;
    ans := Compare(m, fuzzy, a.han, b.han, 3, ans);
    if a.latin == [] || b.latin == [] { return ans; }
    ans := ans + Abs(|a.latin| - |b.latin|) as real;
    ans := Compare(m, fuzzy, a.latin, b.latin, 1, ans);
  }

  lemma {:induction false} ComparedSymmetric(m: Similar, fuzzy: bool, a: string, b: string, width: nat)
    requires Symmetric(m) && Paired(|a|, |b|, width) && Paired(|b|, |a|, width)
    ensures Compared(m, fuzzy, a, b, width) == Compared(m, fuzzy, b, a, width)
    decreases |a|
  {
    if a != [] && b != [] {
      var u, v := a[..width], b[..width];
      assert (u, v) in m <==> (v, u) in m;
      ComparedSymmetric(m, fuzzy, a[width..], b[width..], width);
    }
  }

  lemma {:induction false} ComparedSelf(m: Similar, fuzzy: bool, a: string, width: nat)
    requires Paired(|a|, |a|, width)
    ensures Compared(m, fuzzy, a, a, width) == 0.0
    decreases |a|
  {
    if a != [] {
      ComparedSelf(m, fuzzy, a[width..], width);
    }
  }

  // ---------- What the distance counts ----------

  /** Equal lengths made of whole units in front leave the rest to be compared by itself. */
  lemma {:induction false} ComparedSplit(m: Similar, fuzzy: bool, a: string, b: string, width: nat, n: nat)
    requires n <= |a| && n <= |b| && Paired(n, n, width) && Paired(|a| - n, |b| - n, width)
    ensures Paired(|a|, |b|, width)
    ensures Compared(m, fuzzy, a, b, width)
            == Compared(m, fuzzy, a[..n], b[..n], width) + Compared(m, fuzzy, a[n..], b[n..], width)
    decreases n
  {
    hide UnitCost;
    if n == 0 {
      assert a[0..] == a && b[0..] == b && a[..0] == [] && b[..0] == [];
    } else {
      var a', b' := a[width..], b[width..];
      ComparedSplit(m, fuzzy, a', b', width, n - width);
      assert a'[..n - width] == a[..n][width..] && b'[..n - width] == b[..n][width..];
      assert a'[n - width..] == a[n..] && b'[n - width..] == b[n..];
      assert a[..n][..width] == a[..width] && b[..n][..width] == b[..width];
    }
  }

  /** One more pair of units adds nothing if they are equal, what the table says if it is in use and knows the
      pair, and else 1. */
  lemma OneMoreUnit(m: Similar, fuzzy: bool, a: string, b: string, width: nat, n: nat)
    requires 0 < width && n + width <= |a| && n + width <= |b| && Paired(n, n, width)
    ensures Paired(n + width, n + width, width)
    ensures var u, v := a[n..n + width], b[n..n + width];
      Compared(m, fuzzy, a[..n + width], b[..n + width], width)
      == Compared(m, fuzzy, a[..n], b[..n], width)
         + if u == v then 0.0 else if fuzzy && (u, v) in m then m[(u, v)] else 1.0
  {
    var c, d := a[..n + width], b[..n + width];
    assert Paired(0, 0, width);
    ComparedSplit(m, fuzzy, c, d, width, n);
    assert c[..n] == a[..n] && d[..n] == b[..n] && c[n..] == a[n..n + width] && d[n..] == b[n..n + width];
    OneUnit(m, fuzzy, c[n..], d[n..]);
  }

  lemma OneUnit(m: Similar, fuzzy: bool, u: string, v: string)
    requires |u| == |v| > 0
    ensures Paired(|u|, |v|, |u|) && Compared(m, fuzzy, u, v, |u|) == UnitCost(m, fuzzy, u, v)
  {
    assert u[..|u|] == u && v[..|u|] == v;
    assert u[|u|..] == [] && v[|u|..] == [];
  }

  /** The widths of the two comparisons: letters and digits, and Chinese characters. */
  predicate Width(width: nat) { width == 1 || width == 3 }

  predicate StartsUnit(p: nat, width: nat) { width == 3 ==> p % 3 == 0 }

  predicate DifferAt(a: string, b: string, width: nat, p: nat) {
    p + width <= |a| && p + width <= |b| && a[p..p + width] != b[p..p + width]
  }

  /** Where the units of the first n bytes differ: the positions at which they start. */
  function Unequal(a: string, b: string, width: nat, n: nat): set<nat> {
    set p: nat | p + width <= n && StartsUnit(p, width) && DifferAt(a, b, width, p)
  }

  lemma {:induction false} CountsUnequal(m: Similar, a: string, b: string, width: nat, n: nat)
    requires Width(width) && n <= |a| && n <= |b| && Paired(n, n, width)
    ensures StartsUnit(n, width)
    ensures Compared(m, false, a[..n], b[..n], width) == |Unequal(a, b, width, n)| as real
  {
    if n == 0 {
      assert Unequal(a, b, width, 0) == {};
    } else {
      var k := n - width;
      CountsUnequal(m, a, b, width, k);
      OneMoreUnit(m, false, a, b, width, k);
      hide Compared;
      UnequalStep(a, b, width, k);
    }
  }

  lemma UnequalAt(a: string, b: string, width: nat, k: nat, p: nat)
    requires Width(width) && StartsUnit(k, width)
    ensures p in Unequal(a, b, width, k + width)
            <==> p in Unequal(a, b, width, k) || (p == k && DifferAt(a, b, width, k))
    ensures k !in Unequal(a, b, width, k)
  {
    hide DifferAt;
  }

  lemma UnequalStep(a: string, b: string, width: nat, k: nat)
    requires Width(width) && k + width <= |a| && k + width <= |b| && StartsUnit(k, width)
    ensures |Unequal(a, b, width, k + width)| ==
      |Unequal(a, b, width, k)| + if DifferAt(a, b, width, k) then 1 else 0
  {
    var before, after := Unequal(a, b, width, k), Unequal(a, b, width, k + width);
    forall p: nat
      ensures p in after <==> p in before || (p == k && DifferAt(a, b, width, k))
      ensures k !in before
    {
      UnequalAt(a, b, width, k, p);
    }
    hide *;
    if DifferAt(a, b, width, k) {
      assert after == before + {k};
    } else {
      assert after == before;
    }
  }

  /** Beyond the end of the shorter string nothing is compared. */
  lemma ComparedCommon(m: Similar, fuzzy: bool, a: string, b: string, width: nat)
    requires Width(width) && Paired(|a|, |b|, width)
    ensures var n := Shorter(|a|, |b|);
      && Paired(n, n, width) && Compared(m, fuzzy, a, b, width) == Compared(m, fuzzy, a[..n], b[..n], width)
  {
    var n := Shorter(|a|, |b|);
    PairedShorter(|a|, |b|, width);
    ComparedSplit(m, fuzzy, a, b, width, n);
  }

  lemma {:induction false} PairedShorter(a: nat, b: nat, width: nat)
    requires 0 < width && Paired(a, b, width)
    ensures Paired(Shorter(a, b), Shorter(a, b), width)
    decreases a
  {
    if a > 0 && b > 0 { PairedShorter(a - width, b - width, width); }
  }

  lemma ComparedCounts(m: Similar, a: string, b: string, width: nat)
    requires Width(width) && Paired(|a|, |b|, width)
    ensures Compared(m, false, a, b, width) == |Unequal(a, b, width, Shorter(|a|, |b|))| as real
  {
    hide Paired, Compared, Unequal;
    ComparedCommon(m, false, a, b, width);
    CountsUnequal(m, a, b, width, Shorter(|a|, |b|));
  }

  /** The answers for a plate without text. */
  lemma EmptyText(m: Similar, fuzzy: bool, a: Plate, b: Plate, flag: int)
    requires InReach(a, b) && (a.text == [] || b.text == [])
    ensures flag == 0 ==> Distance(m, fuzzy, a, b, flag) == 0.0
    ensures flag == 1 ==> Distance(m, fuzzy, a, b, flag) == (if a.text == [] then |b.text| else |a.text|) as real
  {
  }

  /** Whether an empty text answers the query by itself. */
  predicate Shortcut(a: Plate, b: Plate, flag: int) { (flag == 0 || flag == 1) && (a.text == [] || b.text == []) }

  /** Main result without a table: the distance counts the unequal Chinese characters and the unequal letters
      and digits, and adds the two differences in length; a plate without letters and digits is compared by its
      Chinese characters only. */
  lemma DistanceCounts(m: Similar, a: Plate, b: Plate, flag: int)
    requires InReach(a, b) && !Shortcut(a, b, flag)
    ensures var han, latin := Shorter(|a.han|, |b.han|), Shorter(|a.latin|, |b.latin|);
      Distance(m, false, a, b, flag)
      == ((if |a.han| >= |b.han| then |a.han| - |b.han| else |b.han| - |a.han|) / 3) as real
         + |Unequal(a.han, b.han, 3, han)| as real
         + if latin == 0 then 0.0
           else (if |a.latin| >= |b.latin| then |a.latin| - |b.latin| else |b.latin| - |a.latin|) as real
                + |Unequal(a.latin, b.latin, 1, latin)| as real
  {
    PairedIff(|a.han|, |b.han|);
    PairedIff(|a.latin|, |b.latin|);
    hide Paired, Compared, Unequal;
    ComparedCounts(m, a.han, b.han, 3);
    ComparedCounts(m, a.latin, b.latin, 1);
  }

  lemma NoneUnequal(a: string, b: string, width: nat)
    requires Width(width) && |a| == |b| && StartsUnit(|a|, width) && Unequal(a, b, width, |a|) == {}
    ensures a == b
  {
    forall i | 0 <= i < |a|
      ensures a[i] == b[i]
    {
      var p := if width == 1 then i else i - i % 3;
      assert p !in Unequal(a, b, width, |a|);
      assert a[p..p + width][i - p] == b[p..p + width][i - p];
    }
  }

  /** Without a table two plates of whole characters are at distance zero exactly if their Chinese parts agree
      and their letters and digits do, or one has none. */
  lemma ZeroIff(m: Similar, a: Plate, b: Plate, flag: int)
    requires |a.han| % 3 == 0 && |b.han| % 3 == 0 && !Shortcut(a, b, flag)
    ensures InReach(a, b)
    ensures Distance(m, false, a, b, flag) == 0.0 <==>
              a.han == b.han && (a.latin == [] || b.latin == [] || a.latin == b.latin)
  {
    DistanceCounts(m, a, b, flag);
    hide Distance;
    if a.han == b.han { assert Unequal(a.han, b.han, 3, |a.han|) == {}; }
    if a.latin == b.latin { assert Unequal(a.latin, b.latin, 1, |a.latin|) == {}; }
    if |a.han| == |b.han| && Unequal(a.han, b.han, 3, |a.han|) == {} { NoneUnequal(a.han, b.han, 3); }
    if |a.latin| == |b.latin| && Unequal(a.latin, b.latin, 1, |a.latin|) == {} { NoneUnequal(a.latin, b.latin, 1); }
  }

  // ---------- Symmetry ----------

  /** Main result: over any loaded table the distance is symmetric, whatever the flag; a plate of whole
      characters is at distance zero from itself. */
  lemma DistanceSymmetric(m: Similar, fuzzy: bool, a: Plate, b: Plate, flag: int)
    requires Symmetric(m)
    ensures InReach(a, b) <==> InReach(b, a)
    ensures InReach(a, b) ==> Distance(m, fuzzy, a, b, flag) == Distance(m, fuzzy, b, a, flag)
    ensures InReach(a, a) ==> Distance(m, fuzzy, a, a, flag) == 0.0
  {
    hide Compared, Paired, Symmetric;
    if InReach(a, b) {
      SymmetricPart(m, fuzzy, a, b);
    }
    if InReach(a, a) {
      SelfPart(m, fuzzy, a);
    }
  }

  lemma SelfPart(m: Similar, fuzzy: bool, a: Plate)
    requires InReach(a, a)
    ensures Paired(|a.han|, |a.han|, 3) && Paired(|a.latin|, |a.latin|, 1)
    ensures Compared(m, fuzzy, a.han, a.han, 3) == 0.0 && Compared(m, fuzzy, a.latin, a.latin, 1) == 0.0
  {
    PairedIff(|a.han|, |a.han|);
    PairedIff(|a.latin|, |a.latin|);
    hide Compared;
    ComparedSelf(m, fuzzy, a.han, 3);
    ComparedSelf(m, fuzzy, a.latin, 1);
  }

  lemma SymmetricPart(m: Similar, fuzzy: bool, a: Plate, b: Plate)
    requires Symmetric(m) && InReach(a, b)
    ensures Paired(|a.han|, |b.han|, 3) && Paired(|b.han|, |a.han|, 3)
    ensures Paired(|a.latin|, |b.latin|, 1) && Paired(|b.latin|, |a.latin|, 1)
    ensures Compared(m, fuzzy, a.han, b.han, 3) == Compared(m, fuzzy, b.han, a.han, 3)
    ensures Compared(m, fuzzy, a.latin, b.latin, 1) == Compared(m, fuzzy, b.latin, a.latin, 1)
  {
    PairedIff(|a.han|, |b.han|);
    PairedIff(|b.han|, |a.han|);
    PairedIff(|a.latin|, |b.latin|);
    PairedIff(|b.latin|, |a.latin|);
    hide Symmetric, Compared;
    ComparedSymmetric(m, fuzzy, a.han, b.han, 3);
    ComparedSymmetric(m, fuzzy, a.latin, b.latin, 1);
  }
}
