/** Landing detection from the aircraft's mode codes (`TrackMain::parseOsdMsg`, `detectLanding`). */
module Landing {

  predicate Ground(code: int) { 0 <= code <= 2 }

  predicate Airborne(code: int) { 3 <= code <= 12 || 15 <= code <= 20 }

  /** The codes by name: standby, take-off preparation and ready are on the ground; 13 (upgrading), 14 (not
      connected) and -1 (unknown) are neutral, as is every other code; the rest up to 20 is in the air. */
  lemma ModeCodes(code: int)
    ensures Ground(code) <==> code in {0, 1, 2}
    ensures Airborne(code) <==> code in {3, 4, 5, 6, 7, 8, 9, 10, 11, 12, 15, 16, 17, 18, 19, 20}
    ensures !(Ground(code) && Airborne(code))
  {
  }

  /** The aircraft counts as airborne after these samples: by the last one that is not neutral. */
  function Flag(codes: seq<int>): bool {
    if codes == [] then false
    else
      var n := |codes| - 1;
      if Airborne(codes[n]) then true else if Ground(codes[n]) then false else Flag(codes[..n])
  }

  /** Sample i ends a flight: it is on the ground, and since the last ground sample there was an airborne one. */
  ghost predicate Lands(codes: seq<int>, i: nat)
    requires i < |codes|
  {
    && Ground(codes[i])
    && exists j :: 0 <= j < i && Airborne(codes[j]) && forall k :: j < k < i ==> !Ground(codes[k])
  }

  lemma {:induction false} FlagMeans(codes: seq<int>)
    ensures Flag(codes) <==>
              exists j :: 0 <= j < |codes| && Airborne(codes[j]) && forall k :: j < k < |codes| ==> !Ground(codes[k])
  {
    if codes != [] {
      var n := |codes| - 1;
      var u := codes[..n];
      FlagMeans(u);
      if Airborne(codes[n]) {
        var j := n;
        assert Airborne(codes[j]) && j < |codes|;
      } else if !Ground(codes[n]) {
        if Flag(u) {
          var j :| 0 <= j < n && Airborne(u[j]) && forall k :: j < k < n ==> !Ground(u[k]);
          assert Airborne(codes[j]) && forall k :: j < k < |codes| ==> !Ground(codes[k]) by {
            assert forall k :: j < k < n ==> codes[k] == u[k];
          }
        }
        if j :| 0 <= j < |codes| && Airborne(codes[j]) && forall k :: j < k < |codes| ==> !Ground(codes[k]) {
          assert Airborne(u[j]) && forall k :: j < k < n ==> !Ground(u[k]);
        }
      }
    }
  }

  class TrackMain {
    var modeCode: int
    var airborne: bool
    /** Every mode code received, in order. */
    ghost var history: seq<int>

    constructor ()
      ensures Valid() && history == []
    {
      modeCode, airborne, history := -1, false, [];
    }

    ghost predicate Valid()
      reads this
    {
      modeCode == (if history == [] then -1 else history[|history| - 1]) && airborne == Flag(history)
    }

    /** `detectLanding`: true when it reports the end of a flight. */
    method DetectLanding(code: int) returns (report: bool)
      modifies this`airborne
      ensures report <==> Ground(code) && old(airborne)
      ensures airborne == if Airborne(code) then true else if Ground(code) then false else old(airborne)
    {
      report := false;
      if Airborne(code) {
        airborne := true;
        return;
      }
      if Ground(code) && airborne {
        airborne := false;
        report := true;
      }
    }

    /** The mode code part of `parseOsdMsg`. Although the detector is called only when the code changes, a
        report is made on exactly the samples that end a flight in the whole history. */
    method ParseOsd(code: int) returns (report: bool)
      requires Valid()
      modifies this
      ensures Valid() && history == old(history) + [code]
      ensures report <==> Lands(history, |history| - 1)
    {
      ghost var before := history;
      var prev := modeCode;
      modeCode := code;
      report := false;
      if code != prev {
        report := DetectLanding(code);
      }
      history := history + [code];
      assert history[..|before|] == before;
      hide Lands;
      LandsByFlag(history, |before|);
    }
  }

  lemma LandsByFlag(codes: seq<int>, i: nat)
    requires i < |codes|
    ensures Lands(codes, i) <==> Ground(codes[i]) && Flag(codes[..i])
  {
    var u := codes[..i];
    FlagMeans(u);
    if Flag(u) {
      var j :| 0 <= j < i && Airborne(u[j]) && forall k :: j < k < i ==> !Ground(u[k]);
      assert Airborne(codes[j]) && forall k :: j < k < i ==> !Ground(codes[k]) by {
        assert forall k :: j < k < i ==> codes[k] == u[k];
      }
    }
    if Lands(codes, i) {
      var j :| 0 <= j < i && Airborne(codes[j]) && forall k :: j < k < i ==> !Ground(codes[k]);
      assert Airborne(u[j]) && forall k :: j < k < i ==> !Ground(u[k]);
    }
  }

  /** Between two reports lies an airborne sample of its own. */
  lemma OneFlightPerReport(codes: seq<int>, a: nat, b: nat)
    requires a < b < |codes| && Lands(codes, a) && Lands(codes, b)
    ensures exists j :: a < j < b && Airborne(codes[j])
  {
    var j :| 0 <= j < b && Airborne(codes[j]) && forall k :: j < k < b ==> !Ground(codes[k]);
  }

  function Reports(codes: seq<int>): nat {
    if codes == [] then 0
    else
      var n := |codes| - 1;
      Reports(codes[..n]) + (if Ground(codes[n]) && Flag(codes[..n]) then 1 else 0)
  }

  lemma LandsBefore(codes: seq<int>, n: nat, i: nat)
    requires i < n <= |codes|
    ensures Lands(codes[..n], i) <==> Lands(codes, i)
  {
    hide Lands;
    LandsByFlag(codes, i);
    LandsByFlag(codes[..n], i);
    assert codes[..n][..i] == codes[..i];
  }

  /** The samples that end a flight. */
  ghost function Landings(codes: seq<int>): set<nat> { set i: nat | i < |codes| && Lands(codes, i) }

  lemma LandingsStep(codes: seq<int>)
    requires codes != []
    ensures var n := |codes| - 1;
      Landings(codes) == Landings(codes[..n]) + (if Lands(codes, n) then {n} else {}) && n !in Landings(codes[..n])
  {
    hide Lands;
    var n := |codes| - 1;
    forall i: nat | i < n
      ensures Lands(codes[..n], i) <==> Lands(codes, i)
    {
      LandsBefore(codes, n, i);
    }
  }

  /** The reports are as many. */
  lemma {:induction false} ReportsCount(codes: seq<int>)
    ensures Reports(codes) == |Landings(codes)|
  {
    hide Lands, Flag, Ground;
    if codes != [] {
      ReportsCount(codes[..|codes| - 1]);
      LandsByFlag(codes, |codes| - 1);
      LandingsStep(codes);
      hide Landings;
    }
  }

  function WithoutNeutral(codes: seq<int>): seq<int> {
    if codes == [] then []
    else
      var n := |codes| - 1;
      WithoutNeutral(codes[..n]) + (if Ground(codes[n]) || Airborne(codes[n]) then [codes[n]] else [])
  }

  /** Lost links, upgrades and unknown codes neither add nor drop a report. */
  lemma {:induction false} NeutralCodesIgnored(codes: seq<int>)
    ensures Reports(WithoutNeutral(codes)) == Reports(codes) && Flag(WithoutNeutral(codes)) == Flag(codes)
  {
    if codes != [] {
      var n := |codes| - 1;
      var u, w := codes[..n], WithoutNeutral(codes[..n]);
      NeutralCodesIgnored(u);
      if Ground(codes[n]) || Airborne(codes[n]) {
        assert (w + [codes[n]])[..|w|] == w;
      } else {
        assert WithoutNeutral(codes) == w + [] == w;
      }
    }
  }
}
