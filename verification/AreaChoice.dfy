/** Which restriction area a map block ends up naming when areas are offered to it in file order.
    Value level: `touch[k]` says whether area k reaches the block, `limits[k]` is its height limit. */
module AreaChoice {

  /** RESTRICT_NO_FLY. */
  const NO_FLY := -1.0

  /** The block's new restriction index after area k was offered: the source's inner `if`. */
  function Offer(r: nat, limits: seq<real>, k: nat): nat
    requires k < |limits| && r <= |limits|
  {
    if r == 0 || limits[k] == NO_FLY || limits[k] > limits[r - 1] then k + 1 else r
  }

  /** The last no-fly area that reaches the block, or -1. */
  function LastNoFly(touch: seq<bool>, limits: seq<real>): (m: int)
    requires |touch| == |limits|
    ensures -1 <= m < |touch|
    ensures m >= 0 ==> touch[m] && limits[m] == NO_FLY
    ensures forall k :: m < k < |touch| && touch[k] ==> limits[k] != NO_FLY
  {
    if touch == [] then -1
    else
      var n := |touch| - 1;
      if touch[n] && limits[n] == NO_FLY then n
      else LastNoFly(touch[..n], limits[..n])
  }

  /** Declarative choice: 0 if nothing reaches the block; otherwise one more than the earliest area of
      greatest limit among those that reach it from the last no-fly area on. */
  ghost predicate IsChoice(touch: seq<bool>, limits: seq<real>, r: nat)
    requires |touch| == |limits|
  {
    if r == 0 then forall k :: 0 <= k < |touch| ==> !touch[k]
    else
      && r <= |touch| && touch[r - 1]
      && LastNoFly(touch, limits) <= r - 1
      && forall k :: 0 <= k < |touch| && LastNoFly(touch, limits) <= k && touch[k] ==>
           limits[k] <= limits[r - 1] && (k < r - 1 ==> limits[k] < limits[r - 1])
  }

  /** One more area keeps the choice: the induction step of the rasteriser's inner loop. */
  lemma ChoiceStep(touch: seq<bool>, limits: seq<real>, r: nat, k: nat)
    requires |touch| == |limits| && k < |touch|
    requires IsChoice(touch[..k], limits[..k], r)
    ensures IsChoice(touch[..k + 1], limits[..k + 1], if touch[k] then Offer(r, limits, k) else r)
  {
    assert touch[..k + 1][..k] == touch[..k] && limits[..k + 1][..k] == limits[..k];
  }

  /** The choice is unique, so IsChoice pins the stored index completely. */
  lemma ChoiceUnique(touch: seq<bool>, limits: seq<real>, r: nat, r': nat)
    requires |touch| == |limits|
    requires IsChoice(touch, limits, r) && IsChoice(touch, limits, r')
    ensures r == r'
  {
    if r != 0 && r' != 0 {
      assert touch[r - 1] && touch[r' - 1];
    }
  }

  // ---------- The loop over all areas ----------

  /** The index after the first n areas were offered, starting from r. */
  function OfferAll(touch: seq<bool>, limits: seq<real>, r: nat, n: nat): (r': nat)
    requires |touch| == |limits| && n <= |touch| && r <= |touch|
    ensures r' <= |touch|
  {
    if n == 0 then r
    else
      var q := OfferAll(touch, limits, r, n - 1);
      if touch[n - 1] then Offer(q, limits, n - 1) else q
  }

  /** Starting from 0 the loop ends with the choice. */
  lemma {:induction false} OfferFromZero(touch: seq<bool>, limits: seq<real>, n: nat)
    requires |touch| == |limits| && n <= |touch|
    ensures OfferAll(touch, limits, 0, n) <= n
    ensures IsChoice(touch[..n], limits[..n], OfferAll(touch, limits, 0, n))
  {
    if n > 0 {
      OfferFromZero(touch, limits, n - 1);
      hide IsChoice, Offer;
      ChoiceStep(touch, limits, OfferAll(touch, limits, 0, n - 1), n - 1);
    }
  }

  /** From the last no-fly area on the start no longer matters. */
  lemma {:induction false} OfferAfterNoFly(touch: seq<bool>, limits: seq<real>, r: nat, n: nat)
    requires |touch| == |limits| && n <= |touch| && r <= |touch|
    requires 0 <= LastNoFly(touch, limits) < n
    ensures OfferAll(touch, limits, r, n) == OfferAll(touch, limits, 0, n)
  {
    if LastNoFly(touch, limits) < n - 1 {
      OfferAfterNoFly(touch, limits, r, n - 1);
    }
  }

  /** Starting from the choice the loop ends with it again: rasterising a second time changes nothing. */
  lemma OfferAgain(touch: seq<bool>, limits: seq<real>, r: nat)
    requires |touch| == |limits| && IsChoice(touch, limits, r)
    ensures r <= |touch| && OfferAll(touch, limits, r, |touch|) == r
  {
    if LastNoFly(touch, limits) >= 0 {
      OfferAfterNoFly(touch, limits, r, |touch|);
      OfferFromZero(touch, limits, |touch|);
      assert touch[..|touch|] == touch && limits[..|touch|] == limits;
      hide IsChoice;
      ChoiceUnique(touch, limits, r, OfferAll(touch, limits, 0, |touch|));
    } else {
      OfferWithoutNoFly(touch, limits, r, |touch|);
    }
  }

  lemma {:induction false} OfferWithoutNoFly(touch: seq<bool>, limits: seq<real>, r: nat, n: nat)
    requires |touch| == |limits| && n <= |touch| && IsChoice(touch, limits, r) && LastNoFly(touch, limits) < 0
    ensures r <= |touch| && OfferAll(touch, limits, r, n) == r
  {
    if n > 0 {
      OfferWithoutNoFly(touch, limits, r, n - 1);
    }
  }

  // ---------- What the choice means ----------

  /** Index 0 means exactly that no area reaches the block. */
  lemma ZeroIffUntouched(touch: seq<bool>, limits: seq<real>, r: nat)
    requires |touch| == |limits| && IsChoice(touch, limits, r)
    ensures r == 0 <==> forall k :: 0 <= k < |touch| ==> !touch[k]
    ensures r > 0 ==> r <= |touch| && touch[r - 1]
  {
  }

  /** Without a no-fly area in reach the block names the earliest area of greatest limit. */
  lemma HighestLimitChosen(touch: seq<bool>, limits: seq<real>, r: nat)
    requires |touch| == |limits| && IsChoice(touch, limits, r) && r > 0
    requires forall k :: 0 <= k < |touch| && touch[k] ==> limits[k] != NO_FLY
    ensures forall k :: 0 <= k < |touch| && touch[k] ==>
              limits[k] <= limits[r - 1] && (limits[k] == limits[r - 1] ==> r - 1 <= k)
  {
    assert LastNoFly(touch, limits) == -1;
  }

  /** Some area that reaches the block has this limit. */
  ghost predicate Offers(touch: seq<bool>, limits: seq<real>, limit: real)
    requires |touch| == |limits|
  {
    exists k :: 0 <= k < |touch| && touch[k] && limits[k] == limit
  }

  lemma ChosenIsGreatest(touch: seq<bool>, limits: seq<real>, r: nat, limit: real)
    requires |touch| == |limits| && IsChoice(touch, limits, r)
    requires !Offers(touch, limits, NO_FLY) && Offers(touch, limits, limit)
    ensures 0 < r <= |touch| && Offers(touch, limits, limits[r - 1]) && limit <= limits[r - 1]
  {
    assert forall k :: 0 <= k < |touch| && touch[k] ==> limits[k] != NO_FLY;
    ZeroIffUntouched(touch, limits, r);
    HighestLimitChosen(touch, limits, r);
    hide IsChoice;
  }

  /** Without a no-fly area in reach the order of the areas does not matter: the chosen limit is the same
      for any two lists that offer the block the same limits. */
  lemma LimitOrderFree(touch: seq<bool>, limits: seq<real>, r: nat, touch': seq<bool>, limits': seq<real>, r': nat)
    requires |touch| == |limits| && IsChoice(touch, limits, r)
    requires |touch'| == |limits'| && IsChoice(touch', limits', r')
    requires !Offers(touch, limits, NO_FLY)
    requires forall limit :: Offers(touch, limits, limit) <==> Offers(touch', limits', limit)
    ensures r == 0 <==> r' == 0
    ensures r > 0 ==> r <= |touch| && r' <= |touch'| && limits[r - 1] == limits'[r' - 1]
  {
    ZeroIffUntouched(touch, limits, r);
    ZeroIffUntouched(touch', limits', r');
    assert r > 0 ==> Offers(touch, limits, limits[r - 1]);
    assert r' > 0 ==> Offers(touch', limits', limits'[r' - 1]);
    hide IsChoice, Offers;
    if r > 0 {
      ChosenIsGreatest(touch', limits', r', limits[r - 1]);
      ChosenIsGreatest(touch, limits, r, limits'[r' - 1]);
    } else if r' > 0 {
      ChosenIsGreatest(touch, limits, r, limits'[r' - 1]);
      assert false;
    }
  }

  /** Exactly when a block in reach of a no-fly area is marked no-fly: no area offered later has a
      greater limit. A caller can check this on the area list before rasterising. */
  lemma NoFlyKeptIff(touch: seq<bool>, limits: seq<real>, r: nat)
    requires |touch| == |limits| && IsChoice(touch, limits, r)
    requires LastNoFly(touch, limits) >= 0
    ensures r > 0
    ensures limits[r - 1] == NO_FLY <==>
              forall k :: LastNoFly(touch, limits) < k < |touch| && touch[k] ==> limits[k] <= NO_FLY
  {
    var m := LastNoFly(touch, limits);
    assert touch[m];
    if limits[r - 1] != NO_FLY {
      assert r - 1 != m;
    }
  }

  /** No-fly precedence is false in general: the same two areas in the other order lose it. */
  lemma NoFlyDependsOnOrder()
    ensures IsChoice([true, true], [50.0, NO_FLY], 2)
    ensures IsChoice([true, true], [NO_FLY, 50.0], 2)
  {
    assert LastNoFly([true, true], [50.0, NO_FLY]) == 1;
    var t, l := [true, true], [NO_FLY, 50.0];
    assert LastNoFly(t, l) == 0 by {
      assert t[..1] == [true] && l[..1] == [NO_FLY];
      assert LastNoFly([true], [NO_FLY]) == 0;
    }
  }

  // ---------- The ground index ----------

  /** The last area that reaches the block, plus one: the ground index, with no comparison at all. */
  ghost predicate IsLast(touch: seq<bool>, g: nat) {
    if g == 0 then forall k :: 0 <= k < |touch| ==> !touch[k]
    else g <= |touch| && touch[g - 1] && forall k :: g <= k < |touch| ==> !touch[k]
  }

  lemma LastUnique(touch: seq<bool>, g: nat, g': nat)
    requires IsLast(touch, g) && IsLast(touch, g')
    ensures g == g'
  {
    if g > 0 && g' > 0 {
      assert touch[g - 1] && touch[g' - 1];
    }
  }
}
