/**
 * The cumulative weighted picker of ExtraMath: sum the weights, scale a random
 * fraction by the total to get a roll, then scan the list with a running prefix
 * sum and remember every index whose closed interval
 * [prefix, prefix + weight] contains the roll. The scan never stops early, so
 * the last such index is the answer; -1 means no interval contained the roll.
 *
 * Weights are exact reals here; the source accumulates them in `float`.
 */
module WeightedPick {

  /** Sum of the weights, accumulated from the front as the source's loop does. */
  function Sum(s: seq<real>): real
  {
    if s == [] then 0.0 else Sum(s[..|s| - 1]) + s[|s| - 1]
  }

  /** The roll the source draws: the total weight scaled by the random fraction. */
  function DrawRoll(pickList: seq<real>, fraction: real): real
  {
    Sum(pickList) * fraction
  }

  /** Entry `i` claims the roll: prefix(i) <= roll <= prefix(i) + weight(i). */
  predicate Covers(pickList: seq<real>, roll: real, i: int)
    requires 0 <= i < |pickList|
  {
    Sum(pickList[..i]) <= roll <= Sum(pickList[..i]) + pickList[i]
  }

  /**
   * Reference definition of the scan over the first `n` entries: the last
   * index below `n` whose interval covers the roll, or -1 when none does.
   */
  function LastMatch(pickList: seq<real>, roll: real, n: nat): (r: int)
    requires n <= |pickList|
    ensures -1 <= r < n
    ensures r >= 0 ==> Covers(pickList, roll, r)
    ensures forall j | r < j < n :: !Covers(pickList, roll, j)
    decreases n
  {
    if n == 0 then -1
    else if Covers(pickList, roll, n - 1) then n - 1
    else LastMatch(pickList, roll, n - 1)
  }

  lemma SumOfLongerPrefix(s: seq<real>, k: nat)
    requires k < |s|
    ensures Sum(s[..k + 1]) == Sum(s[..k]) + s[k]
  {
    assert s[..k + 1][..k] == s[..k];
  }

  /** `PickFromWeightedList(List<float>, Random)`, with the random fraction as input. */
  method PickFromWeightedList(pickList: seq<real>, fraction: real) returns (pickedIndex: int)
    ensures pickedIndex == LastMatch(pickList, DrawRoll(pickList, fraction), |pickList|)
    ensures -1 <= pickedIndex < |pickList|
    ensures pickedIndex >= 0 ==> Covers(pickList, DrawRoll(pickList, fraction), pickedIndex)
    ensures forall j | pickedIndex < j < |pickList| :: !Covers(pickList, DrawRoll(pickList, fraction), j)
  {
    var runningCost := 0.0;
    var totalCost := 0.0;
    for k := 0 to |pickList|
      invariant totalCost == Sum(pickList[..k])
    {
      SumOfLongerPrefix(pickList, k);
      totalCost := totalCost + pickList[k];
    }
    assert pickList[..|pickList|] == pickList;

    var drawRoll := totalCost * fraction;
    assert drawRoll == DrawRoll(pickList, fraction);
    pickedIndex := -1;
    var runningIndex := 0;
    while runningIndex < |pickList|
      invariant 0 <= runningIndex <= |pickList|
      invariant runningCost == Sum(pickList[..runningIndex])
      invariant pickedIndex == LastMatch(pickList, drawRoll, runningIndex)
    {
      var cost := pickList[runningIndex];
      if runningCost <= drawRoll && drawRoll <= runningCost + cost {
        pickedIndex := runningIndex;
      }
      SumOfLongerPrefix(pickList, runningIndex);
      runningCost := runningCost + cost;
      runningIndex := runningIndex + 1;
    }
  }

  /** Each integer weight taken as its numeric value. */
  function AsReals(s: seq<int>): (r: seq<real>)
    ensures |r| == |s|
    ensures forall i | 0 <= i < |s| :: r[i] == s[i] as real
  {
    seq(|s|, i requires 0 <= i < |s| => s[i] as real)
  }

  /**
   * `PickFromWeightedList(List<int>, Random)`: the same scan over the weights
   * read as numbers.
   */
  method PickFromWeightedIntList(pickList: seq<int>, fraction: real) returns (pickedIndex: int)
    ensures pickedIndex == LastMatch(AsReals(pickList), DrawRoll(AsReals(pickList), fraction), |pickList|)
    ensures -1 <= pickedIndex < |pickList|
    ensures forall j | pickedIndex < j < |pickList| :: !Covers(AsReals(pickList), DrawRoll(AsReals(pickList), fraction), j)
  {
    pickedIndex := PickFromWeightedList(AsReals(pickList), fraction);
  }

  ghost predicate NonNegative(s: seq<real>)
  {
    forall i | 0 <= i < |s| :: s[i] >= 0.0
  }

  ghost predicate AllZero(s: seq<real>)
  {
    forall i | 0 <= i < |s| :: s[i] == 0.0
  }

  lemma {:induction false} SumNonNegative(s: seq<real>)
    requires NonNegative(s)
    ensures Sum(s) >= 0.0
  {
    if s != [] {
      assert NonNegative(s[..|s| - 1]);
      SumNonNegative(s[..|s| - 1]);
    }
  }

  lemma {:induction false} SumAllZero(s: seq<real>)
    requires AllZero(s)
    ensures Sum(s) == 0.0
  {
    if s != [] {
      assert AllZero(s[..|s| - 1]);
      SumAllZero(s[..|s| - 1]);
    }
  }

  /**
   * With non-negative weights the closed intervals of the first `n` entries
   * tile [0, prefix(n)], so any roll in that range is claimed by some entry.
   */
  lemma {:induction false} CoveredWithinPrefix(pickList: seq<real>, roll: real, n: nat)
    requires 0 < n <= |pickList|
    requires NonNegative(pickList)
    requires 0.0 <= roll <= Sum(pickList[..n])
    ensures LastMatch(pickList, roll, n) >= 0
  {
    SumOfLongerPrefix(pickList, n - 1);
    if !Covers(pickList, roll, n - 1) {
      assert roll < Sum(pickList[..n - 1]);
      assert n - 1 > 0 by {
        assert pickList[..0] == [];
      }
      CoveredWithinPrefix(pickList, roll, n - 1);
    }
  }

  /** A fraction in [0, 1] of a non-negative total rolls within [0, total]. */
  lemma RollWithinTotal(pickList: seq<real>, fraction: real)
    requires Sum(pickList) >= 0.0 && 0.0 <= fraction <= 1.0
    ensures 0.0 <= DrawRoll(pickList, fraction) <= Sum(pickList)
  {
    var total := Sum(pickList);
    assert total - total * fraction == total * (1.0 - fraction);
  }

  /**
   * A non-empty list of non-negative weights with a fraction in [0, 1] always
   * yields an index, never -1.
   */
  lemma PickNeverMisses(pickList: seq<real>, fraction: real)
    requires |pickList| > 0
    requires NonNegative(pickList)
    requires 0.0 <= fraction <= 1.0
    ensures LastMatch(pickList, DrawRoll(pickList, fraction), |pickList|) >= 0
  {
    SumNonNegative(pickList);
    RollWithinTotal(pickList, fraction);
    assert pickList[..|pickList|] == pickList;
    CoveredWithinPrefix(pickList, DrawRoll(pickList, fraction), |pickList|);
  }

  /**
   * A non-empty all-zero list rolls 0, which every entry covers, so the scan
   * ends on the last index rather than reporting -1.
   */
  lemma AllZeroPicksLast(pickList: seq<real>, fraction: real)
    requires |pickList| > 0
    requires AllZero(pickList)
    ensures LastMatch(pickList, DrawRoll(pickList, fraction), |pickList|) == |pickList| - 1
  {
    SumAllZero(pickList);
    var n := |pickList|;
    assert AllZero(pickList[..n - 1]);
    SumAllZero(pickList[..n - 1]);
    assert Covers(pickList, DrawRoll(pickList, fraction), n - 1);
  }

  /**
   * A roll on a shared boundary goes to the last entry claiming it: with
   * weights [2, 0, 0, 3] and roll 2 (fraction 0.4) every entry claims the roll,
   * and the scan returns 3.
   */
  lemma BoundaryRollGoesToLastClaimant()
    ensures var w := [2.0, 0.0, 0.0, 3.0];
      DrawRoll(w, 0.4) == 2.0 &&
      (forall i | 0 <= i < 4 :: Covers(w, 2.0, i)) &&
      LastMatch(w, 2.0, 4) == 3
  {
    var w := [2.0, 0.0, 0.0, 3.0];
    assert w[..0] == [];
    SumOfLongerPrefix(w, 0);
    SumOfLongerPrefix(w, 1);
    SumOfLongerPrefix(w, 2);
    SumOfLongerPrefix(w, 3);
    assert w[..4] == w;
  }
}
