/**
 * The lazily built weight tables of ExtraMath. `Weights` is the ramp table;
 * `BellWeights` is `Weights` followed by `Weights` in reverse order. Both are
 * built once, behind the `WeightsSetup` flag, by whichever weighted sampler
 * runs first.
 *
 * The ramp itself comes from a `float` accumulation loop and is not modelled:
 * the cache is given the table that loop produces (`Ramp`).
 */
module WeightTables {

  /** The elements of `s` in the opposite order. */
  function Reversed<T>(s: seq<T>): (r: seq<T>)
    ensures |r| == |s|
  {
    if s == [] then [] else Reversed(s[1..]) + [s[0]]
  }

  /** A table followed by its own reverse: what the BellWeights loops build. */
  function Mirrored<T>(s: seq<T>): seq<T>
  {
    s + Reversed(s)
  }

  /** Position `k` of the reverse holds the element `k` places from the end. */
  lemma {:induction false} ReversedAt<T>(s: seq<T>, k: nat)
    requires k < |s|
    ensures Reversed(s)[k] == s[|s| - 1 - k]
  {
    if k < |s| - 1 {
      ReversedAt(s[1..], k);
    }
  }

  /** Reversing keeps every element with its multiplicity. */
  lemma {:induction false} ReversedSameMultiset<T>(s: seq<T>)
    ensures multiset(Reversed(s)) == multiset(s)
  {
    if s != [] {
      ReversedSameMultiset(s[1..]);
      assert s == [s[0]] + s[1..];
    }
  }

  /** The mirrored table is twice as long and reads the same backwards. */
  lemma MirroredIsPalindrome<T>(s: seq<T>)
    ensures |Mirrored(s)| == 2 * |s|
    ensures forall k | 0 <= k < 2 * |s| :: Mirrored(s)[k] == Mirrored(s)[2 * |s| - 1 - k]
  {
    var m := Mirrored(s);
    forall k | 0 <= k < 2 * |s|
      ensures m[k] == m[2 * |s| - 1 - k]
    {
      if k < |s| {
        ReversedAt(s, |s| - 1 - k);
      } else {
        ReversedAt(s, k - |s|);
      }
    }
  }

  /** Every value occurs in the mirrored table exactly twice as often. */
  lemma MirroredDoublesCounts<T>(s: seq<T>, v: T)
    ensures multiset(Mirrored(s)) == multiset(s) + multiset(s)
    ensures multiset(Mirrored(s))[v] == 2 * multiset(s)[v]
  {
    ReversedSameMultiset(s);
  }

  /**
   * A uniformly random index finds each value equally often in both tables:
   * the share of entries equal to `v` is the same, so the mirrored sampler has
   * the same value distribution as the plain one.
   */
  lemma MirroredSameShare<T>(s: seq<T>, v: T)
    ensures multiset(Mirrored(s))[v] * |s| == multiset(s)[v] * |Mirrored(s)|
  {
    MirroredDoublesCounts(s, v);
    TwiceOverTwice(multiset(s)[v], |s|);
  }

  /**
   * Only a nonlinear-arithmetic step for `MirroredSameShare`; it models
   * nothing. Kept apart so that the multiplication is solved without the
   * multiset facts in scope.
   */
  lemma TwiceOverTwice(c: nat, n: nat)
    ensures (2 * c) * n == c * (2 * n)
  {
  }

  /** Every entry lies in [0, 1]. */
  ghost predicate UnitWeights(s: seq<real>)
  {
    forall k | 0 <= k < |s| :: 0.0 <= s[k] <= 1.0
  }

  /** The process-wide tables and their initialisation flag. */
  class WeightCache {
    /** The table the ramp construction yields. */
    const Ramp: seq<real>
    var Weights: seq<real>
    var BellWeights: seq<real>
    var WeightsSetup: bool

    /** Once the flag is set, the tables hold the ramp and its mirror. */
    ghost predicate Valid()
      reads this
    {
      WeightsSetup ==> Weights == Ramp && BellWeights == Mirrored(Ramp)
    }

    constructor (ramp: seq<real>)
      ensures Valid() && Ramp == ramp
      ensures !WeightsSetup && Weights == [] && BellWeights == []
    {
      Ramp := ramp;
      Weights := [];
      BellWeights := [];
      WeightsSetup := false;
    }

    /**
     * Builds both tables from scratch: the ramp into `Weights`, then
     * `BellWeights` as a forward copy followed by a backward copy.
     */
    method SetupWeights()
      modifies this
      ensures Weights == Ramp && BellWeights == Mirrored(Ramp)
      ensures WeightsSetup == old(WeightsSetup)
    {
      Weights := Ramp;
      BellWeights := [];
      var f := 0;
      while f < |Weights|
        invariant 0 <= f <= |Weights|
        invariant Weights == Ramp && WeightsSetup == old(WeightsSetup)
        invariant BellWeights == Weights[..f]
      {
        BellWeights := BellWeights + [Weights[f]];
        f := f + 1;
      }
      f := |Weights| - 1;
      while f > -1
        invariant -1 <= f < |Weights|
        invariant Weights == Ramp && WeightsSetup == old(WeightsSetup)
        invariant BellWeights == Weights + Reversed(Weights[f + 1..])
      {
        assert Weights[f..][1..] == Weights[f + 1..];
        BellWeights := BellWeights + [Weights[f]];
        f := f - 1;
      }
    }

    /**
     * The guard shared by the weighted samplers: build the tables on first
     * use; once built they are left as they are.
     */
    method EnsureWeights()
      requires Valid()
      modifies this
      ensures Valid() && WeightsSetup
      ensures Weights == Ramp && BellWeights == Mirrored(Ramp)
      ensures old(WeightsSetup) ==> unchanged(this)
    {
      if !WeightsSetup {
        SetupWeights();
        WeightsSetup := true;
      }
    }

    /**
     * `GetWeightedRandom`: scales the ramp entry at a caller-supplied random
     * index into the range starting at `min`.
     */
    method GetWeightedRandom(min: real, deviation: real, index: nat) returns (v: real)
      requires Valid()
      requires index < |Ramp|
      modifies this
      ensures Valid() && WeightsSetup
      ensures old(WeightsSetup) ==> unchanged(this)
      ensures v == min + deviation * Weights[index]
      ensures UnitWeights(Ramp) && deviation >= 0.0 ==> min <= v <= min + deviation
    {
      EnsureWeights();
      v := min + deviation * Weights[index];
      ScaledWeightInRange(min, deviation, Weights[index]);
    }

    /**
     * `GetBellWeightedRandom`: the same over the mirrored table, whose length
     * is twice the ramp's.
     */
    method GetBellWeightedRandom(min: real, deviation: real, index: nat) returns (v: real)
      requires Valid()
      requires index < 2 * |Ramp|
      modifies this
      ensures Valid() && WeightsSetup
      ensures old(WeightsSetup) ==> unchanged(this)
      ensures v == min + deviation * BellWeights[index]
      ensures UnitWeights(Ramp) && deviation >= 0.0 ==> min <= v <= min + deviation
    {
      EnsureWeights();
      MirroredIsPalindrome(Weights);
      v := min + deviation * BellWeights[index];
      if index < |Weights| {
        ScaledWeightInRange(min, deviation, BellWeights[index]);
      } else {
        ReversedAt(Weights, index - |Weights|);
        ScaledWeightInRange(min, deviation, BellWeights[index]);
      }
    }
  }

  /** Scaling a weight from [0, 1] by a non-negative deviation stays in range. */
  lemma ScaledWeightInRange(min: real, deviation: real, w: real)
    ensures 0.0 <= w <= 1.0 && deviation >= 0.0 ==> min <= min + deviation * w <= min + deviation
  {
    if 0.0 <= w <= 1.0 && deviation >= 0.0 {
      assert deviation - deviation * w == deviation * (1.0 - w);
    }
  }
}
