# ExtraMath: weighted picking, mirrored weight tables, neighbour rings

This project is a Dafny model of the parts of the game client's `ExtraMath` static class whose behaviour is discrete enough to state exactly:

- **Cumulative weighted picker** (`WeightedPick.dfy`). Both overloads of `PickFromWeightedList` work the same way:
  - they sum the weights and scale a random fraction by the total to get a roll;
  - they scan the list with a running prefix sum and record every index whose closed interval `[prefix, prefix + weight]` contains the roll;
  - the scan never stops early, so the last such index wins, and `-1` means that no interval contained the roll.

  The random fraction, which is what `(float)r.NextDouble()` returns, is an input. Weights are exact reals. The integer overload reads each weight as its numeric value and runs the same scan.
- **Weight tables** (`WeightTables.dfy`). The class `WeightCache` holds `Weights`, `BellWeights` and the `WeightsSetup` flag:
  - `SetupWeights` builds `BellWeights` with two appending loops: first a forward copy of `Weights`, then a backward one;
  - the guard shared by `GetWeightedRandom` and `GetBellWeightedRandom` builds the tables on first use and leaves them untouched afterwards;
  - the mirroring is also stated generically, as `Mirrored(s) == s + Reversed(s)` over any `seq<T>`, together with its length, palindrome and multiplicity properties.
- **Neighbour ring** (`NeighborCells.dfy`). `GetNeighborCells` works as follows:
  - for a positive distance, it enumerates the cells on the square ring at that Chebyshev distance around the start, filtered to the grid, column by column;
  - otherwise it returns the start clamped into the grid.

  The source bounds the row coordinate by `maxX`, and the model keeps that (see Findings).

Two consequences of the inclusive, no-early-exit scan are easy to miss:
- A non-empty all-zero list rolls `0`. Every entry's interval `[0, 0]` contains that roll, so the result is the last index, not `-1` (`AllZeroPicksLast`).
- With weights `[2, 0, 0, 3]` and a roll of exactly `2`, the entry at index 3 (interval `[2, 5]`) also contains the roll, so the result is `3`, not the second zero-weight entry at index `2` (`BoundaryRollGoesToLastClaimant`).

## Model

| member | source | states |
|---|---|---|
| `WeightedPick.LastMatch` | ExtraMath.cs:294-304 | the scan over the first `n` entries yields `-1` or an index below `n`; a non-negative result's interval `[prefix(i), prefix(i) + w_i]` contains the roll; no later index's interval contains it (last match wins) |
| `WeightedPick.PickFromWeightedList` | ExtraMath.cs:283-307 | the float overload's two loops return exactly the last covering index for the roll `sum * fraction`: `-1` or an index in range, covering the roll, with no covering index after it; an empty list gives `-1` |
| `WeightedPick.PickFromWeightedIntList` | ExtraMath.cs:315-339 | the int overload returns the same last covering index, with each integer weight read as its numeric value |
| `WeightedPick.CoveredWithinPrefix` | ExtraMath.cs:296-304 | with non-negative weights, the closed intervals of the first `n` entries cover `[0, prefix(n)]`, so the scan finds an index for any roll in that range |
| `WeightedPick.PickNeverMisses` | ExtraMath.cs:285-304 | a non-empty list of non-negative weights with a fraction in `[0, 1]` never yields `-1` |
| `WeightedPick.AllZeroPicksLast` | ExtraMath.cs:293-301 | a non-empty all-zero list yields its last index, not `-1` |
| `WeightedPick.BoundaryRollGoesToLastClaimant` | ExtraMath.cs:296-304 | for `[2, 0, 0, 3]` and fraction `0.4` the roll is `2`, all four entries contain it, and the result is `3` |
| `WeightTables.Reversed` | ExtraMath.cs:270-273 | the backward copy has the length of the original |
| `WeightTables.ReversedAt` | ExtraMath.cs:270-273 | position `k` of the backward copy holds the element `k` places from the end |
| `WeightTables.ReversedSameMultiset` | ExtraMath.cs:270-273 | the backward copy holds the same values with the same multiplicities |
| `WeightTables.MirroredIsPalindrome` | ExtraMath.cs:266-273 | the mirrored table has length `2·|Weights|` and `BellWeights[k] == BellWeights[2n-1-k]` |
| `WeightTables.MirroredDoublesCounts` | ExtraMath.cs:266-273 | the mirrored table's multiset is the original's taken twice, so each value occurs exactly twice as often |
| `WeightTables.MirroredSameShare` | ExtraMath.cs:200-207 | each value makes up the same share of both tables, so a uniform index into `BellWeights` gives the same value distribution as one into `Weights` |
| `WeightTables.WeightCache.constructor` | ExtraMath.cs:15-19 | before first use the flag is clear; the tables, absent (null) in the source until the guard first fills them, are modelled as empty |
| `WeightTables.WeightCache.SetupWeights` | ExtraMath.cs:245-273 | rebuilds the tables: `Weights` is the ramp and `BellWeights` is `Weights + Reversed(Weights)`; the flag is untouched |
| `WeightTables.WeightCache.EnsureWeights` | ExtraMath.cs:186-190 | after the guard, the flag is set and the tables hold the ramp and its mirror; if the flag was already set, nothing changes |
| `WeightTables.WeightCache.GetWeightedRandom` | ExtraMath.cs:184-192 | initialises the tables once and returns `min + deviation * Weights[index]`; with weights in `[0, 1]` and `deviation >= 0` the result lies in `[min, min + deviation]` |
| `WeightTables.WeightCache.GetBellWeightedRandom` | ExtraMath.cs:200-208 | the same over `BellWeights`, whose indices range over twice the ramp's length, with the same range guarantee |
| `NeighborCells.Clamp` | ExtraMath.cs:463 | the clamp used for the fallback cell: within `[min, max]` when `min <= max`, the identity inside the range, the nearest bound outside it (`min` below, `max` above), `min` when the bounds cross |
| `NeighborCells.RingCells` | ExtraMath.cs:441-459 | the nested loops return exactly the cells at Chebyshev distance `distance` from the start, other than the start, with `0 <= x < xBound` and `0 <= y < yBound`, each once, in increasing `x` and then increasing `y` |
| `NeighborCells.GetNeighborCells` | ExtraMath.cs:436-466 | for `distance > 0`, exactly the ring cells with both coordinates in `[0, maxX)`, strictly ordered; otherwise the single cell `(clamp(startX, 0, maxX-1), clamp(startY, 0, maxY-1))`, which lies in the grid when `maxX, maxY >= 1` |
| `NeighborCells.GetNeighborCellsInGrid` | ExtraMath.cs:436-466 | the same enumeration with rows bounded by `maxY`; every returned cell lies in the `maxX`-by-`maxY` grid |
| `NeighborCells.RowBoundByWidth` | ExtraMath.cs:451 | bounding rows by `maxX` leaves out cell `(0, 1)` of a 1-by-5 grid, which the `maxY` bound keeps, and lets in cell `(1, 1)` of a 5-by-1 grid, which the `maxY` bound rejects |
| `NeighborCells.OrderedBySameCells` | ExtraMath.cs:441-459 | two strictly ordered lists with the same cells are equal, so the ring's list is fixed by its membership |

## Findings

| source | as written | input that shows it | evidently intended | confidence | as-written member | corrected member |
|---|---|---|---|---|---|---|
| ExtraMath.cs:451 | `i < maxX && j < maxX` bounds the row coordinate by the grid's width | `GetNeighborCells(0, 0, 1, 5, 1)` returns `(0, 1)` and `(1, 1)`, both outside the 5-by-1 grid; `GetNeighborCells(0, 0, 1, 1, 5)` omits `(0, 1)`, which is inside the 1-by-5 grid | `j < maxY`, as the fallback branch's clamp to `maxY - 1` suggests | high; not executed | `NeighborCells.GetNeighborCells` (exhibited by `NeighborCells.RowBoundByWidth`) | `NeighborCells.GetNeighborCellsInGrid` |

## Left out

- The `Weights` ramp construction (ExtraMath.cs:249-263) is not modelled. Its entry counts depend on adding up `0.1f` in `float`. `WeightCache` is given the resulting table as `Ramp`, and only the mirroring and the initialise-once guard are verified.
- Floating-point arithmetic is not modelled. Sums, the roll and the `min + deviation * w` scaling are exact reals, so rounding of `runningCost`, `totalCost` and `drawRoll` is not captured.
- The random source is not modelled. The fraction returned by `(float)r.NextDouble()` and the index returned by `rnd.Next(Count)` are parameters. The coverage lemma allows the fraction to be exactly `1`, because the cast to `float` can round up to `1.0f`.
- `PickFromWeightedIntList` does not model the loss of precision when large integers are converted to `float`, or the weights' 32-bit width, since `seq<int>` is unbounded. Its weights are exact.
- `GetNeighborCells` does not model 32-bit overflow of `startX ± distance`, or `maxX - 1`. Coordinates are unbounded integers, and cells are values rather than freshly allocated `int[]` arrays. Two effects of overflow at ExtraMath.cs:441-445 are therefore not captured:
  - when `startX + distance == int.MaxValue`, the loop `i <= startX + distance` never ends, because `i++` wraps;
  - `Math.Abs(int.MinValue)` throws `OverflowException`.
- `MathHelper.Clamp` is a MonoGame library call, not defined in ExtraMath.cs. `Clamp` follows its int overload: cap at `max`, then raise to `min`, so `min` wins when the bounds cross.
- `WeightCache.constructor` models the source's `Weights` and `BellWeights` (ExtraMath.cs:15-16), which start out null, as empty tables. Nothing reads them before the guard fills them.
- Thread safety of the static lazy initialisation is not modelled. It is a concurrency concern; the model is sequential.
- The Box–Muller, averaged-uniform and other samplers are left out, because they rely on `System.Random`, transcendental functions or `float` rounding, which have no exact counterpart here. This covers `GetGaussianRandom`, `GetShapedCurvedRandom`, `GetSplitPercentage` and `GetMinMaxFloat*`.
- The `float` one-liners are left out, because they carry no discrete behaviour: `SmoothStep`, `EaseInOut`, `GetCurvedValue`, `GetDiminishingReturn`, `Clamp` on floats, `GetRangedValue`, `Get*ComponentValue`, `GetPercentage`, `ShortAngleDist` and `AngleLerp`. The geometry over XNA types (`GetDistance`, `GetAngle`, `GetHeight`, `GetWidth`) is left out for the same reason.
- Dead code is left out: the `SinCurve` table, `GetCurvedRandom` (which always returns 0) and `CurvedRandom`. `Test` is left out because it only prints statistics to the console.
