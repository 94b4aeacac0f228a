# 2-opt TSP solver, modelled in Dafny

This project models the `TwoOptTSP` solver class of a small 2-opt
travelling-salesman program. The class turns a list of named cities into a
distance matrix. It builds a first tour, either greedy nearest-neighbour or
"random", and then improves the tour by 2-opt segment reversals until no
reversal gains more than `0.001`. Along the way it keeps the best tour, the
iteration, swap and improvement counters, and a history of best distances.
`get_statistics` summarises that state.

There are two modules:

- `TourMath` (`tour_math.dfy`) holds the value-level part:
  - distance matrices, and tours as sequences of city indices;
  - the closed-cycle length `TourLength` (a sum of `Edge`s);
  - the segment reversal `TwoOptSwap` and the constant-time `SwapDelta`;
  - the lemmas that tie them together, above all `DeltaIdentity`: reversing
    a segment changes the cycle length by exactly `SwapDelta`.
- `Algorithm` (`algorithm.dfy`) holds the class `TwoOptTSP`. It has the
  source's fields.
  - `cities`, `n` and `distanceMatrix` are fixed at construction.
  - `bestTour`, `bestDistance`, `iterations`, `swapsMade`, `improvements` and
    `distanceHistory` are updated in place.
  - The loops of the source are `method`s with loop invariants.
  - `solve` keeps its restart-after-first-improvement scan and its
    `i` ascending, `k` ascending order. One pass of the `while improved`
    loop is `ScanPass`; the body run for an accepted swap is `ApplySwap`.

Modelling decisions:

- Python floats are modelled as `real`, and the distance function of
  `src/utilities.py` is a parameter `pointDistance`.
- `float('inf')` becomes `Distance.Infinite`, and `best_tour = None` is the
  empty sequence.
- A city tuple `(name, x, y)` is the datatype `City`.
- With `"random"`, the initial tour is the identity: the source shuffles
  `tour[1:]`, which is a copy, so the list it returns has never been
  shuffled. `CreateInitialTourRandom` states exactly that.
- `min(unvisited, key=...)` is `Nearest`. It scans indices in ascending
  order and keeps the first minimum, which is what `min` does on a set of
  small integers.
- `solve` does not reset `swaps_made`, `improvements` or
  `distance_history`, and `Solve` does not either. Its contract counts this
  run's swaps as the difference from the old counters, and it keeps the old
  history as a prefix.
- The recorded distances are numpy `float64` values: the tour length
  starts from `0` and adds matrix entries. So when the first recorded
  distance is 0, for example when all cities share one point,
  `get_statistics` does not raise. The division gives NaN, or an infinity
  when the best distance is not 0, and the whole record is still returned.
  `Percent` models that quotient as a number, `NotANumber`, `PlusInfinity` or
  `MinusInfinity`.

## Model

| member | source | states |
|---|---|---|
| Algorithm.TwoOptTSP.constructor | src/algorithm.py:15-35 | fields as initialised: cities, `n = len(cities)`, the distance matrix of the cities, no best tour, infinite best distance, zero counters, empty history |
| Algorithm.TwoOptTSP.CreateDistanceMatrix | src/algorithm.py:45-60 | the result is `n` by `n`, each off-diagonal entry is the point distance of its two cities, and the diagonal is 0 |
| Algorithm.DistanceMatrixSymmetric | src/algorithm.py:50-58 | the matrix is symmetric whenever the point distance is symmetric in its two points |
| Algorithm.DistanceMatrixNonNegative | src/algorithm.py:50-58 | the matrix is non-negative whenever the point distance is |
| Algorithm.TwoOptTSP.CalculateTourDistance | src/algorithm.py:62-67 | the accumulated sum equals `TourLength`, the closed-cycle length including the edge from the last city back to the first |
| TourMath.NextPosition | src/algorithm.py:66 | the successor position used by `Edge` is the source's `(i + 1) % len(tour)` |
| TourMath.TourLengthNonNegative | src/algorithm.py:62-67 | on a non-negative matrix every tour length is at least 0 |
| Algorithm.TwoOptTSP.Nearest | src/algorithm.py:76 | the result is unvisited, no unvisited city is closer to `current`, and every unvisited city with a lower index is strictly farther (first minimum wins) |
| Algorithm.TwoOptTSP.CreateInitialTourNearestNeighbor | src/algorithm.py:69-81 | for `n > 0`: a permutation of `0..n-1` that starts at 0 and picks the greedy nearest city, lowest index on ties, at every step; for `n = 0`: `[0]` |
| Algorithm.NearestNeighborExtend | src/algorithm.py:75-79 | appending the city `min` picks keeps the tour greedy at every step |
| Algorithm.VisitStep | src/algorithm.py:77-78 | moving the chosen city from `unvisited` to the tour keeps the two a partition of the cities, with no repeats |
| Algorithm.TwoOptTSP.CreateInitialTourRandom | src/algorithm.py:83-87 | the tour is the identity `0, 1, ..., n-1`, so it is a permutation starting at 0 (the shuffle acts on a copy) |
| TourMath.Reverse | src/algorithm.py:100 | `[::-1]`: same length, position `j` holds the element at `len - 1 - j` |
| TourMath.ReversePermutes | src/algorithm.py:100 | reversal keeps the multiset of elements |
| TourMath.TwoOptSwap | src/algorithm.py:89-101 | same length; positions before `i` and after `k` are unchanged; position `j` in `[i, k]` holds `tour[i + k - j]` |
| TourMath.SwapPermutes | src/algorithm.py:100 | the swapped tour is a permutation of the old one (same multiset) |
| TourMath.SwapPreservesTour | src/algorithm.py:100 | for `1 <= i < k < n`, a tour stays a tour (in range, no repeats, every city) and its first city is kept |
| TourMath.SwapDelta | src/algorithm.py:103-120 | on a symmetric matrix the wrap-around move `i = 1`, `k = n - 1` has delta 0 |
| TourMath.DeltaIdentity | src/algorithm.py:103-120 | on a symmetric matrix, the length after reversing `[i, k]` is the length before plus `SwapDelta`, for every `1 <= i < k < n`, including the wrap-around case |
| TourMath.PathReversed | src/algorithm.py:100 | traversing a stretch of edges backwards keeps its length (the core of the delta identity) |
| Algorithm.TwoOptTSP.Solve | src/algorithm.py:122-231 | returns the best tour and its length; the result is a permutation keeping city 0, is a 2-opt local optimum and is no longer than the start; `iterations` is this run's swaps plus one; the history gains strictly decreasing entries (full list below) |
| Algorithm.TwoOptTSP.Begin | src/algorithm.py:134-143 | the initial tour is built by the chosen method; its length becomes the best distance and is appended to the history |
| Algorithm.TwoOptTSP.ScanPass | src/algorithm.py:166-215 | either nothing changes and the tour is a local optimum, or the first pair in scan order with delta below `-Epsilon` is applied and every earlier pair has delta of at least `-Epsilon` (full list below) |
| Algorithm.TwoOptTSP.ApplySwap | src/algorithm.py:186-196 | the new tour is `TwoOptSwap(tour, i, k)` and still a tour with its first city kept; the running distance plus delta is its true length; both counters go up by one; it becomes the best tour and is appended to the history |
| Algorithm.DecreasingAppend | src/algorithm.py:193-196 | appending a distance more than `Epsilon` below the last keeps the history strictly decreasing by more than `Epsilon` |
| Algorithm.RangeSet | src/algorithm.py:71 | `set(range(lo, hi))`: membership is exactly `lo <= c < hi`, and it has `hi - lo` elements |
| Algorithm.ImprovementPercent | src/algorithm.py:242-243 | `float64` division: a number `p` with `p * initial == (initial - best) * 100` when `initial != 0`; when `initial == 0`, NaN exactly when `best == 0`, +infinity exactly when `best < 0`, and -infinity exactly when `best > 0` |
| Algorithm.PercentInRange | src/algorithm.py:242-243 | a non-zero initial distance and a best distance between 0 and it give a percentage that is a number from 0 to 100 |
| Algorithm.TwoOptTSP.GetStatistics | src/algorithm.py:233-245 | always returns the record: counters, best distance and history copied; the initial distance is `history[0]` (0 if empty); the percentage is 0 for an empty history, a number with `percent * history[0] == (history[0] - best) * 100` for `history[0] != 0`, and NaN exactly when `history[0] == best == 0` (full list below) |

`Solve` (src/algorithm.py:122-231) promises:

- it returns `(best_tour, best_distance)`;
- the starting tour is the nearest-neighbour tour, or the identity for any
  other method name;
- the final tour is a permutation with its first city unchanged, and its
  distance is its true cycle length;
- the final distance lies between 0 and the initial length;
- the final tour is a 2-opt local optimum: no pair `1 <= i < k < n` has
  delta below `-Epsilon`;
- the loop ends, `iterations` is this run's swaps plus one, and
  `improvements` moves with `swaps_made`;
- the history keeps its old entries, gains one entry per iteration, starts
  with the initial length and decreases by more than `Epsilon` at each step.

`ScanPass` (src/algorithm.py:166-215) promises:

- with no improving pair, nothing changes and the tour is a local optimum;
- otherwise `(i, k)` is the first pair in scan order with delta below
  `-Epsilon`, and every pair before it has delta of at least `-Epsilon`;
- the tour is replaced by its reversal, whose length is
  `current_distance + delta`;
- both counters rise by one, and the new distance becomes the best and is
  appended to the history.

`GetStatistics` (src/algorithm.py:233-245) promises:

- it always returns the record, and never fails;
- the counters, best distance and history are copied;
- the initial distance is `history[0]`, or 0 when the history is empty;
- the percentage is the number 0 when the history is empty;
- when `history[0] != 0`, the percentage is a number satisfying
  `percent * history[0] == (history[0] - best) * 100`;
- when `history[0] == 0`, the percentage is NaN exactly when the best
  distance is 0 too;
- when `0 <= best <= history[0]`, the percentage is a number in `[0, 100]`,
  or NaN in the all-zero case.

## Left out

- `calculate_distance` (src/utilities.py) is not part of this model. The
  point distance is a parameter, and symmetry or non-negativity are
  hypotheses where they are needed.
- The progress callback, `set_progress_callback`, `time.sleep`,
  `time.time`, `start_time`, `end_time` and `computation_time` are left
  out, because they are I/O and the clock. `computation_time` is missing
  from `Statistics` for the same reason.
- `random.shuffle` is never observable, because it shuffles a copy. The
  model has no randomness.
- Floating-point rounding is left out: distances are exact reals, so the
  invariant "running distance equals the true tour length" holds exactly
  here. In the source it holds only up to rounding.
- numpy is not modelled: its matrix is a sequence of rows.
- The GUI, canvas widget and `main.py` are callers, not the core.
- Algorithm.TwoOptTSP.Solve: requires at least one city. With no cities:
  - the nearest-neighbour tour is `[0]`, and measuring it indexes an empty
    matrix, which raises in the source;
  - any other method gives the tour `[]`, of length the int `0`, and an
    empty scan, so the source returns `([], 0)`. A later `get_statistics`
    then divides the int `0` by itself and raises `ZeroDivisionError`.

  The model covers neither case. The GUI in `src/gui.py` only calls the
  solver with at least 4 cities.
- Algorithm.TwoOptTSP.Solve: requires a symmetric, non-negative distance
  matrix. The source needs symmetry for `calculate_swap_delta` to equal the
  real change in length, and non-negativity to bound the number of swaps.
  Euclidean distances have both properties.
- Algorithm.TwoOptTSP.Solve: the initial method is a string, as in the
  source. Only `"nearest_neighbor"` selects the greedy tour; every other
  value selects the identity tour.
- Algorithm.TwoOptTSP.Solve: returns the initial tour as a ghost
  out-parameter, `start`, so that the contract can speak of it. The source
  does not return it.
- TourMath.TwoOptSwap: the slice arithmetic is modelled only for
  `i <= k < len(tour)`, which is all the solver uses. Python slicing
  outside that range is not modelled.
