/**
  The 2-opt solver for the travelling salesman problem: a session object
  that owns the cities, their distance matrix, the best tour found so far
  and the search statistics.
 */
module Algorithm {
  import opened TourMath

  /** Swaps that gain less than this are treated as floating-point noise. */
  const Epsilon: real := 0.001

  /** A city as the caller supplies it: a name and planar coordinates. */
  datatype City = City(name: string, x: real, y: real)

  /** Best distance so far: infinite until the first solve sets it. */
  datatype Distance = Infinite | Finite(value: real)

  /** `x < d`, where every finite value is below infinity. */
  predicate Below(x: real, d: Distance)
  {
    d.Infinite? || x < d.value
  }

  /**
    The improvement percentage as a double-precision quotient: a number, or
    what IEEE 754 division by zero yields (NaN for 0/0, an infinity otherwise).
   */
  datatype Percent = Number(value: real) | NotANumber | PlusInfinity | MinusInfinity

  /** The statistics record handed to the caller (wall-clock time left out). */
  datatype Statistics = Statistics(
    iterations: nat,
    swapsMade: nat,
    improvements: nat,
    bestDistance: Distance,
    initialDistance: real,
    improvementPercent: Percent,
    distanceHistory: seq<real>)

  /** `(initial - best) / initial * 100` in double-precision semantics, rounding left out. */
  function ImprovementPercent(initial: real, best: real): (p: Percent)
    ensures initial != 0.0 ==> p.Number? && p.value * initial == (initial - best) * 100.0
    ensures initial == 0.0 ==> (p.NotANumber? <==> best == 0.0)
    ensures initial == 0.0 ==> (p.PlusInfinity? <==> best < 0.0)
    ensures initial == 0.0 ==> (p.MinusInfinity? <==> best > 0.0)
  {
    if initial != 0.0 then Number((initial - best) / initial * 100.0)
    else if best == 0.0 then NotANumber
    else if best < 0.0 then PlusInfinity
    else MinusInfinity
  }

  /** Entry `(i, j)` of the distance matrix of `cities` under `pointDistance`. */
  function MatrixEntry(cities: seq<City>, pointDistance: (real, real, real, real) -> real, i: nat, j: nat): real
    requires i < |cities| && j < |cities|
  {
    if i != j then pointDistance(cities[i].x, cities[i].y, cities[j].x, cities[j].y) else 0.0
  }

  /** `m` is the `n` by `n` distance matrix of `cities`, zero on the diagonal. */
  ghost predicate IsDistanceMatrix(m: seq<seq<real>>, cities: seq<City>, pointDistance: (real, real, real, real) -> real)
  {
    IsSquare(m, |cities|) &&
    forall i, j :: 0 <= i < |cities| && 0 <= j < |cities| ==> m[i][j] == MatrixEntry(cities, pointDistance, i, j)
  }

  lemma DistanceMatrixSymmetric(m: seq<seq<real>>, cities: seq<City>, pointDistance: (real, real, real, real) -> real)
    requires IsDistanceMatrix(m, cities, pointDistance)
    requires forall x1, y1, x2, y2 :: pointDistance(x1, y1, x2, y2) == pointDistance(x2, y2, x1, y1)
    ensures Symmetric(m)
  {
  }

  lemma DistanceMatrixNonNegative(m: seq<seq<real>>, cities: seq<City>, pointDistance: (real, real, real, real) -> real)
    requires IsDistanceMatrix(m, cities, pointDistance)
    requires forall x1, y1, x2, y2 :: 0.0 <= pointDistance(x1, y1, x2, y2)
    ensures NonNegative(m)
  {
  }

  /**
    Step `p` of a nearest-neighbour tour: `t[p]` is at least as close to
    `t[p - 1]` as every city not yet placed in `t[..p]`, and strictly closer
    than every such city with a lower index.
   */
  ghost predicate GreedyStep(m: seq<seq<real>>, t: seq<nat>, p: nat)
    requires IsSquare(m, |m|) && InRange(t, |m|) && 1 <= p < |t|
  {
    forall c :: 0 <= c < |m| && c !in t[..p] ==>
      m[t[p - 1]][t[p]] <= m[t[p - 1]][c] && (c < t[p] ==> m[t[p - 1]][t[p]] < m[t[p - 1]][c])
  }

  /** `t` starts at city 0 and every later city is the greedy choice. */
  ghost predicate IsNearestNeighborTour(m: seq<seq<real>>, t: seq<nat>)
    requires IsSquare(m, |m|) && InRange(t, |m|)
  {
    |t| >= 1 && t[0] == 0 && forall p :: 1 <= p < |t| ==> GreedyStep(m, t, p)
  }

  lemma GreedyStepExtend(m: seq<seq<real>>, t: seq<nat>, x: nat, p: nat)
    requires IsSquare(m, |m|) && InRange(t, |m|) && x < |m| && 1 <= p < |t|
    requires GreedyStep(m, t, p)
    ensures InRange(t + [x], |m|) && GreedyStep(m, t + [x], p)
  {
    assert (t + [x])[..p] == t[..p];
  }

  /**
    The bookkeeping of the nearest-neighbour walk over `n > 0` cities: the
    visited cities `tour` and the set `unvisited` split `0..n-1` between them.
   */
  ghost predicate VisitSplit(tour: seq<nat>, unvisited: set<nat>, n: nat)
  {
    InRange(tour, n) && Distinct(tour) && |tour| + |unvisited| == n &&
    (forall c :: c in unvisited ==> c < n) &&
    (forall j :: 0 <= j < |tour| ==> tour[j] !in unvisited) &&
    (forall c :: 0 <= c < n ==> c in unvisited || c in tour)
  }

  /** Moving one unvisited city to the end of the tour keeps the split. */
  lemma VisitStep(tour: seq<nat>, unvisited: set<nat>, n: nat, x: nat)
    requires VisitSplit(tour, unvisited, n) && x in unvisited
    ensures VisitSplit(tour + [x], unvisited - {x}, n)
  {
    var t := tour + [x];
    forall j1, j2 | 0 <= j1 < j2 < |t| ensures t[j1] != t[j2] {
      if j2 == |tour| {
        assert t[j1] == tour[j1];
      } else {
        assert t[j1] == tour[j1] && t[j2] == tour[j2];
      }
    }
  }

  /** With nothing left unvisited, the tour holds every city once. */
  lemma VisitDone(tour: seq<nat>, n: nat)
    requires VisitSplit(tour, {}, n)
    ensures IsTour(tour, n)
  {
  }

  /**
    Appending the nearest city among the unvisited ones (lowest index on a
    tie) to a greedy tour keeps it greedy.
   */
  lemma NearestNeighborExtend(m: seq<seq<real>>, t: seq<nat>, x: nat, unvisited: set<nat>)
    requires IsSquare(m, |m|) && InRange(t, |m|) && x < |m|
    requires IsNearestNeighborTour(m, t)
    requires forall c :: 0 <= c < |m| ==> c in unvisited || c in t
    requires forall c :: c in unvisited ==> c < |m|
    requires forall c :: c in unvisited ==> m[t[|t| - 1]][x] <= m[t[|t| - 1]][c]
    requires forall c :: c in unvisited && c < x ==> m[t[|t| - 1]][x] < m[t[|t| - 1]][c]
    ensures InRange(t + [x], |m|) && IsNearestNeighborTour(m, t + [x])
  {
    var s := t + [x];
    forall p | 1 <= p < |s|
      ensures GreedyStep(m, s, p)
    {
      if p < |t| {
        GreedyStepExtend(m, t, x, p);
      } else {
        assert s[..|t|] == t;
        assert s[|t| - 1] == t[|t| - 1];
      }
    }
  }

  /** No 2-opt move in the scanned range gains more than `Epsilon`. */
  ghost predicate IsLocalOptimum(m: seq<seq<real>>, t: seq<nat>)
    requires IsSquare(m, |m|) && InRange(t, |m|)
  {
    forall i, k :: 1 <= i < k < |t| ==> SwapDelta(m, t, i, k) >= -Epsilon
  }

  /** The set `{lo, ..., hi - 1}`: Python's `set(range(lo, hi))`. */
  function RangeSet(lo: nat, hi: nat): (s: set<nat>)
    ensures forall c :: c in s <==> lo <= c < hi
    ensures |s| == if lo <= hi then hi - lo else 0
    decreases hi
  {
    if hi <= lo then {} else RangeSet(lo, hi - 1) + {hi - 1}
  }

  /** Each entry of `h` is more than `Epsilon` below the one before it. */
  ghost predicate DecreasesByMoreThanEpsilon(h: seq<real>)
  {
    forall j :: 0 <= j < |h| - 1 ==> h[j + 1] < h[j] - Epsilon
  }

  lemma DecreasingAppend(h: seq<real>, x: real)
    requires DecreasesByMoreThanEpsilon(h) && |h| > 0 && x < h[|h| - 1] - Epsilon
    ensures DecreasesByMoreThanEpsilon(h + [x])
  {
  }

  /**
    Appending to a history of the form `a + b` appends to `b`. Stated once
    here, so the search loop does not re-derive sequence equality in its
    large proof context.
   */
  lemma AppendAssociative(a: seq<real>, b: seq<real>, x: real)
    ensures (a + b) + [x] == a + (b + [x])
  {
  }

  /** A whole number of `Epsilon` (one thousandth) steps that exceeds `x`. */
  lemma SwapBudget(x: real) returns (budget: nat)
    requires 0.0 <= x
    ensures x * 1000.0 < budget as real
  {
    budget := (x * 1000.0).Floor + 1;
  }

  /** A best distance between 0 and the initial one is an improvement of 0 to 100 percent. */
  lemma PercentInRange(initial: real, best: real)
    ensures initial != 0.0 && 0.0 <= best <= initial ==>
      ImprovementPercent(initial, best).Number? && 0.0 <= ImprovementPercent(initial, best).value <= 100.0
  {
    if initial != 0.0 && 0.0 <= best <= initial {
      assert (initial - best) / initial <= 1.0;
    }
  }

  class TwoOptTSP {
    const cities: seq<City>
    const n: nat
    const distanceMatrix: seq<seq<real>>
    var bestTour: seq<nat>
    var bestDistance: Distance
    var iterations: nat
    var swapsMade: nat
    var improvements: nat
    var distanceHistory: seq<real>

    /**
      The session invariant: the matrix is `n` by `n`; the two counters move
      together; the best distance is set exactly when the history is
      non-empty, and then it is the last entry of the history.
     */
    ghost predicate Valid()
      reads this
    {
      n == |cities| && IsSquare(distanceMatrix, n) &&
      swapsMade == improvements &&
      (bestDistance.Finite? <==> |distanceHistory| > 0) &&
      (bestDistance.Infinite? ==> bestTour == []) &&
      (bestDistance.Finite? ==> distanceHistory[|distanceHistory| - 1] == bestDistance.value)
    }

    constructor (cities: seq<City>, pointDistance: (real, real, real, real) -> real)
      ensures Valid()
      ensures this.cities == cities && n == |cities|
      ensures IsDistanceMatrix(distanceMatrix, cities, pointDistance)
      ensures bestTour == [] && bestDistance == Infinite
      ensures iterations == 0 && swapsMade == 0 && improvements == 0 && distanceHistory == []
    {
      this.cities := cities;
      n := |cities|;
      var matrix := TwoOptTSP.CreateDistanceMatrix(cities, pointDistance);
      distanceMatrix := matrix;
      bestTour := [];
      bestDistance := Infinite;
      iterations, swapsMade, improvements := 0, 0, 0;
      distanceHistory := [];
    }

    /** Fills an `n` by `n` table of zeros row by row with point distances. */
    static method CreateDistanceMatrix(cities: seq<City>, pointDistance: (real, real, real, real) -> real)
      returns (matrix: seq<seq<real>>)
      ensures IsDistanceMatrix(matrix, cities, pointDistance)
    {
      var n := |cities|;
      matrix := seq(n, _ => seq(n, _ => 0.0));
      for i := 0 to n
        invariant IsSquare(matrix, n)
        invariant forall r, j :: 0 <= r < i && 0 <= j < n ==> matrix[r][j] == MatrixEntry(cities, pointDistance, r, j)
      {
        for j := 0 to n
          invariant IsSquare(matrix, n)
          invariant forall r, j' :: 0 <= r < i && 0 <= j' < n ==> matrix[r][j'] == MatrixEntry(cities, pointDistance, r, j')
          invariant forall j' :: 0 <= j' < j ==> matrix[i][j'] == MatrixEntry(cities, pointDistance, i, j')
        {
          if i != j {
            matrix := matrix[i := matrix[i][j := pointDistance(cities[i].x, cities[i].y, cities[j].x, cities[j].y)]];
          } else {
            matrix := matrix[i := matrix[i][j := 0.0]];
          }
        }
      }
    }

    /** The length of `tour` as a closed cycle, accumulated edge by edge. */
    method CalculateTourDistance(tour: seq<nat>) returns (distance: real)
      requires Valid() && InRange(tour, n)
      ensures distance == TourLength(distanceMatrix, tour)
    {
      distance := 0.0;
      for i := 0 to |tour|
        invariant distance == PathLength(distanceMatrix, tour, 0, i)
      {
        NextPosition(i, |tour|);
        distance := distance + distanceMatrix[tour[i]][tour[(i + 1) % |tour|]];
      }
    }

    /**
      The unvisited city nearest to `current`, scanning indices in ascending
      order and keeping the first minimum, as `min` over a set of small
      integers does.
     */
    method Nearest(current: nat, unvisited: set<nat>) returns (nearest: nat)
      requires Valid() && current < n
      requires unvisited != {} && forall c :: c in unvisited ==> c < n
      ensures nearest in unvisited
      ensures forall c :: c in unvisited ==> distanceMatrix[current][nearest] <= distanceMatrix[current][c]
      ensures forall c :: c in unvisited && c < nearest ==> distanceMatrix[current][nearest] < distanceMatrix[current][c]
    {
      var found := false;
      nearest := 0;
      for c := 0 to n
        invariant found ==> nearest in unvisited && nearest < c
        invariant found ==> forall c' :: 0 <= c' < c && c' in unvisited ==>
          distanceMatrix[current][nearest] <= distanceMatrix[current][c'] &&
          (c' < nearest ==> distanceMatrix[current][nearest] < distanceMatrix[current][c'])
        invariant !found ==> forall c' :: 0 <= c' < c ==> c' !in unvisited
      {
        if c in unvisited && (!found || distanceMatrix[current][c] < distanceMatrix[current][nearest]) {
          nearest := c;
          found := true;
        }
      }
      ghost var w :| w in unvisited;
      assert found;
    }

    /**
      The greedy tour: start at city 0 and repeatedly move to the nearest
      city not yet visited.
     */
    method CreateInitialTourNearestNeighbor() returns (tour: seq<nat>)
      requires Valid()
      ensures n == 0 ==> tour == [0]
      ensures n > 0 ==> IsTour(tour, n) && IsNearestNeighborTour(distanceMatrix, tour)
    {
      var unvisited := RangeSet(1, n);
      tour := [0];
      var current := 0;
      while unvisited != {}
        invariant |tour| >= 1 && tour[0] == 0 && current == tour[|tour| - 1]
        invariant n == 0 ==> tour == [0] && unvisited == {}
        invariant n > 0 ==> VisitSplit(tour, unvisited, n) && IsNearestNeighborTour(distanceMatrix, tour)
        decreases |unvisited|
      {
        var nearest := Nearest(current, unvisited);
        NearestNeighborExtend(distanceMatrix, tour, nearest, unvisited);
        VisitStep(tour, unvisited, n, nearest);
        tour := tour + [nearest];
        unvisited := unvisited - {nearest};
        current := nearest;
      }
      if n > 0 {
        VisitDone(tour, n);
      }
    }

    /**
      The "random" initial tour. The shuffle in the source acts on a copy of
      the tail, so the tour returned is the identity ordering.
     */
    function CreateInitialTourRandom(): (tour: seq<nat>)
      ensures IsTour(tour, n)
      ensures forall j :: 0 <= j < n ==> tour[j] == j
    {
      var identity: seq<nat> := seq(n, j => j);
      IdentityIsTour(identity, n);
      identity
    }

    /**
      Builds the initial tour, then runs first-improvement 2-opt: scan the
      pairs `(i, k)` with `i` ascending from 1 and `k` ascending from `i + 1`,
      apply the first reversal that gains more than `Epsilon`, and restart the
      scan; stop after a pass that applies nothing. Returns the best tour and
      its length. `start` is the initial tour, for the contract only.
     */
    method Solve(initialMethod: string) returns (finalTour: seq<nat>, finalDistance: real, ghost start: seq<nat>)
      requires Valid() && n >= 1
      requires Symmetric(distanceMatrix) && NonNegative(distanceMatrix)
      modifies this
      ensures Valid()
      ensures finalTour == bestTour && bestDistance == Finite(finalDistance)
      ensures IsTour(start, n) && start[0] == 0
      ensures initialMethod == "nearest_neighbor" ==> IsNearestNeighborTour(distanceMatrix, start)
      ensures initialMethod != "nearest_neighbor" ==> start == CreateInitialTourRandom()
      ensures IsTour(finalTour, n) && finalTour[0] == start[0]
      ensures finalDistance == TourLength(distanceMatrix, finalTour)
      ensures 0.0 <= finalDistance <= TourLength(distanceMatrix, start)
      ensures IsLocalOptimum(distanceMatrix, finalTour)
      ensures old(swapsMade) <= swapsMade && iterations == swapsMade - old(swapsMade) + 1
      ensures improvements - old(improvements) == swapsMade - old(swapsMade)
      ensures |distanceHistory| == |old(distanceHistory)| + iterations
      ensures distanceHistory[..|old(distanceHistory)|] == old(distanceHistory)
      ensures distanceHistory[|old(distanceHistory)|] == TourLength(distanceMatrix, start)
      ensures forall j :: |old(distanceHistory)| <= j < |distanceHistory| - 1 ==>
        distanceHistory[j + 1] < distanceHistory[j] - Epsilon
      ensures (swapsMade - old(swapsMade)) as real <= (TourLength(distanceMatrix, start) - finalDistance) * 1000.0
    {
      var tour, currentDistance := Begin(initialMethod);
      start := tour;
      ghost var run := [currentDistance];
      TourLengthNonNegative(distanceMatrix, tour);

      // Every accepted swap lowers the length by more than Epsilon and the
      // length never drops below 0, so fewer than `budget` swaps can happen.
      ghost var budget := SwapBudget(currentDistance);
      var improved := true;
      iterations := 0;
      ghost var runSwaps: nat := 0;
      while improved
        invariant Valid()
        invariant IsTour(tour, n) && tour[0] == start[0]
        invariant currentDistance == TourLength(distanceMatrix, tour) && 0.0 <= currentDistance
        invariant bestTour == tour && bestDistance == Finite(currentDistance)
        invariant swapsMade == old(swapsMade) + runSwaps && improvements == old(improvements) + runSwaps
        invariant iterations == runSwaps + (if improved then 0 else 1)
        invariant distanceHistory == old(distanceHistory) + run
        invariant |run| == runSwaps + 1
        invariant run[0] == TourLength(distanceMatrix, start) && run[|run| - 1] == currentDistance
        invariant DecreasesByMoreThanEpsilon(run)
        invariant runSwaps as real <= (run[0] - currentDistance) * 1000.0
        invariant !improved ==> IsLocalOptimum(distanceMatrix, tour)
        decreases budget - runSwaps, improved
      {
        iterations := iterations + 1;
        ghost var swapI, swapK;
        improved, tour, currentDistance, swapI, swapK := ScanPass(tour, currentDistance);
        if improved {
          DecreasingAppend(run, currentDistance);
          AppendAssociative(old(distanceHistory), run, currentDistance);
          run := run + [currentDistance];
          runSwaps := runSwaps + 1;
          TourLengthNonNegative(distanceMatrix, tour);
        }
      }
      finalTour, finalDistance := bestTour, bestDistance.value;
    }

    /**
      The set-up phase of `Solve`: build the initial tour, measure it, make it
      the best tour so far and record its length in the history.
     */
    method Begin(initialMethod: string) returns (tour: seq<nat>, currentDistance: real)
      requires Valid() && n >= 1
      modifies this`bestTour, this`bestDistance, this`distanceHistory
      ensures Valid()
      ensures IsTour(tour, n) && tour[0] == 0
      ensures initialMethod == "nearest_neighbor" ==> IsNearestNeighborTour(distanceMatrix, tour)
      ensures initialMethod != "nearest_neighbor" ==> tour == CreateInitialTourRandom()
      ensures currentDistance == TourLength(distanceMatrix, tour)
      ensures bestTour == tour && bestDistance == Finite(currentDistance)
      ensures distanceHistory == old(distanceHistory) + [currentDistance]
    {
      if initialMethod == "nearest_neighbor" {
        tour := CreateInitialTourNearestNeighbor();
      } else {
        tour := CreateInitialTourRandom();
      }
      currentDistance := CalculateTourDistance(tour);
      bestTour := tour;
      bestDistance := Finite(currentDistance);
      distanceHistory := distanceHistory + [currentDistance];
    }

    /**
      One pass of the search loop: scan `(i, k)` with `i` ascending from 1 and
      `k` ascending from `i + 1`; at the first pair whose delta is below
      `-Epsilon`, reverse that segment, count the swap, record the new best
      and stop the pass. `improved` is false when no pair qualified.
      `swapI` and `swapK` name the pair applied, for the contract only.
     */
    method ScanPass(tour: seq<nat>, currentDistance: real)
      returns (improved: bool, newTour: seq<nat>, newDistance: real, ghost swapI: nat, ghost swapK: nat)
      requires Valid() && n >= 1 && Symmetric(distanceMatrix)
      requires IsTour(tour, n) && currentDistance == TourLength(distanceMatrix, tour)
      requires bestTour == tour && bestDistance == Finite(currentDistance)
      modifies this`bestTour, this`bestDistance, this`swapsMade, this`improvements, this`distanceHistory
      ensures Valid()
      ensures bestTour == newTour && bestDistance == Finite(newDistance)
      ensures !improved ==>
        newTour == tour && newDistance == currentDistance && IsLocalOptimum(distanceMatrix, tour) &&
        swapsMade == old(swapsMade) && improvements == old(improvements) &&
        distanceHistory == old(distanceHistory)
      ensures improved ==>
        1 <= swapI < swapK < n && SwapDelta(distanceMatrix, tour, swapI, swapK) < -Epsilon &&
        newTour == TwoOptSwap(tour, swapI, swapK) &&
        newDistance == currentDistance + SwapDelta(distanceMatrix, tour, swapI, swapK) &&
        swapsMade == old(swapsMade) + 1 && improvements == old(improvements) + 1 &&
        distanceHistory == old(distanceHistory) + [newDistance]
      ensures improved ==> forall i, k :: 1 <= i < k < n && (i < swapI || (i == swapI && k < swapK)) ==>
        SwapDelta(distanceMatrix, tour, i, k) >= -Epsilon
      ensures IsTour(newTour, n) && newTour[0] == tour[0]
      ensures newDistance == TourLength(distanceMatrix, newTour)
    {
      improved := false;
      newTour, newDistance := tour, currentDistance;
      swapI, swapK := 0, 0;
      // `range(1, n - 1)`, which is empty for fewer than three cities.
      var i := 1;
      while i < n - 1
        invariant 1 <= i
        invariant !improved && newTour == tour && newDistance == currentDistance
        invariant unchanged(this)
        invariant forall i', k' :: 1 <= i' < i && i' < k' < n ==> SwapDelta(distanceMatrix, tour, i', k') >= -Epsilon
      {
        for k := i + 1 to n
          invariant !improved && newTour == tour && newDistance == currentDistance
          invariant unchanged(this)
          invariant forall i', k' :: 1 <= i' < i && i' < k' < n ==> SwapDelta(distanceMatrix, tour, i', k') >= -Epsilon
          invariant forall k' :: i < k' < k ==> SwapDelta(distanceMatrix, tour, i, k') >= -Epsilon
        {
          var delta := SwapDelta(distanceMatrix, newTour, i, k);
          if delta < -Epsilon {
            newTour, newDistance := ApplySwap(tour, currentDistance, i, k);
            improved := true;
            swapI, swapK := i, k;
            // The source breaks out of both loops here, ending the pass.
            return;
          }
        }
        i := i + 1;
      }
    }

    /**
      The body of the search loop once a pair `(i, k)` qualifies: reverse the
      segment, add the delta to the running length, count the swap and, the
      new length being below the best, record it as the best tour.
     */
    method ApplySwap(tour: seq<nat>, currentDistance: real, i: nat, k: nat)
      returns (newTour: seq<nat>, newDistance: real)
      requires Valid() && Symmetric(distanceMatrix)
      requires IsTour(tour, n) && 1 <= i < k < n
      requires currentDistance == TourLength(distanceMatrix, tour)
      requires bestTour == tour && bestDistance == Finite(currentDistance)
      requires SwapDelta(distanceMatrix, tour, i, k) < -Epsilon
      modifies this`bestTour, this`bestDistance, this`swapsMade, this`improvements, this`distanceHistory
      ensures Valid()
      ensures newTour == TwoOptSwap(tour, i, k) && IsTour(newTour, n) && newTour[0] == tour[0]
      ensures newDistance == currentDistance + SwapDelta(distanceMatrix, tour, i, k)
      ensures newDistance == TourLength(distanceMatrix, newTour)
      ensures swapsMade == old(swapsMade) + 1 && improvements == old(improvements) + 1
      ensures bestTour == newTour && bestDistance == Finite(newDistance)
      ensures distanceHistory == old(distanceHistory) + [newDistance]
    {
      var delta := SwapDelta(distanceMatrix, tour, i, k);
      DeltaIdentity(distanceMatrix, tour, i, k);
      SwapPreservesTour(tour, n, i, k);
      newTour := TwoOptSwap(tour, i, k);
      newDistance := currentDistance + delta;
      swapsMade := swapsMade + 1;
      improvements := improvements + 1;
      if Below(newDistance, bestDistance) {
        bestTour := newTour;
        bestDistance := Finite(newDistance);
        distanceHistory := distanceHistory + [newDistance];
      }
    }

    /**
      The statistics snapshot. The improvement percentage divides by the
      first recorded distance; a zero one gives NaN or an infinity, as
      floating-point division does, and the record is returned all the same.
     */
    function GetStatistics(): (r: Statistics)
      reads this
      requires Valid()
      ensures r.iterations == iterations && r.swapsMade == swapsMade &&
        r.improvements == improvements && r.bestDistance == bestDistance &&
        r.distanceHistory == distanceHistory
      ensures r.initialDistance == if |distanceHistory| > 0 then distanceHistory[0] else 0.0
      ensures |distanceHistory| == 0 ==> r.improvementPercent == Number(0.0)
      ensures |distanceHistory| > 0 && distanceHistory[0] != 0.0 ==>
        r.improvementPercent.Number? &&
        r.improvementPercent.value * distanceHistory[0] == (distanceHistory[0] - bestDistance.value) * 100.0
      ensures |distanceHistory| > 0 && distanceHistory[0] == 0.0 ==>
        (r.improvementPercent.NotANumber? <==> bestDistance.value == 0.0)
      ensures |distanceHistory| > 0 && 0.0 <= bestDistance.value <= distanceHistory[0] ==>
        (r.improvementPercent.Number? && 0.0 <= r.improvementPercent.value <= 100.0) ||
        r.improvementPercent.NotANumber?
    {
      if |distanceHistory| == 0 then
        Statistics(iterations, swapsMade, improvements, bestDistance, 0.0, Number(0.0), distanceHistory)
      else
        var initial := distanceHistory[0];
        PercentInRange(initial, bestDistance.value);
        Statistics(iterations, swapsMade, improvements, bestDistance, initial,
          ImprovementPercent(initial, bestDistance.value), distanceHistory)
    }
  }
}
