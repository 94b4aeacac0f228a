/**
  The value-level part of the 2-opt solver: distance matrices, tours as
  sequences of city indices, the closed-cycle length of a tour, the 2-opt
  segment reversal and its constant-time cost delta.
 */
module TourMath {

  // ---------------------------------------------------------------------------
  // Reversal
  // ---------------------------------------------------------------------------

  /** `s` read backwards: the `[::-1]` slice. */
  function Reverse<T>(s: seq<T>): (r: seq<T>)
    ensures |r| == |s|
    ensures forall j :: 0 <= j < |s| ==> r[j] == s[|s| - 1 - j]
  {
    if |s| == 0 then [] else Reverse(s[1..]) + [s[0]]
  }

  /** Reversal only reorders. */
  lemma {:induction false} ReversePermutes<T>(s: seq<T>)
    ensures multiset(Reverse(s)) == multiset(s)
  {
    if |s| > 0 {
      ReversePermutes(s[1..]);
      assert s == [s[0]] + s[1..];
    }
  }

  // ---------------------------------------------------------------------------
  // Distance matrices
  // ---------------------------------------------------------------------------

  /** `m` is an `n` by `n` table. */
  ghost predicate IsSquare(m: seq<seq<real>>, n: nat)
  {
    |m| == n && forall r :: 0 <= r < n ==> |m[r]| == n
  }

  ghost predicate Symmetric(m: seq<seq<real>>)
    requires IsSquare(m, |m|)
  {
    forall i, j :: 0 <= i < |m| && 0 <= j < |m| ==> m[i][j] == m[j][i]
  }

  ghost predicate NonNegative(m: seq<seq<real>>)
    requires IsSquare(m, |m|)
  {
    forall i, j :: 0 <= i < |m| && 0 <= j < |m| ==> 0.0 <= m[i][j]
  }

  // ---------------------------------------------------------------------------
  // Tours
  // ---------------------------------------------------------------------------

  /** Every entry of `t` is a city index below `n`. */
  ghost predicate InRange(t: seq<nat>, n: nat)
  {
    forall j :: 0 <= j < |t| ==> t[j] < n
  }

  ghost predicate Distinct(t: seq<nat>)
  {
    forall j1, j2 :: 0 <= j1 < j2 < |t| ==> t[j1] != t[j2]
  }

  /** `t` is a permutation of `0..n-1`: length `n`, no repeats, every city present. */
  ghost predicate IsTour(t: seq<nat>, n: nat)
  {
    |t| == n && InRange(t, n) && Distinct(t) && forall c :: 0 <= c < n ==> c in t
  }

  lemma IdentityIsTour(t: seq<nat>, n: nat)
    requires |t| == n && forall j :: 0 <= j < n ==> t[j] == j
    ensures IsTour(t, n)
  {
    forall c | 0 <= c < n ensures c in t {
      assert t[c] == c;
    }
  }

  /** The position after `p` on a closed cycle of `len` positions. */
  function Next(p: nat, len: nat): nat
    requires p < len
  {
    if p + 1 < len then p + 1 else 0
  }

  /** `Next` is the source's `(p + 1) % len`. */
  lemma NextPosition(p: nat, len: nat)
    requires p < len
    ensures Next(p, len) == (p + 1) % len
  {
  }

  /** The length of the edge leaving position `p` of the closed cycle `t`. */
  function Edge(m: seq<seq<real>>, t: seq<nat>, p: nat): real
    requires IsSquare(m, |m|) && InRange(t, |m|) && p < |t|
  {
    m[t[p]][t[Next(p, |t|)]]
  }

  /**
    The summed length of the edges leaving positions `lo` to `hi - 1` of the
    closed cycle `t`, accumulated left to right.
   */
  function PathLength(m: seq<seq<real>>, t: seq<nat>, lo: nat, hi: nat): real
    requires IsSquare(m, |m|) && InRange(t, |m|) && lo <= hi <= |t|
    decreases hi - lo
  {
    if lo == hi then 0.0 else PathLength(m, t, lo, hi - 1) + Edge(m, t, hi - 1)
  }

  /** Total length of `t` read as a closed cycle (the last city joins the first). */
  function TourLength(m: seq<seq<real>>, t: seq<nat>): real
    requires IsSquare(m, |m|) && InRange(t, |m|)
  {
    PathLength(m, t, 0, |t|)
  }

  lemma {:induction false} PathSplit(m: seq<seq<real>>, t: seq<nat>, lo: nat, mid: nat, hi: nat)
    requires IsSquare(m, |m|) && InRange(t, |m|) && lo <= mid <= hi <= |t|
    ensures PathLength(m, t, lo, hi) == PathLength(m, t, lo, mid) + PathLength(m, t, mid, hi)
    decreases hi - mid
  {
    if mid < hi {
      PathSplit(m, t, lo, mid, hi - 1);
    }
  }

  /** Two cycles whose edges agree on `lo..hi-1` have the same length there. */
  lemma {:induction false} PathSame(m: seq<seq<real>>, s: seq<nat>, t: seq<nat>, lo: nat, hi: nat)
    requires IsSquare(m, |m|) && InRange(s, |m|) && InRange(t, |m|)
    requires lo <= hi <= |s| && hi <= |t|
    requires forall p :: lo <= p < hi ==> Edge(m, s, p) == Edge(m, t, p)
    ensures PathLength(m, s, lo, hi) == PathLength(m, t, lo, hi)
    decreases hi - lo
  {
    if lo < hi {
      PathSame(m, s, t, lo, hi - 1);
    }
  }

  /**
    If the edges of `s` on `lo..hi-1` are those of `t` mirrored about `top`
    (the edge at `p` is the one `t` has at `top - p`), the stretch of `s` has
    the length of the mirrored stretch of `t`.
   */
  lemma {:induction false} PathReversed(m: seq<seq<real>>, s: seq<nat>, t: seq<nat>, lo: nat, hi: nat, top: nat)
    requires IsSquare(m, |m|) && InRange(s, |m|) && InRange(t, |m|)
    requires lo <= hi <= |s| && hi <= top + 1 && top + 1 - lo <= |t|
    requires forall p :: lo <= p < hi ==> Edge(m, s, p) == Edge(m, t, top - p)
    ensures PathLength(m, s, lo, hi) == PathLength(m, t, top + 1 - hi, top + 1 - lo)
    decreases hi - lo
  {
    if lo < hi {
      PathReversed(m, s, t, lo, hi - 1, top);
      PathSplit(m, t, top + 1 - hi, top + 2 - hi, top + 1 - lo);
      assert PathLength(m, t, top + 1 - hi, top + 2 - hi) == Edge(m, t, top - (hi - 1));
    }
  }

  lemma {:induction false} PathLengthNonNegative(m: seq<seq<real>>, t: seq<nat>, lo: nat, hi: nat)
    requires IsSquare(m, |m|) && NonNegative(m) && InRange(t, |m|) && lo <= hi <= |t|
    ensures 0.0 <= PathLength(m, t, lo, hi)
    decreases hi - lo
  {
    if lo < hi {
      PathLengthNonNegative(m, t, lo, hi - 1);
    }
  }

  lemma TourLengthNonNegative(m: seq<seq<real>>, t: seq<nat>)
    requires IsSquare(m, |m|) && NonNegative(m) && InRange(t, |m|)
    ensures 0.0 <= TourLength(m, t)
  {
    PathLengthNonNegative(m, t, 0, |t|);
  }

  // ---------------------------------------------------------------------------
  // The 2-opt move
  // ---------------------------------------------------------------------------

  /**
    Reverses the segment `tour[i..k]` (both ends included), leaving the rest
    in place.
   */
  function TwoOptSwap(tour: seq<nat>, i: nat, k: nat): (r: seq<nat>)
    requires i <= k < |tour|
    ensures |r| == |tour|
    ensures forall j :: 0 <= j < i ==> r[j] == tour[j]
    ensures forall j :: i <= j <= k ==> r[j] == tour[i + k - j]
    ensures forall j :: k < j < |tour| ==> r[j] == tour[j]
  {
    tour[..i] + Reverse(tour[i..k + 1]) + tour[k + 1..]
  }

  lemma MultisetOfParts(t: seq<nat>, i: nat, j: nat)
    requires i <= j <= |t|
    ensures multiset(t) == multiset(t[..i]) + multiset(t[i..j]) + multiset(t[j..])
  {
    assert t == t[..i] + t[i..j] + t[j..];
  }

  /** The 2-opt move only reorders the tour: the result is a permutation of it. */
  lemma SwapPermutes(tour: seq<nat>, i: nat, k: nat)
    requires i <= k < |tour|
    ensures multiset(TwoOptSwap(tour, i, k)) == multiset(tour)
  {
    var pre, mid, post := tour[..i], tour[i..k + 1], tour[k + 1..];
    ReversePermutes(mid);
    MultisetOfParts(tour, i, k + 1);
    calc {
      multiset(TwoOptSwap(tour, i, k));
      multiset(pre + Reverse(mid) + post);
      multiset(pre) + multiset(Reverse(mid)) + multiset(post);
    }
  }

  /**
    The change in cycle length that reversing `tour[i..k]` would make,
    computed from the four cities at the ends of the two edges it replaces.
    When the reversal runs from position 1 to the last position, the two
    replaced edges meet at `tour[0]`, and on a symmetric matrix the change is 0.
   */
  function SwapDelta(m: seq<seq<real>>, tour: seq<nat>, i: nat, k: nat): (delta: real)
    requires IsSquare(m, |m|) && InRange(tour, |m|)
    requires 1 <= i <= k < |tour|
    ensures Symmetric(m) && i == 1 && k == |tour| - 1 ==> delta == 0.0
  {
    var n := |tour|;
    var a, b := tour[i - 1], tour[i];
    var c, d := tour[k], tour[Next(k, n)];
    var current := m[a][b] + m[c][d];
    var replaced := m[a][c] + m[b][d];
    replaced - current
  }

  /** The position of `tour` whose city lands at position `j` after reversing `tour[i..k]`. */
  function Mirror(i: nat, k: nat, j: nat): nat
    requires i <= k
  {
    if i <= j <= k then i + k - j else j
  }

  /** `s` is `tour` with the segment `tour[i..k]` reversed, stated position by position. */
  ghost predicate ReversedSegment(s: seq<nat>, tour: seq<nat>, i: nat, k: nat)
    requires i <= k < |tour|
  {
    |s| == |tour| && forall j :: 0 <= j < |s| ==> s[j] == tour[Mirror(i, k, j)]
  }

  lemma SwapIsReversal(tour: seq<nat>, i: nat, k: nat)
    requires i <= k < |tour|
    ensures ReversedSegment(TwoOptSwap(tour, i, k), tour, i, k)
  {
    var s := TwoOptSwap(tour, i, k);
    forall j | 0 <= j < |s| ensures s[j] == tour[Mirror(i, k, j)] {
      if i <= j <= k { assert s[j] == tour[i + k - j]; }
    }
  }

  lemma ReversalInRange(s: seq<nat>, tour: seq<nat>, n: nat, i: nat, k: nat)
    requires i <= k < |tour| && ReversedSegment(s, tour, i, k) && InRange(tour, n)
    ensures InRange(s, n)
  {
    forall j | 0 <= j < |s| ensures s[j] < n {
      assert s[j] == tour[Mirror(i, k, j)];
    }
  }

  lemma ReversalDistinct(s: seq<nat>, tour: seq<nat>, i: nat, k: nat)
    requires i <= k < |tour| && ReversedSegment(s, tour, i, k) && Distinct(tour)
    ensures Distinct(s)
  {
    forall j1, j2 | 0 <= j1 < j2 < |s|
      ensures s[j1] != s[j2]
    {
      var p1, p2 := Mirror(i, k, j1), Mirror(i, k, j2);
      assert s[j1] == tour[p1] && s[j2] == tour[p2];
      if p1 < p2 {
        assert tour[p1] != tour[p2];
      } else {
        assert tour[p2] != tour[p1];
      }
    }
  }

  lemma ReversalCovers(s: seq<nat>, tour: seq<nat>, n: nat, i: nat, k: nat)
    requires i <= k < |tour| && ReversedSegment(s, tour, i, k)
    requires forall c :: 0 <= c < n ==> c in tour
    ensures forall c :: 0 <= c < n ==> c in s
  {
    forall c | 0 <= c < n
      ensures c in s
    {
      assert c in tour;
      var p :| 0 <= p < |tour| && tour[p] == c;
      var q := Mirror(i, k, p);
      assert s[q] == tour[Mirror(i, k, q)];
    }
  }

  /** A reversal with `1 <= i < k` never moves `tour[0]` and keeps a tour a tour. */
  lemma SwapPreservesTour(tour: seq<nat>, n: nat, i: nat, k: nat)
    requires IsTour(tour, n)
    requires 1 <= i < k < n
    ensures IsTour(TwoOptSwap(tour, i, k), n)
    ensures TwoOptSwap(tour, i, k)[0] == tour[0]
  {
    var s := TwoOptSwap(tour, i, k);
    SwapIsReversal(tour, i, k);
    ReversalInRange(s, tour, n, i, k);
    ReversalDistinct(s, tour, i, k);
    ReversalCovers(s, tour, n, i, k);
  }

  /** Edges that do not touch the reversed segment keep their lengths. */
  lemma EdgesOutsideSegment(m: seq<seq<real>>, s: seq<nat>, tour: seq<nat>, i: nat, k: nat, p: nat)
    requires IsSquare(m, |m|) && InRange(tour, |m|) && InRange(s, |m|)
    requires 1 <= i < k < |tour| && ReversedSegment(s, tour, i, k)
    requires p < i - 1 || k < p < |tour|
    ensures Edge(m, s, p) == Edge(m, tour, p)
  {
    var q := Next(p, |tour|);
    assert s[p] == tour[Mirror(i, k, p)];
    assert s[q] == tour[Mirror(i, k, q)];
  }

  /** Edges inside the reversed segment are the old ones, traversed backwards. */
  lemma EdgesInsideSegment(m: seq<seq<real>>, s: seq<nat>, tour: seq<nat>, i: nat, k: nat, p: nat)
    requires IsSquare(m, |m|) && Symmetric(m) && InRange(tour, |m|) && InRange(s, |m|)
    requires 1 <= i <= p < k < |tour| && ReversedSegment(s, tour, i, k)
    ensures Edge(m, s, p) == Edge(m, tour, i + k - 1 - p)
  {
    assert s[p] == tour[Mirror(i, k, p)];
    assert s[p + 1] == tour[Mirror(i, k, p + 1)];
    assert Edge(m, s, p) == m[tour[i + k - p]][tour[i + k - p - 1]];
    assert Edge(m, tour, i + k - 1 - p) == m[tour[i + k - p - 1]][tour[i + k - p]];
  }

  /** The two edges at the ends of the segment become a -> c and b -> d. */
  lemma EdgesAtSegmentEnds(m: seq<seq<real>>, s: seq<nat>, tour: seq<nat>, i: nat, k: nat)
    requires IsSquare(m, |m|) && InRange(tour, |m|) && InRange(s, |m|)
    requires 1 <= i < k < |tour| && ReversedSegment(s, tour, i, k)
    ensures Edge(m, s, i - 1) == m[tour[i - 1]][tour[k]]
    ensures Edge(m, s, k) == m[tour[i]][tour[Next(k, |tour|)]]
    ensures Edge(m, tour, i - 1) == m[tour[i - 1]][tour[i]]
    ensures Edge(m, tour, k) == m[tour[k]][tour[Next(k, |tour|)]]
  {
    var q := Next(k, |tour|);
    assert s[i - 1] == tour[Mirror(i, k, i - 1)];
    assert s[i] == tour[Mirror(i, k, i)];
    assert s[k] == tour[Mirror(i, k, k)];
    assert s[q] == tour[Mirror(i, k, q)];
  }

  /** Before the segment the reversed tour has the old stretch length. */
  lemma ReversedPathBefore(m: seq<seq<real>>, s: seq<nat>, tour: seq<nat>, i: nat, k: nat)
    requires IsSquare(m, |m|) && InRange(tour, |m|) && InRange(s, |m|)
    requires 1 <= i < k < |tour| && ReversedSegment(s, tour, i, k)
    ensures PathLength(m, s, 0, i - 1) == PathLength(m, tour, 0, i - 1)
  {
    forall p | 0 <= p < i - 1 ensures Edge(m, s, p) == Edge(m, tour, p) {
      EdgesOutsideSegment(m, s, tour, i, k, p);
    }
    PathSame(m, s, tour, 0, i - 1);
  }

  /** After the segment the reversed tour has the old stretch length. */
  lemma ReversedPathAfter(m: seq<seq<real>>, s: seq<nat>, tour: seq<nat>, i: nat, k: nat)
    requires IsSquare(m, |m|) && InRange(tour, |m|) && InRange(s, |m|)
    requires 1 <= i < k < |tour| && ReversedSegment(s, tour, i, k)
    ensures PathLength(m, s, k + 1, |tour|) == PathLength(m, tour, k + 1, |tour|)
  {
    forall p | k + 1 <= p < |tour| ensures Edge(m, s, p) == Edge(m, tour, p) {
      EdgesOutsideSegment(m, s, tour, i, k, p);
    }
    PathSame(m, s, tour, k + 1, |tour|);
  }

  /** Inside the segment the reversed tour runs the old edges backwards. */
  lemma ReversedPathInside(m: seq<seq<real>>, s: seq<nat>, tour: seq<nat>, i: nat, k: nat)
    requires IsSquare(m, |m|) && Symmetric(m) && InRange(tour, |m|) && InRange(s, |m|)
    requires 1 <= i < k < |tour| && ReversedSegment(s, tour, i, k)
    ensures PathLength(m, s, i, k) == PathLength(m, tour, i, k)
  {
    var top := i + k - 1;
    forall p | i <= p < k ensures Edge(m, s, p) == Edge(m, tour, top - p) {
      EdgesInsideSegment(m, s, tour, i, k, p);
    }
    PathReversed(m, s, tour, i, k, top);
  }

  /** A cycle's length split at the two edges a 2-opt move replaces. */
  lemma TourLengthAround(m: seq<seq<real>>, t: seq<nat>, i: nat, k: nat)
    requires IsSquare(m, |m|) && InRange(t, |m|)
    requires 1 <= i < k < |t|
    ensures TourLength(m, t) ==
      PathLength(m, t, 0, i - 1) + Edge(m, t, i - 1) + PathLength(m, t, i, k) + Edge(m, t, k) +
      PathLength(m, t, k + 1, |t|)
  {
    PathSplit(m, t, 0, i - 1, |t|);
    PathSplit(m, t, i - 1, i, |t|);
    PathSplit(m, t, i, k, |t|);
    PathSplit(m, t, k, k + 1, |t|);
    assert PathLength(m, t, i - 1, i) == Edge(m, t, i - 1);
    assert PathLength(m, t, k, k + 1) == Edge(m, t, k);
  }

  /**
    The delta identity: on a symmetric matrix, the length after the reversal
    is the length before it plus `SwapDelta`, for every reversal the solver
    considers (including the wrap-around one from position 1 to the end).
   */
  lemma DeltaIdentity(m: seq<seq<real>>, tour: seq<nat>, i: nat, k: nat)
    requires IsSquare(m, |m|) && Symmetric(m) && InRange(tour, |m|)
    requires 1 <= i < k < |tour|
    ensures InRange(TwoOptSwap(tour, i, k), |m|)
    ensures TourLength(m, TwoOptSwap(tour, i, k)) == TourLength(m, tour) + SwapDelta(m, tour, i, k)
  {
    var s := TwoOptSwap(tour, i, k);
    SwapIsReversal(tour, i, k);
    ReversalInRange(s, tour, |m|, i, k);
    var a, b, c, d := tour[i - 1], tour[i], tour[k], tour[Next(k, |tour|)];
    EdgesAtSegmentEnds(m, s, tour, i, k);
    ReversedPathBefore(m, s, tour, i, k);
    ReversedPathAfter(m, s, tour, i, k);
    ReversedPathInside(m, s, tour, i, k);
    var pre, mid, post := PathLength(m, tour, 0, i - 1), PathLength(m, tour, i, k), PathLength(m, tour, k + 1, |tour|);
    TourLengthAround(m, tour, i, k);
    assert TourLength(m, tour) == pre + m[a][b] + mid + m[c][d] + post;
    TourLengthAround(m, s, i, k);
    assert TourLength(m, s) == pre + m[a][c] + mid + m[b][d] + post;
  }
}
