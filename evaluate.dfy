/**
 * The tour length of evaluate.py: `calculate_tour_distance` sums the matrix
 * entries between consecutive cities of a tour and then adds the edge from
 * the last city back to the first.
 *
 * Distances are exact reals. The matrix is indexed as a NumPy array is: an
 * index `c` with `-n <= c < n` addresses position `c mod n`, anything else
 * raises `IndexError`, as does the empty tour (at `tour[-1]`).
 */
module Evaluate {
  import opened Results

  /** A distance matrix, row by row; only read, never changed. */
  type Matrix = seq<seq<real>>

  datatype EvalError = IndexError

  function Cols(dist: Matrix): nat {
    if |dist| == 0 then 0 else |dist[0]|
  }

  /** A two-dimensional array: all rows have the same length. */
  predicate IsMatrix(dist: Matrix) {
    forall i :: 0 <= i < |dist| ==> |dist[i]| == Cols(dist)
  }

  /** An index NumPy accepts on an axis of length `len`. */
  predicate IsAxisIndex(len: nat, c: int) {
    -(len as int) <= c < len
  }

  /** The position NumPy reads for index `c` on an axis of length `len`. */
  function Axis(len: nat, c: int): (k: nat)
    requires IsAxisIndex(len, c)
    ensures k < len
    ensures k % len == c % len
  {
    if c < 0 then c + len else c
  }

  /** A city number that may be used both as a row and as a column index. */
  predicate IsCity(dist: Matrix, c: int) {
    IsAxisIndex(|dist|, c) && IsAxisIndex(Cols(dist), c)
  }

  /** `dist_matrix[a, b]`. */
  function Dist(dist: Matrix, a: int, b: int): real
    requires IsMatrix(dist) && IsCity(dist, a) && IsCity(dist, b)
  {
    dist[Axis(|dist|, a)][Axis(Cols(dist), b)]
  }

  /** NumPy reads row `a mod rows` and column `b mod columns` (Python's `%`, which equals Dafny's for a positive divisor). */
  lemma DistAt(dist: Matrix, a: int, b: int)
    requires IsMatrix(dist) && IsCity(dist, a) && IsCity(dist, b)
    ensures Dist(dist, a, b) == dist[a % |dist|][b % Cols(dist)]
  {
    ModBelow(Axis(|dist|, a), |dist|);
    ModBelow(Axis(Cols(dist), b), Cols(dist));
  }

  lemma ModBelow(i: int, len: int)
    requires 0 <= i < len
    ensures i % len == i
  {
  }

  /** Every entry of the tour indexes the matrix. */
  predicate IsValidTour(dist: Matrix, tour: seq<int>) {
    forall k :: 0 <= k < |tour| ==> IsCity(dist, tour[k])
  }

  /** The length of the open path through the tour: the sum of its consecutive edges. */
  function PathCost(dist: Matrix, tour: seq<int>): real
    requires IsMatrix(dist) && IsValidTour(dist, tour)
    decreases |tour|
  {
    if |tour| <= 1 then 0.0
    else PathCost(dist, tour[..|tour| - 1]) + Dist(dist, tour[|tour| - 2], tour[|tour| - 1])
  }

  /** The length of the closed tour: the path plus the edge back to the first city. */
  function CyclicCost(dist: Matrix, tour: seq<int>): real
    requires IsMatrix(dist) && IsValidTour(dist, tour) && |tour| > 0
  {
    PathCost(dist, tour) + Dist(dist, tour[|tour| - 1], tour[0])
  }

  /** What `calculate_tour_distance` returns, or the error it raises. */
  function TourDistance(dist: Matrix, tour: seq<int>): Result<real, EvalError>
    requires IsMatrix(dist)
  {
    if |tour| == 0 || !IsValidTour(dist, tour) then Failure(IndexError)
    else Success(CyclicCost(dist, tour))
  }

  /** `calculate_tour_distance(tour, dist_matrix)`. */
  method CalculateTourDistance(tour: seq<int>, dist: Matrix) returns (r: Result<real, EvalError>)
    requires IsMatrix(dist)
    ensures r == TourDistance(dist, tour)
  {
    var n := |tour|;
    var total := 0.0;
    var i := 0;
    while i < n - 1
      invariant 0 <= i && (n == 0 ==> i == 0) && (n > 0 ==> i <= n - 1)
      invariant i == 0 ==> total == 0.0
      invariant i > 0 ==> IsValidTour(dist, tour[..i + 1]) && total == PathCost(dist, tour[..i + 1])
    {
      if !IsCity(dist, tour[i]) || !IsCity(dist, tour[i + 1]) {
        return Failure(IndexError);
      }
      assert tour[..i + 2][..i + 1] == tour[..i + 1];
      total := total + Dist(dist, tour[i], tour[i + 1]);
      i := i + 1;
    }
    if n == 0 || !IsCity(dist, tour[n - 1]) || !IsCity(dist, tour[0]) {
      return Failure(IndexError);
    }
    assert tour[..n] == tour;
    total := total + Dist(dist, tour[n - 1], tour[0]);
    return Success(total);
  }

  // ---------------------------------------------------------------------
  // The tour length as a cyclic sum
  // ---------------------------------------------------------------------

  /** The position after `j` on a cycle of `n` positions, `(j + 1) mod n`. */
  function Succ(n: nat, j: nat): (k: nat)
    requires j < n
    ensures k < n
  {
    if j + 1 < n then j + 1 else 0
  }

  /** The first `m` edges of the cycle, the edge out of position `j` going to position `Succ(n, j)`. */
  function CycleEdgesSum(dist: Matrix, tour: seq<int>, m: nat): real
    requires IsMatrix(dist) && IsValidTour(dist, tour) && m <= |tour|
  {
    if m == 0 then 0.0
    else CycleEdgesSum(dist, tour, m - 1) + Dist(dist, tour[m - 1], tour[Succ(|tour|, m - 1)])
  }

  /** Every prefix of a valid tour is a valid tour. */
  lemma ValidPrefix(dist: Matrix, tour: seq<int>, m: nat)
    requires IsValidTour(dist, tour) && m <= |tour|
    ensures IsValidTour(dist, tour[..m])
  {
    assert forall k :: 0 <= k < m ==> tour[..m][k] == tour[k];
  }

  lemma {:induction false} PathCostIsPrefixSum(dist: Matrix, tour: seq<int>, m: nat)
    requires IsMatrix(dist) && IsValidTour(dist, tour) && m < |tour|
    ensures IsValidTour(dist, tour[..m + 1])
    ensures PathCost(dist, tour[..m + 1]) == CycleEdgesSum(dist, tour, m)
  {
    ValidPrefix(dist, tour, m + 1);
    if m > 0 {
      PathCostIsPrefixSum(dist, tour, m - 1);
      var p := tour[..m + 1];
      assert p[..m] == tour[..m];
      assert p[m - 1] == tour[m - 1] && p[m] == tour[m];
      assert PathCost(dist, p) == PathCost(dist, tour[..m]) + Dist(dist, tour[m - 1], tour[m]);
    }
  }

  /**
   * The result is the sum of `dist[tour[j], tour[(j + 1) mod n]]` over all
   * `n` positions: the consecutive edges and the closing edge.
   */
  lemma CyclicCostIsCycleSum(dist: Matrix, tour: seq<int>)
    requires IsMatrix(dist) && IsValidTour(dist, tour) && |tour| > 0
    ensures CyclicCost(dist, tour) == CycleEdgesSum(dist, tour, |tour|)
  {
    var n := |tour|;
    PathCostIsPrefixSum(dist, tour, n - 1);
    assert tour[..n] == tour;
  }

  /** The empty tour raises `IndexError` at `tour[-1]`. */
  lemma EmptyTourFails(dist: Matrix)
    requires IsMatrix(dist)
    ensures TourDistance(dist, []) == Failure(IndexError)
  {
  }

  /** A one-city tour costs its diagonal entry: the loop never runs, only the closing edge counts. */
  lemma SingleCityCost(dist: Matrix, c: int)
    requires IsMatrix(dist) && IsCity(dist, c)
    ensures TourDistance(dist, [c]) == Success(Dist(dist, c, c))
  {
  }

  /** With non-negative entries the total is non-negative (the accumulator starts at 0). */
  predicate IsNonNegative(dist: Matrix) {
    forall i, j :: 0 <= i < |dist| && 0 <= j < |dist[i]| ==> dist[i][j] >= 0.0
  }

  lemma {:induction false} PathCostNonNegative(dist: Matrix, tour: seq<int>)
    requires IsMatrix(dist) && IsValidTour(dist, tour) && IsNonNegative(dist)
    ensures PathCost(dist, tour) >= 0.0
  {
    if |tour| > 1 {
      PathCostNonNegative(dist, tour[..|tour| - 1]);
    }
  }

  lemma CostNonNegative(dist: Matrix, tour: seq<int>)
    requires IsMatrix(dist) && IsNonNegative(dist)
    ensures TourDistance(dist, tour).Success? ==> TourDistance(dist, tour).value >= 0.0
  {
    if |tour| > 0 && IsValidTour(dist, tour) {
      PathCostNonNegative(dist, tour);
    }
  }

  // ---------------------------------------------------------------------
  // Rotation, reversal, a repeated start city
  // ---------------------------------------------------------------------

  /** The path through `a` then `b` is the path through `a`, the edge joining them, and the path through `b`. */
  lemma {:induction false} PathCostAppend(dist: Matrix, a: seq<int>, b: seq<int>)
    requires IsMatrix(dist) && IsValidTour(dist, a) && IsValidTour(dist, b)
    requires |a| > 0 && |b| > 0
    ensures IsValidTour(dist, a + b)
    ensures PathCost(dist, a + b) == PathCost(dist, a) + Dist(dist, a[|a| - 1], b[0]) + PathCost(dist, b)
  {
    var ab := a + b;
    assert forall k :: 0 <= k < |ab| ==> ab[k] == if k < |a| then a[k] else b[k - |a|];
    if |b| == 1 {
      assert ab[..|ab| - 1] == a;
    } else {
      var b' := b[..|b| - 1];
      PathCostAppend(dist, a, b');
      assert ab[..|ab| - 1] == a + b';
      assert b'[0] == b[0];
    }
  }

  /** `tour` started at position `k` instead of position 0. */
  function Rotate(tour: seq<int>, k: nat): seq<int>
    requires k <= |tour|
  {
    tour[k..] + tour[..k]
  }

  /** The closing edge makes the sum cyclic: every rotation of the tour has the same length. */
  lemma RotationInvariant(dist: Matrix, tour: seq<int>, k: nat)
    requires IsMatrix(dist) && IsValidTour(dist, tour) && |tour| > 0 && k <= |tour|
    ensures IsValidTour(dist, Rotate(tour, k))
    ensures TourDistance(dist, Rotate(tour, k)) == TourDistance(dist, tour)
  {
    if k == 0 || k == |tour| {
      assert Rotate(tour, k) == tour;
    } else {
      var a, b := tour[..k], tour[k..];
      assert tour == a + b;
      PathCostAppend(dist, a, b);
      PathCostAppend(dist, b, a);
    }
  }

  /** The tour traversed backwards. */
  function Reverse(s: seq<int>): (r: seq<int>)
    ensures |r| == |s|
  {
    if s == [] then [] else [s[|s| - 1]] + Reverse(s[..|s| - 1])
  }

  lemma {:induction false} ReverseAt(s: seq<int>)
    ensures forall k :: 0 <= k < |s| ==> Reverse(s)[k] == s[|s| - 1 - k]
  {
    if s != [] {
      ReverseAt(s[..|s| - 1]);
    }
  }

  /** A matrix equal to its transpose, as a Euclidean distance matrix is. */
  predicate IsSymmetric(dist: Matrix) {
    IsMatrix(dist) && Cols(dist) == |dist|
    && forall i, j :: 0 <= i < |dist| && 0 <= j < |dist| ==> dist[i][j] == dist[j][i]
  }

  lemma {:induction false} ReversedPathCost(dist: Matrix, tour: seq<int>)
    requires IsSymmetric(dist) && IsValidTour(dist, tour)
    ensures IsValidTour(dist, Reverse(tour))
    ensures PathCost(dist, Reverse(tour)) == PathCost(dist, tour)
  {
    ReverseAt(tour);
    if |tour| > 1 {
      var p := tour[..|tour| - 1];
      var x := tour[|tour| - 1];
      ReversedPathCost(dist, p);
      ReverseAt(p);
      assert Reverse(tour) == [x] + Reverse(p);
      PathCostAppend(dist, [x], Reverse(p));
    }
  }

  /** With a symmetric matrix, the tour traversed backwards has the same length. */
  lemma ReversalInvariant(dist: Matrix, tour: seq<int>)
    requires IsSymmetric(dist) && IsValidTour(dist, tour)
    ensures IsValidTour(dist, Reverse(tour))
    ensures TourDistance(dist, Reverse(tour)) == TourDistance(dist, tour)
  {
    ReversedPathCost(dist, tour);
    if |tour| > 0 {
      var n := |tour|;
      var r := Reverse(tour);
      ReverseAt(tour);
      assert r[0] == tour[n - 1] && r[n - 1] == tour[0];
      DistSymmetric(dist, tour[n - 1], tour[0]);
      assert CyclicCost(dist, r) == CyclicCost(dist, tour);
    }
  }

  lemma DistSymmetric(dist: Matrix, a: int, b: int)
    requires IsSymmetric(dist) && IsCity(dist, a) && IsCity(dist, b)
    ensures Dist(dist, a, b) == Dist(dist, b, a)
  {
  }

  /** A matrix whose diagonal is zero, as a distance matrix's is. */
  predicate HasZeroDiagonal(dist: Matrix) {
    IsMatrix(dist) && Cols(dist) == |dist| && forall i :: 0 <= i < |dist| ==> dist[i][i] == 0.0
  }

  /**
   * Repeating the start city at the end adds the entry `dist[t0, t0]`; with a
   * zero diagonal the length is that of the tour without the repeat.
   */
  lemma RepeatedStartCost(dist: Matrix, tour: seq<int>)
    requires IsMatrix(dist) && IsValidTour(dist, tour) && |tour| > 0
    ensures IsValidTour(dist, tour + [tour[0]])
    ensures CyclicCost(dist, tour + [tour[0]]) == CyclicCost(dist, tour) + Dist(dist, tour[0], tour[0])
    ensures HasZeroDiagonal(dist) ==> TourDistance(dist, tour + [tour[0]]) == TourDistance(dist, tour)
  {
    var t := tour + [tour[0]];
    assert t[..|t| - 1] == tour;
  }
}
