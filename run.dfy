/**
 * The glue in run.py between the tour file and the evaluation: an optimal
 * tour read from a `.opt.tour` file numbers cities from 1, so each city is
 * shifted down by one and city 0 is appended before the tour is measured.
 */
module Run {
  import Evaluate
  import Solver

  /** Every city of the tour shifted down by one. */
  function ShiftDown(tour: seq<int>): (r: seq<int>)
    ensures |r| == |tour|
  {
    seq(|tour|, k requires 0 <= k < |tour| => tour[k] - 1)
  }

  /** `[city - 1 for city in optimal_tour] + [0]`. */
  function ToZeroBased(tour: seq<int>): (r: seq<int>)
    ensures |r| == |tour| + 1 && r[|tour|] == 0
    ensures forall k :: 0 <= k < |tour| ==> r[k] + 1 == tour[k]
  {
    ShiftDown(tour) + [0]
  }

  /** Distinct cities drawn from `1 .. n` (all of them when `|tour| == n`). */
  predicate IsOneBasedTour(n: nat, tour: seq<int>) {
    0 < |tour| <= n
    && (forall k :: 0 <= k < |tour| ==> 1 <= tour[k] <= n)
    && (forall j, k :: 0 <= j < k < |tour| ==> tour[j] != tour[k])
  }

  /** The shift turns a tour over cities `1 .. n` into a cycle over `0 .. n-1`, and back. */
  lemma ShiftDownIsCycle(n: nat, tour: seq<int>)
    ensures IsOneBasedTour(n, tour) <==> Solver.IsSimpleCycle(n, ShiftDown(tour))
  {
    var r := ShiftDown(tour);
    if Solver.IsSimpleCycle(n, r) {
      forall j, k | 0 <= j < k < |tour|
        ensures tour[j] != tour[k]
      {
        assert r[j] != r[k];
      }
      forall k | 0 <= k < |tour|
        ensures 1 <= tour[k] <= n
      {
        assert 0 <= r[k] < n;
      }
    }
  }

  /**
   * When the tour file starts at city 1, the appended 0 repeats the start
   * city, and with a zero diagonal the measured length is that of the
   * shifted tour as a closed cycle.
   */
  lemma ToZeroBasedCost(dist: Evaluate.Matrix, tour: seq<int>)
    requires Evaluate.HasZeroDiagonal(dist) && |tour| > 0 && tour[0] == 1
    requires Evaluate.IsValidTour(dist, ShiftDown(tour))
    ensures Evaluate.IsValidTour(dist, ToZeroBased(tour))
    ensures Evaluate.TourDistance(dist, ToZeroBased(tour)) == Evaluate.TourDistance(dist, ShiftDown(tour))
  {
    var r := ShiftDown(tour);
    assert r[0] == 0;
    Evaluate.RepeatedStartCost(dist, r);
  }
}
