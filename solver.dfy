/**
 * The tour reconstruction at the end of `example_solver` in solver.py: the
 * solver reports the arcs `(i, j)` whose decision variable is 1, and the
 * reconstruction starts a tour at city 0 and repeatedly follows, from the
 * current city, the arc to the lowest-numbered city `i < n` that is still in
 * the list, removing that arc, until the list is empty.
 *
 * The Python loop never ends when no listed arc leaves the current city
 * (for instance when the arcs form several sub-tours); `Follow` returns
 * `None` there and the method requires that it does not.
 */
module Solver {
  import opened Results
  import Evaluate

  /** An arc `(i, j)` of the solution: city `j` is visited right after city `i`. */
  type Edge = (int, int)

  /** `x_vars.remove(e)`: the list without the first occurrence of `e`. */
  function RemoveFirst(edges: seq<Edge>, e: Edge): (r: seq<Edge>)
    requires e in edges
    ensures |r| == |edges| - 1
    ensures multiset(r) == multiset(edges) - multiset{e}
  {
    if edges[0] == e then
      assert edges == [e] + edges[1..];
      edges[1..]
    else
      assert edges == [edges[0]] + edges[1..];
      [edges[0]] + RemoveFirst(edges[1..], e)
  }

  /** The position of the first occurrence of `e`. */
  function FirstIndex(edges: seq<Edge>, e: Edge): (k: nat)
    requires e in edges
    ensures k < |edges| && edges[k] == e && e !in edges[..k]
  {
    if edges[0] == e then 0
    else
      var k := FirstIndex(edges[1..], e);
      assert edges[..k + 1] == [edges[0]] + edges[1..][..k];
      k + 1
  }

  /** `RemoveFirst` drops the first occurrence of `e` and keeps the rest of the list in order. */
  lemma {:induction false} RemoveFirstIsFirst(edges: seq<Edge>, e: Edge)
    requires e in edges
    ensures RemoveFirst(edges, e) == edges[..FirstIndex(edges, e)] + edges[FirstIndex(edges, e) + 1..]
  {
    if edges[0] == e {
      assert FirstIndex(edges, e) == 0 && edges[..0] + edges[1..] == edges[1..];
    } else {
      var tail := edges[1..];
      var k := FirstIndex(tail, e);
      RemoveFirstIsFirst(tail, e);
      assert edges == [edges[0]] + tail;
      DropInCons(edges[0], tail, k);
    }
  }

  /** Dropping position `k + 1` of `[x] + tail` is dropping position `k` of `tail`, behind `x`. */
  lemma DropInCons(x: Edge, tail: seq<Edge>, k: nat)
    requires k < |tail|
    ensures ([x] + tail)[..k + 1] + ([x] + tail)[k + 2..] == [x] + (tail[..k] + tail[k + 1..])
  {
    assert ([x] + tail)[..k + 1] == [x] + tail[..k];
    assert ([x] + tail)[k + 2..] == tail[k + 1..];
    AppendAssoc([x], tail[..k], tail[k + 1..]);
  }

  /** The first `i` in `range(from, n)` with `(cur, i)` in the list, as the inner `for` loop finds it. */
  function LowestSuccessor(n: nat, edges: seq<Edge>, cur: int, from: nat): (r: Option<nat>)
    ensures r.Some? ==> from <= r.value < n && (cur, r.value) in edges
    decreases n - from
  {
    if from >= n then None
    else if (cur, from) in edges then Some(from)
    else LowestSuccessor(n, edges, cur, from + 1)
  }

  /** The search finds the lowest listed successor below `n`, and finds none exactly when there is none. */
  lemma {:induction false} LowestSuccessorIsLowest(n: nat, edges: seq<Edge>, cur: int, from: nat)
    ensures LowestSuccessor(n, edges, cur, from).Some? ==>
      forall j :: from <= j < LowestSuccessor(n, edges, cur, from).value ==> (cur, j) !in edges
    ensures LowestSuccessor(n, edges, cur, from).None? ==>
      forall j :: from <= j < n ==> (cur, j) !in edges
    decreases n - from
  {
    if from < n && (cur, from) !in edges {
      LowestSuccessorIsLowest(n, edges, cur, from + 1);
    }
  }

  /** The successor that is the only listed one below `n` is the one found. */
  lemma LowestSuccessorUnique(n: nat, edges: seq<Edge>, cur: int, v: nat)
    requires v < n && (cur, v) in edges
    requires forall x :: (cur, x) in edges ==> x == v
    ensures LowestSuccessor(n, edges, cur, 0) == Some(v)
  {
    LowestSuccessorIsLowest(n, edges, cur, 0);
  }

  /**
   * The cities appended to the tour after `cur` when the loop starts at `cur`
   * with list `edges`, or `None` when the Python loop would spin forever.
   */
  function Follow(n: nat, edges: seq<Edge>, cur: int): (r: Option<seq<int>>)
    ensures r.Some? ==> |r.value| == |edges|
    decreases |edges|
  {
    if |edges| == 0 then Some([])
    else match LowestSuccessor(n, edges, cur, 0)
      case None => None
      case Some(next) =>
        Prepend(next, Follow(n, RemoveFirst(edges, (cur, next)), next))
  }

  /** `next` followed by the rest of the walk, if the rest ends. */
  function Prepend(next: int, rest: Option<seq<int>>): Option<seq<int>> {
    if rest.None? then None else Some([next] + rest.value)
  }

  /** The reconstruction loop of solver.py, from the list of arcs the solver reported. */
  method ReconstructTour(n: nat, xVars: seq<Edge>) returns (tour: seq<int>)
    requires Follow(n, xVars, 0).Some?
    ensures tour == [0] + Follow(n, xVars, 0).value
    ensures tour[0] == 0 && |tour| == 1 + |xVars|
  {
    tour := [0];
    var currentCity := 0;
    var edges := xVars;
    while |edges| > 0
      invariant Follow(n, edges, currentCity).Some?
      invariant tour + Follow(n, edges, currentCity).value == [0] + Follow(n, xVars, 0).value
      decreases |edges|
    {
      ghost var edges0, city0, tour0 := edges, currentCity, tour;
      ghost var next := LowestSuccessor(n, edges, currentCity, 0).value;
      LowestSuccessorIsLowest(n, edges, currentCity, 0);
      FollowStep(n, edges, currentCity, next);
      ghost var rest := Follow(n, RemoveFirst(edges, (currentCity, next)), next);
      assert rest.Some? && Follow(n, edges, currentCity).value == [next] + rest.value;
      for i := 0 to n
        invariant edges == edges0 && currentCity == city0 && tour == tour0
        invariant i <= next
      {
        if (currentCity, i) in edges {
          assert i == next;
          edges := RemoveFirst(edges, (currentCity, i));
          currentCity := i;
          tour := tour + [currentCity];
          assert tour + rest.value == tour0 + ([next] + rest.value);
          break;
        }
      }
    }
  }

  // ---------------------------------------------------------------------
  // The reconstructed tour uses the reported arcs
  // ---------------------------------------------------------------------

  /** The arcs between consecutive cities of a path. */
  function Steps(p: seq<int>): (r: seq<Edge>)
    ensures |p| > 0 ==> |r| == |p| - 1
  {
    if |p| < 2 then [] else [(p[0], p[1])] + Steps(p[1..])
  }

  /** Every city appended is below `n`: the inner loop only tries `range(n)`. */
  lemma {:induction false} FollowInRange(n: nat, edges: seq<Edge>, cur: int)
    requires Follow(n, edges, cur).Some?
    ensures forall k :: 0 <= k < |Follow(n, edges, cur).value| ==> 0 <= Follow(n, edges, cur).value[k] < n
    decreases |edges|
  {
    if |edges| > 0 {
      var next := LowestSuccessor(n, edges, cur, 0).value;
      FollowInRange(n, RemoveFirst(edges, (cur, next)), next);
    }
  }

  /**
   * Each reported arc is travelled exactly once: the arcs between
   * consecutive cities of the tour are the list, counted with multiplicity.
   */
  lemma {:induction false} FollowUsesEachEdgeOnce(n: nat, edges: seq<Edge>, cur: int)
    requires Follow(n, edges, cur).Some?
    ensures multiset(Steps([cur] + Follow(n, edges, cur).value)) == multiset(edges)
    decreases |edges|
  {
    var r := Follow(n, edges, cur).value;
    if |edges| == 0 {
      assert [cur] + r == [cur];
    } else {
      var next := LowestSuccessor(n, edges, cur, 0).value;
      var rest := Follow(n, RemoveFirst(edges, (cur, next)), next).value;
      FollowUsesEachEdgeOnce(n, RemoveFirst(edges, (cur, next)), next);
      var p := [cur] + r;
      assert p[0] == cur && p[1] == next && p[1..] == [next] + rest;
      assert Steps(p) == [(cur, next)] + Steps([next] + rest);
    }
  }

  // ---------------------------------------------------------------------
  // The cycle through city 0: all cities, or a sub-tour
  // ---------------------------------------------------------------------

  /** `c` lists distinct cities below `n`, visited in this order and then back to `c[0]`. */
  predicate IsSimpleCycle(n: nat, c: seq<int>) {
    0 < |c| <= n
    && (forall k :: 0 <= k < |c| ==> 0 <= c[k] < n)
    && (forall j, k :: 0 <= j < k < |c| ==> c[j] != c[k])
  }

  /** The arcs of the cycle visiting the cities in the order of `c` and returning to `c[0]`. */
  function CycleEdges(c: seq<int>): (r: seq<Edge>)
    ensures |r| == |c|
  {
    seq(|c|, k requires 0 <= k < |c| => (c[k], c[Evaluate.Succ(|c|, k)]))
  }

  /** No arc of `others` leaves a city of `c`: they belong to other sub-tours. */
  predicate LeavesNone(c: seq<int>, others: seq<Edge>) {
    forall e :: e in others ==> e.0 !in c
  }

  /** What the walk from `c[j]` yields: the rest of the cycle, or nothing when other arcs are left over. */
  function CycleOutcome(c: seq<int>, others: seq<Edge>, j: nat): Option<seq<int>>
    requires j < |c|
  {
    if others == [] then Some(c[j + 1..] + [c[0]]) else None
  }

  /** One iteration of the outer loop: the walk takes the arc to `next` and carries on from there. */
  lemma FollowStep(n: nat, edges: seq<Edge>, cur: int, next: nat)
    requires |edges| > 0 && LowestSuccessor(n, edges, cur, 0) == Some(next)
    ensures Follow(n, edges, cur) == Prepend(next, Follow(n, RemoveFirst(edges, (cur, next)), next))
  {
  }

  /**
   * With arcs left and none from `cur` to a city in `range(n)` (no arc out
   * of `cur` at all, or only arcs to cities `>= n` or `< 0`), the inner loop
   * finds nothing and the outer loop spins.
   */
  lemma Stuck(n: nat, edges: seq<Edge>, cur: int)
    requires |edges| > 0 && forall j :: 0 <= j < n ==> (cur, j) !in edges
    ensures Follow(n, edges, cur).None?
  {
  }

  /** From `c[j]` the only remaining arc is the cycle's arc out of position `j`, so the search finds it. */
  lemma CycleArcFrom(n: nat, edges: seq<Edge>, c: seq<int>, others: seq<Edge>, j: nat)
    requires IsSimpleCycle(n, c) && j < |c| && LeavesNone(c, others)
    requires multiset(edges) == multiset(CycleEdges(c)[j..]) + multiset(others)
    ensures (c[j], c[Evaluate.Succ(|c|, j)]) in edges
    ensures LowestSuccessor(n, edges, c[j], 0) == Some(c[Evaluate.Succ(|c|, j)])
    ensures multiset(RemoveFirst(edges, (c[j], c[Evaluate.Succ(|c|, j)])))
      == multiset(CycleEdges(c)[j + 1..]) + multiset(others)
  {
    var ce := CycleEdges(c);
    var s := Evaluate.Succ(|c|, j);
    var e := (c[j], c[s]);
    assert ce[j..] == [e] + ce[j + 1..];
    assert e in multiset(edges);
    assert c[j] in c;
    forall x | (c[j], x) in edges
      ensures x == c[s]
    {
      assert (c[j], x) in multiset(edges);
      assert (c[j], x) !in multiset(others);
      assert (c[j], x) in multiset(ce[j..]);
      var m :| 0 <= m < |ce[j..]| && ce[j..][m] == (c[j], x);
      assert ce[j + m] == (c[j], x);
    }
    LowestSuccessorUnique(n, edges, c[j], c[s]);
  }

  /** At the last position the arc leads back to `c[0]`; the walk ends there, or is stuck if arcs remain. */
  lemma FollowCycleLast(n: nat, edges: seq<Edge>, c: seq<int>, others: seq<Edge>)
    requires IsSimpleCycle(n, c) && LeavesNone(c, others)
    requires multiset(edges) == multiset(CycleEdges(c)[|c| - 1..]) + multiset(others)
    ensures Follow(n, edges, c[|c| - 1]) == CycleOutcome(c, others, |c| - 1)
  {
    var j := |c| - 1;
    assert Evaluate.Succ(|c|, j) == 0;
    CycleArcFrom(n, edges, c, others, j);
    var edges' := RemoveFirst(edges, (c[j], c[0]));
    assert CycleEdges(c)[j + 1..] == [];
    assert multiset(edges') == multiset(others);
    FollowStep(n, edges, c[j], c[0]);
    if others == [] {
      assert |edges'| == |multiset(edges')| == 0;
      assert [c[0]] + [] == c[j + 1..] + [c[0]];
    } else {
      assert |edges'| == |multiset(edges')| > 0;
      assert c[0] in c;
      forall j | 0 <= j < n
        ensures (c[0], j) !in edges'
      {
        assert (c[0], j) in edges' <==> (c[0], j) in multiset(others);
      }
      Stuck(n, edges', c[0]);
    }
  }

  /** Before the last position the arc leads on to `c[j + 1]`, where the walk goes on along the cycle. */
  lemma FollowCycleExtend(n: nat, edges: seq<Edge>, c: seq<int>, others: seq<Edge>, j: nat)
    requires IsSimpleCycle(n, c) && j + 1 < |c| && LeavesNone(c, others)
    requires multiset(edges) == multiset(CycleEdges(c)[j..]) + multiset(others) && (c[j], c[j + 1]) in edges
    requires Follow(n, RemoveFirst(edges, (c[j], c[j + 1])), c[j + 1]) == CycleOutcome(c, others, j + 1)
    ensures Follow(n, edges, c[j]) == CycleOutcome(c, others, j)
  {
    assert Evaluate.Succ(|c|, j) == j + 1;
    CycleArcFrom(n, edges, c, others, j);
    FollowStep(n, edges, c[j], c[j + 1]);
    assert [c[j + 1]] + (c[j + 2..] + [c[0]]) == c[j + 1..] + [c[0]];
  }

  /**
   * Starting at `c[j]` with the arcs of the cycle from position `j` on and
   * arcs of other sub-tours, the walk follows the cycle back to `c[0]`; it
   * ends there if no other arcs are left, and is stuck there otherwise.
   */
  lemma {:induction false} FollowCycleFrom(n: nat, edges: seq<Edge>, c: seq<int>, others: seq<Edge>, j: nat)
    requires IsSimpleCycle(n, c) && j < |c| && LeavesNone(c, others)
    requires multiset(edges) == multiset(CycleEdges(c)[j..]) + multiset(others)
    ensures Follow(n, edges, c[j]) == CycleOutcome(c, others, j)
    decreases |c| - j
  {
    if j + 1 == |c| {
      FollowCycleLast(n, edges, c, others);
    } else {
      assert Evaluate.Succ(|c|, j) == j + 1;
      CycleArcFrom(n, edges, c, others, j);
      FollowCycleFrom(n, RemoveFirst(edges, (c[j], c[j + 1])), c, others, j + 1);
      FollowCycleExtend(n, edges, c, others, j);
    }
  }

  /**
   * When the reported arcs are those of a tour visiting every city once and
   * starting at 0, the reconstruction yields that tour with 0 repeated at the
   * end: `n + 1` entries, the first `n` a permutation of `0 .. n-1`.
   */
  lemma HamiltonianCycleReconstructed(n: nat, c: seq<int>, xVars: seq<Edge>)
    requires IsSimpleCycle(n, c) && |c| == n && c[0] == 0
    requires multiset(xVars) == multiset(CycleEdges(c))
    ensures Follow(n, xVars, 0).Some?
    ensures [0] + Follow(n, xVars, 0).value == c + [0]
  {
    assert CycleEdges(c)[0..] == CycleEdges(c);
    FollowCycleFrom(n, xVars, c, [], 0);
    assert [c[0]] + c[1..] == c;
  }

  /**
   * When the arcs form the sub-tour `c` through city 0 together with other
   * sub-tours, the walk comes back to 0 with arcs left over and the Python
   * loop never ends: the reconstruction is not defined.
   */
  lemma SubtoursNeverFinish(n: nat, c: seq<int>, others: seq<Edge>, xVars: seq<Edge>)
    requires IsSimpleCycle(n, c) && c[0] == 0 && others != [] && LeavesNone(c, others)
    requires multiset(xVars) == multiset(CycleEdges(c) + others)
    ensures Follow(n, xVars, 0).None?
  {
    assert CycleEdges(c)[0..] == CycleEdges(c);
    FollowCycleFrom(n, xVars, c, others, 0);
  }
}
