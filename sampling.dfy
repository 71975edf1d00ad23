/**
 * Python's `random.sample(population, k)` over positions, as a
 * nondeterministic draw: k pairwise distinct positions below n, in any order.
 */
module Sampling {

  predicate Distinct(p: seq<nat>)
  {
    forall i, j :: 0 <= i < j < |p| ==> p[i] != p[j]
  }

  /** Fewer than n positions taken leaves a free position below n. */
  lemma {:induction false} FreePositionExists(taken: set<nat>, n: nat)
    requires |taken| < n
    ensures exists j :: 0 <= j < n && j !in taken
  {
    if n - 1 in taken {
      var rest := taken - {n - 1};
      FreePositionExists(rest, n - 1);
      var j :| 0 <= j < n - 1 && j !in rest;
      assert j !in taken;
    }
  }

  /** `random.sample(range(n), k)`; Python raises when k > n, so k <= n is required. */
  method RandomSample(n: nat, k: nat) returns (positions: seq<nat>)
    requires k <= n
    ensures |positions| == k
    ensures forall i :: 0 <= i < k ==> positions[i] < n
    ensures Distinct(positions)
  {
    positions := [];
    var taken: set<nat> := {};
    while |positions| < k
      invariant |positions| <= k
      invariant |taken| == |positions|
      invariant forall i :: 0 <= i < |positions| ==> positions[i] < n && positions[i] in taken
      invariant Distinct(positions)
    {
      FreePositionExists(taken, n);
      var p: nat :| p < n && p !in taken;
      positions := positions + [p];
      taken := taken + {p};
    }
  }
}
