/**
 * Facts the two route searches rely on: the level argument behind the
 * breadth-first search, and the measure that bounds the fastest-route search.
 */
module SearchFacts {
  import opened Graph

  /** Stations of the arena 0..n-1 that are not in S. */
  function Outside(n: nat, S: set<nat>): set<nat> {
    set v | 0 <= v < n && v !in S
  }

  /** Marking one more station of the arena leaves strictly fewer stations outside. */
  lemma OutsideShrinks(n: nat, S: set<nat>, v: nat)
    requires v < n && v !in S
    ensures Outside(n, S + {v}) < Outside(n, S)
  {
    assert v in Outside(n, S) && v !in Outside(n, S + {v});
  }

  /**
   * Breadth-first levels.  Stations in `done` have all their neighbours in
   * `visited`; every other visited station sits at level L or deeper; and no
   * visited station can be reached in fewer stations than its level.  Then an
   * unvisited station needs at least L + 1 stations to be reached.
   */
  lemma UnvisitedIsFar(adj: seq<Station>, s: nat, y: nat, visited: set<nat>, done: set<nat>,
                       level: map<nat, nat>, L: nat)
    requires s in visited && y !in visited
    requires forall v :: v in visited ==> v in level
    requires forall v :: v in done ==> NeighborsIn(adj, v, visited)
    requires forall v :: v in visited && v !in done ==> L <= level[v]
    requires forall v :: v in visited ==> NoShorter(adj, s, v, level[v])
    ensures NoShorter(adj, s, y, L + 1)
  {
    forall q | PathFromTo(adj, q, s, y) ensures L + 1 <= |q| {
      var i := FirstExit(adj, q, visited);
      var u := q[i - 1];
      assert Adjacent(adj, u, q[i]);
      assert u !in done;
      PathPrefix(adj, q, s, y, i);
      assert NoShorter(adj, s, u, level[u]);
    }
  }

  /** Sum of the recorded best costs of stations 0..n-1; unrecorded stations count 0. */
  function SumBest(n: nat, best: map<nat, nat>): nat {
    if n == 0 then 0 else SumBest(n - 1, best) + (if n - 1 in best then best[n - 1] else 0)
  }

  /** Lowering one recorded cost lowers the sum by exactly the difference. */
  lemma {:induction false} SumBestLower(n: nat, best: map<nat, nat>, v: nat, x: nat)
    requires v < n && v in best && x <= best[v]
    ensures SumBest(n, best[v := x]) + (best[v] - x) == SumBest(n, best)
  {
    if n - 1 == v {
      SumBestFrame(n - 1, best[v := x], best);
    } else {
      SumBestLower(n - 1, best, v, x);
    }
  }

  /** The sum only looks at stations below n. */
  lemma {:induction false} SumBestFrame(n: nat, b1: map<nat, nat>, b2: map<nat, nat>)
    requires forall v :: v < n ==> (v in b1 <==> v in b2)
    requires forall v :: v < n && v in b1 ==> b1[v] == b2[v]
    ensures SumBest(n, b1) == SumBest(n, b2)
  {
    if n > 0 {
      SumBestFrame(n - 1, b1, b2);
    }
  }
}
