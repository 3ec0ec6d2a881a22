/**
 * The metro graph as values: stations live in an arena (a sequence) and are
 * identified by their position in it; every station carries its adjacency list
 * of (neighbour, travel time) entries.  Paths, weighted walks and reachability
 * are defined here once and used by both route searches.
 */
module Graph {

  datatype Option<T> = None | Some(value: T)

  /** One adjacency entry: the neighbouring station's arena index and the travel time. */
  datatype Edge = Edge(to: nat, time: nat)

  /** A station: its string key, display name, line label and adjacency list. */
  datatype Station = Station(id: string, name: string, line: string, neighbors: seq<Edge>)

  /** Every adjacency entry points back into the arena. */
  ghost predicate Closed(adj: seq<Station>) {
    forall i, k :: 0 <= i < |adj| && 0 <= k < |adj[i].neighbors| ==> adj[i].neighbors[k].to < |adj|
  }

  /** How many adjacency entries of station a are (b, t). */
  function Count(adj: seq<Station>, a: nat, b: nat, t: nat): nat
    requires a < |adj|
  {
    multiset(adj[a].neighbors)[Edge(b, t)]
  }

  /** Connections are undirected: entry (b, t) at a is matched, as often, by entry (a, t) at b. */
  ghost predicate Symmetric(adj: seq<Station>) {
    forall a, b, t: nat :: 0 <= a < |adj| && 0 <= b < |adj| ==> Count(adj, a, b, t) == Count(adj, b, a, t)
  }

  /** Some adjacency entry of a points to b. */
  ghost predicate Adjacent(adj: seq<Station>, a: nat, b: nat) {
    a < |adj| && exists k :: 0 <= k < |adj[a].neighbors| && adj[a].neighbors[k].to == b
  }

  /** A non-empty sequence of stations, each consecutive pair joined by an adjacency entry. */
  ghost predicate IsPath(adj: seq<Station>, p: seq<nat>) {
    && |p| > 0
    && (forall i :: 0 <= i < |p| ==> p[i] < |adj|)
    && (forall i :: 0 <= i < |p| - 1 ==> Adjacent(adj, p[i], p[i + 1]))
  }

  ghost predicate PathFromTo(adj: seq<Station>, p: seq<nat>, s: nat, t: nat) {
    IsPath(adj, p) && p[0] == s && p[|p| - 1] == t
  }

  ghost predicate Reachable(adj: seq<Station>, s: nat, t: nat) {
    exists p :: PathFromTo(adj, p, s, t)
  }

  /** No path from s to t has fewer than n stations (that is, fewer than n - 1 connections). */
  ghost predicate NoShorter(adj: seq<Station>, s: nat, t: nat, n: nat) {
    forall q :: PathFromTo(adj, q, s, t) ==> n <= |q|
  }

  ghost predicate Distinct(p: seq<nat>) {
    forall i, j :: 0 <= i < j < |p| ==> p[i] != p[j]
  }

  /** Every adjacency entry of v points into the set S. */
  ghost predicate NeighborsIn(adj: seq<Station>, v: nat, S: set<nat>) {
    v < |adj| && forall k :: 0 <= k < |adj[v].neighbors| ==> adj[v].neighbors[k].to in S
  }

  /**
   * p is a walk whose connections can be chosen among the adjacency entries
   * (parallel entries may differ in time) so that their times add up to cost.
   */
  ghost predicate IsWeightedWalk(adj: seq<Station>, p: seq<nat>, cost: int)
    decreases |p|
  {
    if |p| == 0 then false
    else if |p| == 1 then p[0] < |adj| && cost == 0
    else
      var a, b := p[|p| - 2], p[|p| - 1];
      && a < |adj|
      && exists k :: 0 <= k < |adj[a].neighbors| && adj[a].neighbors[k].to == b
                     && IsWeightedWalk(adj, p[..|p| - 1], cost - adj[a].neighbors[k].time)
  }

  /** Appending station `to` of an adjacency entry of the last station extends a path. */
  lemma PathExtend(adj: seq<Station>, p: seq<nat>, s: nat, k: nat)
    requires Closed(adj)
    requires IsPath(adj, p) && p[0] == s
    requires k < |adj[p[|p| - 1]].neighbors|
    ensures PathFromTo(adj, p + [adj[p[|p| - 1]].neighbors[k].to], s, adj[p[|p| - 1]].neighbors[k].to)
  {
    var x := p[|p| - 1];
    var q := p + [adj[x].neighbors[k].to];
    forall i | 0 <= i < |q| - 1 ensures Adjacent(adj, q[i], q[i + 1]) {
      if i < |p| - 1 {
        assert q[i] == p[i] && q[i + 1] == p[i + 1];
      } else {
        assert q[i] == x;
      }
    }
  }

  /** Every non-empty prefix of a path from s is a path from s. */
  lemma PathPrefix(adj: seq<Station>, p: seq<nat>, s: nat, t: nat, i: nat)
    requires PathFromTo(adj, p, s, t)
    requires 1 <= i <= |p|
    ensures PathFromTo(adj, p[..i], s, p[i - 1])
  {
  }

  /** A path that starts inside S and ends outside it leaves S along some connection. */
  lemma {:induction false} FirstExit(adj: seq<Station>, p: seq<nat>, S: set<nat>) returns (i: nat)
    requires IsPath(adj, p)
    requires p[0] in S && p[|p| - 1] !in S
    ensures 1 <= i < |p| && p[i - 1] in S && p[i] !in S
    decreases |p|
  {
    if p[|p| - 2] in S {
      i := |p| - 1;
    } else {
      var p' := p[..|p| - 1];
      assert IsPath(adj, p') by {
        forall j | 0 <= j < |p'| - 1 ensures Adjacent(adj, p'[j], p'[j + 1]) {
          assert p'[j] == p[j] && p'[j + 1] == p[j + 1];
        }
      }
      i := FirstExit(adj, p', S);
    }
  }

  /** A set containing s and closed under adjacency contains everything reachable from s. */
  lemma ClosedSetUnreachable(adj: seq<Station>, s: nat, t: nat, S: set<nat>)
    requires s in S && t !in S
    requires forall v :: v in S ==> NeighborsIn(adj, v, S)
    ensures !Reachable(adj, s, t)
  {
    if q :| PathFromTo(adj, q, s, t) {
      var i := FirstExit(adj, q, S);
      assert false;
    }
  }

  /** Every weighted walk is a path. */
  lemma {:induction false} WalkIsPath(adj: seq<Station>, p: seq<nat>, cost: int)
    requires Closed(adj)
    requires IsWeightedWalk(adj, p, cost)
    ensures IsPath(adj, p)
    decreases |p|
  {
    if |p| > 1 {
      var a, b := p[|p| - 2], p[|p| - 1];
      var k :| 0 <= k < |adj[a].neighbors| && adj[a].neighbors[k].to == b
               && IsWeightedWalk(adj, p[..|p| - 1], cost - adj[a].neighbors[k].time);
      var p' := p[..|p| - 1];
      WalkIsPath(adj, p', cost - adj[a].neighbors[k].time);
      forall i | 0 <= i < |p| - 1 ensures Adjacent(adj, p[i], p[i + 1]) {
        if i < |p| - 2 {
          assert p[i] == p'[i] && p[i + 1] == p'[i + 1];
        }
      }
    }
  }

  /** Following adjacency entry k of the last station adds its time to the walk's cost. */
  lemma WalkExtend(adj: seq<Station>, p: seq<nat>, cost: int, k: nat)
    requires IsWeightedWalk(adj, p, cost)
    requires p[|p| - 1] < |adj| && k < |adj[p[|p| - 1]].neighbors|
    ensures IsWeightedWalk(adj, p + [adj[p[|p| - 1]].neighbors[k].to],
                           cost + adj[p[|p| - 1]].neighbors[k].time)
  {
    var e := adj[p[|p| - 1]].neighbors[k];
    var q := p + [e.to];
    assert q[..|q| - 1] == p;
    assert q[|q| - 2] == p[|p| - 1];
  }

  /** The last connection of a walk, taken as adjacency entry k of the next-to-last station. */
  lemma WalkStep(adj: seq<Station>, p: seq<nat>, cost: int, total: int, a: nat, b: nat, k: nat)
    requires |p| >= 2 && p[|p| - 2] == a && p[|p| - 1] == b
    requires a < |adj| && k < |adj[a].neighbors| && adj[a].neighbors[k].to == b
    requires IsWeightedWalk(adj, p[..|p| - 1], cost) && total == cost + adj[a].neighbors[k].time
    ensures IsWeightedWalk(adj, p, total)
  {
  }

  /** Symmetry lets every connection be travelled back with the same time. */
  lemma EdgeHasTwin(adj: seq<Station>, a: nat, k: nat)
    requires Closed(adj) && Symmetric(adj)
    requires a < |adj| && k < |adj[a].neighbors|
    ensures exists j :: 0 <= j < |adj[adj[a].neighbors[k].to].neighbors|
                        && adj[adj[a].neighbors[k].to].neighbors[j] == Edge(a, adj[a].neighbors[k].time)
  {
    var e := adj[a].neighbors[k];
    assert e in multiset(adj[a].neighbors);
    assert Count(adj, a, e.to, e.time) == Count(adj, e.to, a, e.time);
    assert Edge(a, e.time) in adj[e.to].neighbors;
  }
}
