/**
 * The A* search of find_fastest_route, as the invariant its loop keeps and
 * the steps that keep it: popping the least heap entry, pushing an improved
 * neighbour, and finishing a station.
 */
module BestFirst {
  import opened Graph
  import opened PriorityQueue
  import opened SearchFacts

  /**
   * What holds of every heap entry: its station has a recorded best cost no
   * greater than its total, and its path is a walk from s to that station
   * whose times add up to its total (the start itself only as the bare start).
   */
  ghost predicate Frontier(adj: seq<Station>, s: nat, best: map<nat, nat>, e: HeapEntry) {
    && e.node < |adj| && e.node in best && best[e.node] <= e.total
    && |e.path| > 0 && e.path[0] == s && e.path[|e.path| - 1] == e.node
    && IsWeightedWalk(adj, e.path, e.total)
    && (e.node == s ==> e.path == [s] && e.total == 0)
  }

  /** Every heap entry is a frontier entry. */
  ghost predicate Entries(adj: seq<Station>, s: nat, best: map<nat, nat>, heap: seq<HeapEntry>) {
    forall e :: e in heap ==> Frontier(adj, s, best, e)
  }

  /**
   * The cost invariant: every recorded station is in the arena, the start is
   * recorded at cost 0, the heap entries are frontier entries, and a recorded
   * target still has an entry in the heap.
   */
  ghost predicate Costs(adj: seq<Station>, s: nat, t: nat,
                        best: map<nat, nat>, heap: seq<HeapEntry>) {
    && Closed(adj) && t < |adj|
    && (forall v :: v in best ==> v < |adj|)
    && s in best && best[s] == 0
    && Entries(adj, s, best, heap)
    && (t in best ==> exists e :: e in heap && e.node == t)
  }

  /** The heap holds an entry for station v whose total is c. */
  ghost predicate HasEntry(heap: seq<HeapEntry>, v: nat, c: nat) {
    exists e :: e in heap && e.node == v && e.total == c
  }

  /**
   * Every recorded station outside `skip` either still has its best cost
   * waiting in the heap or has all its neighbours recorded.
   */
  ghost predicate Settled(adj: seq<Station>, best: map<nat, nat>, heap: seq<HeapEntry>, skip: set<nat>) {
    forall v :: v in best && v !in skip ==> HasEntry(heap, v, best[v]) || NeighborsIn(adj, v, best.Keys)
  }

  /**
   * Popping entry e: e is a frontier entry; if it is not the target the rest
   * of the heap keeps the invariant; and e's station is the only one whose
   * best cost may have left the heap, and only when e carried that best cost.
   */
  lemma HeapPop(adj: seq<Station>, s: nat, t: nat,
                best: map<nat, nat>, heap: seq<HeapEntry>, e: HeapEntry, rest: seq<HeapEntry>)
    requires Costs(adj, s, t, best, heap) && Settled(adj, best, heap, {})
    requires multiset(heap) == multiset(rest) + multiset{e}
    requires forall f :: f in rest ==> f in heap
    requires forall f :: f in heap && f != e ==> f in rest
    ensures Frontier(adj, s, best, e)
    ensures e.node != t ==> Costs(adj, s, t, best, rest)
    ensures Settled(adj, best, rest, if e.total > best[e.node] then {} else {e.node})
  {
    assert e in multiset(heap);
    assert e in heap;
    if e.node != t && t in best {
      var f :| f in heap && f.node == t;
      assert f in rest;
    }
    var skip := if e.total > best[e.node] then {} else {e.node};
    forall v | v in best && v !in skip && HasEntry(heap, v, best[v]) ensures HasEntry(rest, v, best[v]) {
      var f :| f in heap && f.node == v && f.total == best[v];
      assert f in rest;
    }
  }

  /**
   * Pushing entry e for the neighbour reached through adjacency entry k of the
   * expanded station c, when that improves its recorded cost: its best cost
   * becomes the cost through c and its path is c's path extended by it.  The
   * entry's priority (cost plus estimate in the search) plays no part here.
   */
  lemma HeapPush(adj: seq<Station>, s: nat, t: nat, best: map<nat, nat>, heap: seq<HeapEntry>,
                 c: nat, path: seq<nat>, total: nat, k: nat, e: HeapEntry)
    requires Costs(adj, s, t, best, heap) && Settled(adj, best, heap, {c})
    requires c < |adj| && c in best && best[c] == total
    requires |path| > 0 && path[0] == s && path[|path| - 1] == c && IsWeightedWalk(adj, path, total)
    requires k < |adj[c].neighbors|
    requires e.node == adj[c].neighbors[k].to && e.total == total + adj[c].neighbors[k].time
    requires e.path == path + [e.node]
    requires e.node !in best || e.total < best[e.node]
    ensures Costs(adj, s, t, best[e.node := e.total], heap + [e])
    ensures Settled(adj, best[e.node := e.total], heap + [e], {c})
    ensures e.node != c
  {
    assert e.node != s by {
      assert best[s] == 0;
    }
    PushFrontier(adj, s, best, path, total, k, e);
    PushEntries(adj, s, t, best, heap, e);
    PushSettled(adj, best, heap, c, e);
  }

  /** The pushed entry is a frontier entry once its best cost is recorded. */
  lemma PushFrontier(adj: seq<Station>, s: nat, best: map<nat, nat>, path: seq<nat>, total: nat, k: nat,
                     e: HeapEntry)
    requires Closed(adj) && |path| > 0 && path[0] == s && path[|path| - 1] < |adj|
    requires IsWeightedWalk(adj, path, total)
    requires k < |adj[path[|path| - 1]].neighbors|
    requires e.node == adj[path[|path| - 1]].neighbors[k].to && e.node != s
    requires e.total == total + adj[path[|path| - 1]].neighbors[k].time && e.path == path + [e.node]
    ensures Frontier(adj, s, best[e.node := e.total], e)
  {
    WalkExtend(adj, path, total, k);
  }

  lemma PushEntries(adj: seq<Station>, s: nat, t: nat, best: map<nat, nat>, heap: seq<HeapEntry>, e: HeapEntry)
    requires Costs(adj, s, t, best, heap)
    requires e.node != s && (e.node !in best || e.total < best[e.node])
    requires Frontier(adj, s, best[e.node := e.total], e)
    ensures Costs(adj, s, t, best[e.node := e.total], heap + [e])
  {
    var y := e.node;
    var best', heap' := best[y := e.total], heap + [e];
    forall f | f in heap' ensures Frontier(adj, s, best', f) {
      if f != e {
        assert f in heap;
      }
    }
    if t in best' {
      if t == y {
        assert e in heap';
      } else {
        var f :| f in heap && f.node == t;
        assert f in heap';
      }
    }
  }

  lemma PushSettled(adj: seq<Station>, best: map<nat, nat>, heap: seq<HeapEntry>, c: nat, e: HeapEntry)
    requires Settled(adj, best, heap, {c})
    ensures Settled(adj, best[e.node := e.total], heap + [e], {c})
  {
    var y := e.node;
    var best', heap' := best[y := e.total], heap + [e];
    forall v | v in best' && v != c ensures HasEntry(heap', v, best'[v]) || NeighborsIn(adj, v, best'.Keys) {
      if v == y {
        assert e in heap';
      } else if HasEntry(heap, v, best[v]) {
        var f :| f in heap && f.node == v && f.total == best[v];
        assert f in heap';
      } else {
        assert NeighborsIn(adj, v, best.Keys);
      }
    }
  }

  /**
   * The promise of the fastest-route search from s to t: from a station to
   * itself the one-station path at time 0; otherwise a returned (path, total)
   * is a walk from s to t whose connection times add up to total; and None
   * exactly when t cannot be reached from s.
   */
  ghost predicate TimedRoute(adj: seq<Station>, s: nat, t: nat, r: Option<(seq<nat>, nat)>) {
    && (s == t ==> r == Some(([s], 0)))
    && (r.Some? ==> && |r.value.0| > 0 && r.value.0[0] == s && r.value.0[|r.value.0| - 1] == t
                    && IsWeightedWalk(adj, r.value.0, r.value.1))
    && (r.None? <==> !Reachable(adj, s, t))
  }

  /** The outer loop's invariant. */
  ghost predicate Exploring(adj: seq<Station>, s: nat, t: nat, best: map<nat, nat>, heap: seq<HeapEntry>) {
    Costs(adj, s, t, best, heap) && Settled(adj, best, heap, {})
  }

  /**
   * The inner loop's invariant while the neighbours of station c, reached by
   * path at cost total, are relaxed: c's best cost is total, the first j
   * neighbours are recorded, and compared with the measure (unset0, sum0,
   * size0) before the pop, the unrecorded stations shrank, or else the sum of
   * the best costs dropped, or else the heap is smaller.
   */
  ghost predicate Relaxing(adj: seq<Station>, s: nat, t: nat, best: map<nat, nat>, heap: seq<HeapEntry>,
                           c: nat, path: seq<nat>, total: nat, j: nat,
                           unset0: set<nat>, sum0: nat, size0: nat) {
    && Costs(adj, s, t, best, heap) && Settled(adj, best, heap, {c})
    && c < |adj| && c in best && best[c] == total
    && |path| > 0 && path[0] == s && path[|path| - 1] == c && IsWeightedWalk(adj, path, total)
    && j <= |adj[c].neighbors|
    && (forall k :: 0 <= k < j ==> adj[c].neighbors[k].to in best)
    && Outside(|adj|, best.Keys) <= unset0
    && (Outside(|adj|, best.Keys) == unset0 ==>
          SumBest(|adj|, best) <= sum0 && (SumBest(|adj|, best) == sum0 ==> |heap| < size0))
  }

  /** The search starts with the start station recorded at cost 0 and alone in the heap. */
  lemma AStarStart(adj: seq<Station>, s: nat, t: nat, h: nat)
    requires Closed(adj) && s < |adj| && t < |adj|
    ensures Exploring(adj, s, t, map[s := 0], [HeapEntry(0 + h, s, [s], 0)])
  {
    var e := HeapEntry(0 + h, s, [s], 0);
    assert e in [e];
  }

  /**
   * Popping the least entry e: at the target it is a timed route; a stale
   * entry (its total above the recorded best) leaves the invariant in place
   * for the rest; otherwise relaxing e's station starts.
   */
  lemma AStarPop(adj: seq<Station>, s: nat, t: nat, best: map<nat, nat>, heap: seq<HeapEntry>,
                 e: HeapEntry, rest: seq<HeapEntry>)
    requires Exploring(adj, s, t, best, heap)
    requires multiset(heap) == multiset(rest) + multiset{e} && |rest| == |heap| - 1
    requires forall f :: f in rest ==> f in heap
    requires forall f :: f in heap && f != e ==> f in rest
    ensures e.node == t ==> TimedRoute(adj, s, t, Some((e.path, e.total)))
    ensures e.node != t && e.node in best && e.total > best[e.node] ==> Exploring(adj, s, t, best, rest)
    ensures e.node != t && !(e.node in best && e.total > best[e.node]) ==>
              Relaxing(adj, s, t, best, rest, e.node, e.path, e.total, 0,
                       Outside(|adj|, best.Keys), SumBest(|adj|, best), |heap|)
  {
    HeapPop(adj, s, t, best, heap, e, rest);
    if e.node == t {
      WalkIsPath(adj, e.path, e.total);
      assert PathFromTo(adj, e.path, s, t);
    }
  }

  /** Relaxing the j-th neighbour of c when the cost through c improves on its record. */
  lemma AStarRelax(adj: seq<Station>, s: nat, t: nat, best: map<nat, nat>, heap: seq<HeapEntry>,
                   c: nat, path: seq<nat>, total: nat, j: nat, unset0: set<nat>, sum0: nat, size0: nat,
                   e: HeapEntry)
    requires Relaxing(adj, s, t, best, heap, c, path, total, j, unset0, sum0, size0)
    requires j < |adj[c].neighbors|
    requires e.node == adj[c].neighbors[j].to && e.total == total + adj[c].neighbors[j].time
    requires e.path == path + [e.node]
    requires e.node !in best || e.total < best[e.node]
    ensures Relaxing(adj, s, t, best[e.node := e.total], heap + [e], c, path, total, j + 1, unset0, sum0, size0)
  {
    HeapPush(adj, s, t, best, heap, c, path, total, j, e);
    if e.node in best {
      SumBestLower(|adj|, best, e.node, e.total);
    } else {
      OutsideShrinks(|adj|, best.Keys, e.node);
      assert best[e.node := e.total].Keys == best.Keys + {e.node};
    }
  }

  /** Passing over the j-th neighbour of c when the cost through c does not improve on its record. */
  lemma AStarSkip(adj: seq<Station>, s: nat, t: nat, best: map<nat, nat>, heap: seq<HeapEntry>,
                  c: nat, path: seq<nat>, total: nat, j: nat, unset0: set<nat>, sum0: nat, size0: nat)
    requires Relaxing(adj, s, t, best, heap, c, path, total, j, unset0, sum0, size0)
    requires j < |adj[c].neighbors|
    requires adj[c].neighbors[j].to in best && total + adj[c].neighbors[j].time >= best[adj[c].neighbors[j].to]
    ensures Relaxing(adj, s, t, best, heap, c, path, total, j + 1, unset0, sum0, size0)
  {
  }

  /** Once all of c's neighbours are recorded the outer invariant is back and the measure has dropped. */
  lemma AStarSettle(adj: seq<Station>, s: nat, t: nat, best: map<nat, nat>, heap: seq<HeapEntry>,
                    c: nat, path: seq<nat>, total: nat, unset0: set<nat>, sum0: nat, size0: nat)
    requires c < |adj|
    requires Relaxing(adj, s, t, best, heap, c, path, total, |adj[c].neighbors|, unset0, sum0, size0)
    ensures Exploring(adj, s, t, best, heap)
    ensures Outside(|adj|, best.Keys) <= unset0
    ensures Outside(|adj|, best.Keys) == unset0 ==>
              SumBest(|adj|, best) <= sum0 && (SumBest(|adj|, best) == sum0 ==> |heap| < size0)
  {
    assert NeighborsIn(adj, c, best.Keys);
  }

  /** With the heap empty, the recorded stations are closed under adjacency and miss the target. */
  lemma AStarExhausted(adj: seq<Station>, s: nat, t: nat, best: map<nat, nat>)
    requires Exploring(adj, s, t, best, [])
    ensures TimedRoute(adj, s, t, None)
  {
    ClosedSetUnreachable(adj, s, t, best.Keys);
  }
}
