/**
 * The breadth-first search of find_min_transfers, as the invariant its loop
 * keeps and the steps that keep it: taking the head of the queue, enqueueing
 * an unvisited neighbour, and finishing a station.
 */
module BreadthFirst {
  import opened Graph
  import opened SearchFacts

  /**
   * The promise of the breadth-first search from s to t: from a station to
   * itself the one-station path; otherwise a returned path runs from s to t
   * without repeating a station and no path has fewer stations; and None
   * exactly when t cannot be reached from s.
   */
  ghost predicate FewestStops(adj: seq<Station>, s: nat, t: nat, r: Option<seq<nat>>) {
    && (s == t ==> r == Some([s]))
    && (r.Some? ==> PathFromTo(adj, r.value, s, t) && Distinct(r.value) && NoShorter(adj, s, t, |r.value|))
    && (r.None? <==> !Reachable(adj, s, t))
  }

  /** A queue entry: a station and the path that reached it. */
  datatype QueueEntry = QueueEntry(node: nat, path: seq<nat>)

  /**
   * What holds of a queue entry: its path is a repetition-free path from s to
   * the entry's station, all of whose stations are visited, and its length is
   * the station's recorded level, L or L + 1.
   */
  ghost predicate Queued(adj: seq<Station>, s: nat, visited: set<nat>, level: map<nat, nat>, L: nat,
                         e: QueueEntry) {
    && PathFromTo(adj, e.path, s, e.node)
    && Distinct(e.path)
    && (forall w :: w in e.path ==> w in visited)
    && e.node in level && level[e.node] == |e.path|
    && L <= |e.path| <= L + 1
  }

  /** The queue holds distinct unfinished stations, in non-decreasing path length. */
  ghost predicate QueueOk(adj: seq<Station>, s: nat, visited: set<nat>, done: set<nat>,
                          level: map<nat, nat>, L: nat, queue: seq<QueueEntry>) {
    && (forall i :: 0 <= i < |queue| ==> Queued(adj, s, visited, level, L, queue[i]) && queue[i].node !in done)
    && (forall i, j :: 0 <= i < j < |queue| ==> |queue[i].path| <= |queue[j].path|)
    && (forall i, j :: 0 <= i < j < |queue| ==> queue[i].node != queue[j].node)
  }

  /** Unfinished visited stations sit at level L or deeper. */
  ghost predicate Deep(visited: set<nat>, done: set<nat>, level: map<nat, nat>, L: nat) {
    forall v :: v in visited && v !in done && v in level ==> L <= level[v]
  }

  /** Finished stations have all their neighbours visited. */
  ghost predicate DoneClosed(adj: seq<Station>, visited: set<nat>, done: set<nat>) {
    forall v :: v in done ==> NeighborsIn(adj, v, visited)
  }

  /** No path reaches a visited station in fewer stations than its level. */
  ghost predicate Tight(adj: seq<Station>, s: nat, visited: set<nat>, level: map<nat, nat>) {
    forall v :: v in visited && v in level ==> NoShorter(adj, s, v, level[v])
  }

  /**
   * The level invariant: the start is visited, the levels cover exactly the
   * visited stations, the target is not finished, and the four facts above.
   */
  ghost predicate Levels(adj: seq<Station>, s: nat, t: nat, visited: set<nat>, done: set<nat>,
                         level: map<nat, nat>, L: nat, queue: seq<QueueEntry>) {
    && (forall v :: v in visited ==> v < |adj|)
    && s in visited && level.Keys == visited
    && done <= visited && t !in done
    && QueueOk(adj, s, visited, done, level, L, queue)
    && Deep(visited, done, level, L)
    && DoneClosed(adj, visited, done)
    && Tight(adj, s, visited, level)
  }

  /** The stations waiting in the queue. */
  ghost function Nodes(queue: seq<QueueEntry>): set<nat> {
    if queue == [] then {} else Nodes(queue[..|queue| - 1]) + {queue[|queue| - 1].node}
  }

  /** Every visited, unfinished station outside `skip` is waiting in the queue. */
  ghost predicate Pending(visited: set<nat>, done: set<nat>, queue: seq<QueueEntry>, skip: set<nat>) {
    forall v :: v in visited && v !in done && v !in skip ==> v in Nodes(queue)
  }

  lemma NodesAppend(queue: seq<QueueEntry>, x: QueueEntry)
    ensures Nodes(queue + [x]) == Nodes(queue) + {x.node}
  {
    assert (queue + [x])[..|queue|] == queue;
  }

  lemma {:induction false} NodesTail(queue: seq<QueueEntry>)
    requires queue != []
    ensures Nodes(queue) == {queue[0].node} + Nodes(queue[1..])
    decreases |queue|
  {
    if |queue| > 1 {
      var init := queue[..|queue| - 1];
      NodesTail(init);
      assert init[1..] == queue[1..][..|queue| - 2];
    }
  }

  lemma {:induction false} NodeIndex(queue: seq<QueueEntry>, v: nat) returns (i: nat)
    requires v in Nodes(queue)
    ensures i < |queue| && queue[i].node == v
    decreases |queue|
  {
    if queue[|queue| - 1].node == v {
      i := |queue| - 1;
    } else {
      i := NodeIndex(queue[..|queue| - 1], v);
    }
  }

  /** Station c has no entry in the queue. */
  ghost predicate NotQueued(queue: seq<QueueEntry>, c: nat) {
    forall i :: 0 <= i < |queue| ==> queue[i].node != c
  }

  /**
   * Taking the head of the queue: the search level becomes the head's path
   * length, the rest of the queue keeps the invariant, and the head's station
   * is the one unfinished station no longer waiting.
   */
  lemma PopHead(adj: seq<Station>, s: nat, t: nat, visited: set<nat>, done: set<nat>,
               level: map<nat, nat>, L: nat, queue: seq<QueueEntry>)
    requires Levels(adj, s, t, visited, done, level, L, queue) && Pending(visited, done, queue, {})
    requires queue != []
    ensures Levels(adj, s, t, visited, done, level, |queue[0].path|, queue[1..])
    ensures Pending(visited, done, queue[1..], {queue[0].node})
    ensures Queued(adj, s, visited, level, |queue[0].path|, queue[0]) && queue[0].node !in done
    ensures NotQueued(queue[1..], queue[0].node)
  {
    PopQueue(adj, s, visited, done, level, L, queue);
    PopDeep(adj, s, visited, done, level, L, queue);
    PopPending(visited, done, queue);
  }

  lemma PopPending(visited: set<nat>, done: set<nat>, queue: seq<QueueEntry>)
    requires Pending(visited, done, queue, {}) && queue != []
    ensures Pending(visited, done, queue[1..], {queue[0].node})
  {
    NodesTail(queue);
  }

  lemma PopQueue(adj: seq<Station>, s: nat, visited: set<nat>, done: set<nat>,
                 level: map<nat, nat>, L: nat, queue: seq<QueueEntry>)
    requires QueueOk(adj, s, visited, done, level, L, queue) && queue != []
    ensures QueueOk(adj, s, visited, done, level, |queue[0].path|, queue[1..])
    ensures Queued(adj, s, visited, level, |queue[0].path|, queue[0]) && queue[0].node !in done
    ensures NotQueued(queue[1..], queue[0].node)
  {
    var e, q, L' := queue[0], queue[1..], |queue[0].path|;
    assert Queued(adj, s, visited, level, L, e);
    forall i | 0 <= i < |q| ensures Queued(adj, s, visited, level, L', q[i]) {
      assert q[i] == queue[i + 1];
      assert Queued(adj, s, visited, level, L, queue[i + 1]);
    }
    forall i | 0 <= i < |q| ensures q[i].node != e.node {
      assert q[i] == queue[i + 1];
    }
  }

  lemma PopDeep(adj: seq<Station>, s: nat, visited: set<nat>, done: set<nat>,
                level: map<nat, nat>, L: nat, queue: seq<QueueEntry>)
    requires QueueOk(adj, s, visited, done, level, L, queue) && queue != []
    requires Pending(visited, done, queue, {})
    ensures Deep(visited, done, level, |queue[0].path|)
  {
    forall v | v in visited && v !in done && v in level ensures |queue[0].path| <= level[v] {
      var i := NodeIndex(queue, v);
      assert Queued(adj, s, visited, level, L, queue[i]);
    }
  }

  /**
   * Enqueueing the unvisited neighbour y of the station being expanded: y is
   * visited at level L + 1, which no path undercuts, and its path is the
   * expanded station's path extended by y.
   */
  lemma VisitNeighbor(adj: seq<Station>, s: nat, t: nat, visited: set<nat>, done: set<nat>,
                 level: map<nat, nat>, L: nat, queue: seq<QueueEntry>, e: QueueEntry, k: nat, y: nat)
    requires Closed(adj)
    requires Levels(adj, s, t, visited, done, level, L, queue) && Pending(visited, done, queue, {e.node})
    requires Queued(adj, s, visited, level, L, e) && e.node !in done && |e.path| == L
    requires NotQueued(queue, e.node)
    requires e.node < |adj| && k < |adj[e.node].neighbors| && y == adj[e.node].neighbors[k].to && y !in visited
    ensures Levels(adj, s, t, visited + {y}, done, level[y := L + 1], L, queue + [QueueEntry(y, e.path + [y])])
    ensures Pending(visited + {y}, done, queue + [QueueEntry(y, e.path + [y])], {e.node})
    ensures Queued(adj, s, visited + {y}, level[y := L + 1], L, e)
    ensures NotQueued(queue + [QueueEntry(y, e.path + [y])], e.node)
    ensures y < |adj|
  {
    VisitTight(adj, s, visited, done, level, L, y);
    VisitQueue(adj, s, visited, done, level, L, queue, e, k, y);
    VisitPending(visited, done, queue, e.node, y, e.path + [y]);
    MoreVisited(adj, visited, done, y);
  }

  /** Visiting more stations keeps the finished ones closed. */
  lemma MoreVisited(adj: seq<Station>, visited: set<nat>, done: set<nat>, y: nat)
    requires DoneClosed(adj, visited, done)
    ensures DoneClosed(adj, visited + {y}, done)
  {
    forall v | v in done ensures NeighborsIn(adj, v, visited + {y}) {
      assert NeighborsIn(adj, v, visited);
    }
  }

  lemma VisitPending(visited: set<nat>, done: set<nat>, queue: seq<QueueEntry>, c: nat, y: nat, p: seq<nat>)
    requires Pending(visited, done, queue, {c})
    ensures Pending(visited + {y}, done, queue + [QueueEntry(y, p)], {c})
  {
    NodesAppend(queue, QueueEntry(y, p));
  }

  /** The new level L + 1 of the unvisited y is one no path undercuts. */
  lemma VisitTight(adj: seq<Station>, s: nat, visited: set<nat>, done: set<nat>,
                   level: map<nat, nat>, L: nat, y: nat)
    requires s in visited && level.Keys == visited && y !in visited
    requires Deep(visited, done, level, L) && DoneClosed(adj, visited, done) && Tight(adj, s, visited, level)
    ensures Tight(adj, s, visited + {y}, level[y := L + 1])
  {
    UnvisitedIsFar(adj, s, y, visited, done, level, L);
  }

  /** Appending y's entry keeps the queue's facts, and the expanded entry stays valid. */
  lemma VisitQueue(adj: seq<Station>, s: nat, visited: set<nat>, done: set<nat>,
                   level: map<nat, nat>, L: nat, queue: seq<QueueEntry>, e: QueueEntry, k: nat, y: nat)
    requires Closed(adj) && done <= visited && level.Keys == visited
    requires QueueOk(adj, s, visited, done, level, L, queue)
    requires Queued(adj, s, visited, level, L, e) && |e.path| == L && NotQueued(queue, e.node)
    requires e.node < |adj| && k < |adj[e.node].neighbors| && y == adj[e.node].neighbors[k].to && y !in visited
    ensures QueueOk(adj, s, visited + {y}, done, level[y := L + 1], L, queue + [QueueEntry(y, e.path + [y])])
    ensures Queued(adj, s, visited + {y}, level[y := L + 1], L, e)
    ensures NotQueued(queue + [QueueEntry(y, e.path + [y])], e.node)
  {
    var visited', level' := visited + {y}, level[y := L + 1];
    var p := e.path + [y];
    var queue' := queue + [QueueEntry(y, p)];
    PathExtend(adj, e.path, s, k);
    assert Distinct(p) by {
      assert forall w :: w in e.path ==> w in visited;
    }
    assert Queued(adj, s, visited', level', L, QueueEntry(y, p));
    forall i | 0 <= i < |queue'| ensures Queued(adj, s, visited', level', L, queue'[i]) && queue'[i].node !in done {
      if i < |queue| {
        assert queue'[i] == queue[i];
        assert Queued(adj, s, visited, level, L, queue[i]);
      }
    }
    forall i, j | 0 <= i < j < |queue'|
      ensures |queue'[i].path| <= |queue'[j].path| && queue'[i].node != queue'[j].node
    {
      if j < |queue| {
        assert queue'[i] == queue[i] && queue'[j] == queue[j];
      } else {
        assert queue'[i] == queue[i];
        assert Queued(adj, s, visited, level, L, queue[i]);
      }
    }
  }

  /** Finishing station c once all its neighbours are visited. */
  lemma Finish(adj: seq<Station>, s: nat, t: nat, visited: set<nat>, done: set<nat>,
                  level: map<nat, nat>, L: nat, queue: seq<QueueEntry>, c: nat)
    requires Levels(adj, s, t, visited, done, level, L, queue) && Pending(visited, done, queue, {c})
    requires c in visited && c != t && NotQueued(queue, c)
    requires NeighborsIn(adj, c, visited)
    ensures Levels(adj, s, t, visited, done + {c}, level, L, queue)
    ensures Pending(visited, done + {c}, queue, {})
  {
  }

  /** The outer loop's invariant: the level invariant with every unfinished station queued. */
  ghost predicate Searching(adj: seq<Station>, s: nat, t: nat, visited: set<nat>, done: set<nat>,
                            level: map<nat, nat>, L: nat, queue: seq<QueueEntry>) {
    && Closed(adj) && t < |adj|
    && Levels(adj, s, t, visited, done, level, L, queue)
    && Pending(visited, done, queue, {})
  }

  /**
   * The inner loop's invariant while station e is expanded: the first j
   * neighbours of e are visited, e is the one unfinished station not queued,
   * and compared with the state (visited0, queue0) before the expansion either
   * some station was newly visited or the queue is unchanged.
   */
  ghost predicate Expanding(adj: seq<Station>, s: nat, t: nat, visited: set<nat>, done: set<nat>,
                            level: map<nat, nat>, L: nat, queue: seq<QueueEntry>,
                            e: QueueEntry, j: nat, visited0: set<nat>, queue0: seq<QueueEntry>) {
    && Closed(adj) && t < |adj|
    && e.node < |adj| && e.node != t && j <= |adj[e.node].neighbors|
    && |e.path| == L && e.node !in done
    && Levels(adj, s, t, visited, done, level, L, queue)
    && Pending(visited, done, queue, {e.node})
    && Queued(adj, s, visited, level, L, e) && NotQueued(queue, e.node)
    && (forall k :: 0 <= k < j ==> adj[e.node].neighbors[k].to in visited)
    && Outside(|adj|, visited) <= Outside(|adj|, visited0)
    && (Outside(|adj|, visited) == Outside(|adj|, visited0) ==> queue == queue0)
  }

  /** The search starts with the start station visited, at level 1, alone in the queue. */
  lemma BfsStart(adj: seq<Station>, s: nat, t: nat)
    requires Closed(adj) && s < |adj| && t < |adj|
    ensures Searching(adj, s, t, {s}, {}, map[s := 1], 1, [QueueEntry(s, [s])])
  {
    assert PathFromTo(adj, [s], s, s);
    NodesAppend([], QueueEntry(s, [s]));
  }

  /**
   * Dequeueing the head: if it is the target, its path is a fewest-stations
   * path; otherwise its expansion starts with level L set to its path length.
   */
  lemma BfsPop(adj: seq<Station>, s: nat, t: nat, visited: set<nat>, done: set<nat>,
               level: map<nat, nat>, L: nat, queue: seq<QueueEntry>)
    requires Searching(adj, s, t, visited, done, level, L, queue) && queue != []
    ensures queue[0].node == t ==> FewestStops(adj, s, t, Some(queue[0].path))
    ensures queue[0].node != t ==>
              Expanding(adj, s, t, visited, done, level, |queue[0].path|, queue[1..], queue[0], 0, visited, queue[1..])
  {
    PopHead(adj, s, t, visited, done, level, L, queue);
    var e := queue[0];
    if e.node == t {
      assert PathFromTo(adj, e.path, s, t) && level[t] == |e.path|;
      assert s == t ==> e.path == [s];
    }
  }

  /** Visiting the j-th neighbour y of e, which was unvisited. */
  lemma ExpandVisit(adj: seq<Station>, s: nat, t: nat, visited: set<nat>, done: set<nat>,
                    level: map<nat, nat>, L: nat, queue: seq<QueueEntry>,
                    e: QueueEntry, j: nat, visited0: set<nat>, queue0: seq<QueueEntry>, y: nat)
    requires Expanding(adj, s, t, visited, done, level, L, queue, e, j, visited0, queue0)
    requires j < |adj[e.node].neighbors| && y == adj[e.node].neighbors[j].to && y !in visited
    ensures Expanding(adj, s, t, visited + {y}, done, level[y := L + 1], L,
                      queue + [QueueEntry(y, e.path + [y])], e, j + 1, visited0, queue0)
  {
    VisitNeighbor(adj, s, t, visited, done, level, L, queue, e, j, y);
    OutsideShrinks(|adj|, visited, y);
  }

  /** Passing over the j-th neighbour of e, which was already visited. */
  lemma ExpandSkip(adj: seq<Station>, s: nat, t: nat, visited: set<nat>, done: set<nat>,
                   level: map<nat, nat>, L: nat, queue: seq<QueueEntry>,
                   e: QueueEntry, j: nat, visited0: set<nat>, queue0: seq<QueueEntry>)
    requires Expanding(adj, s, t, visited, done, level, L, queue, e, j, visited0, queue0)
    requires j < |adj[e.node].neighbors| && adj[e.node].neighbors[j].to in visited
    ensures Expanding(adj, s, t, visited, done, level, L, queue, e, j + 1, visited0, queue0)
  {
  }

  /** Once all of e's neighbours are visited, e is finished and the outer invariant is back. */
  lemma BfsSettle(adj: seq<Station>, s: nat, t: nat, visited: set<nat>, done: set<nat>,
                  level: map<nat, nat>, L: nat, queue: seq<QueueEntry>,
                  e: QueueEntry, visited0: set<nat>, queue0: seq<QueueEntry>)
    requires e.node < |adj|
    requires Expanding(adj, s, t, visited, done, level, L, queue, e, |adj[e.node].neighbors|, visited0, queue0)
    ensures Searching(adj, s, t, visited, done + {e.node}, level, L, queue)
    ensures Outside(|adj|, visited) <= Outside(|adj|, visited0)
    ensures Outside(|adj|, visited) == Outside(|adj|, visited0) ==> queue == queue0
  {
    assert Queued(adj, s, visited, level, L, e);
    Finish(adj, s, t, visited, done, level, L, queue, e.node);
  }

  /** With the queue empty every visited station is finished, so the target is out of reach. */
  lemma BfsExhausted(adj: seq<Station>, s: nat, t: nat, visited: set<nat>, done: set<nat>,
                     level: map<nat, nat>, L: nat)
    requires Searching(adj, s, t, visited, done, level, L, [])
    ensures FewestStops(adj, s, t, None)
  {
    ClosedSetUnreachable(adj, s, t, visited);
  }

  /**
   * find_min_transfers once both ids are known: a FIFO queue of (station,
   * path) entries, a visited set marked on enqueue, and the path returned the
   * first time the target is dequeued.
   */
  method Search(adj: seq<Station>, s: nat, t: nat) returns (r: Option<seq<nat>>)
    requires Closed(adj) && s < |adj| && t < |adj|
    ensures FewestStops(adj, s, t, r)
  {
    var queue := [QueueEntry(s, [s])];
    var visited := {s};
    ghost var done: set<nat>, level: map<nat, nat>, L: nat := {}, map[s := 1], 1;
    BfsStart(adj, s, t);
    while queue != []
      invariant Searching(adj, s, t, visited, done, level, L, queue)
      decreases Outside(|adj|, visited), |queue|
    {
      BfsPop(adj, s, t, visited, done, level, L, queue);
      var entry := queue[0];
      queue := queue[1..];
      var current, path := entry.node, entry.path;
      if current == t {
        return Some(path);
      }
      L := |path|;
      ghost var visited0, queue0 := visited, queue;
      var nbrs := adj[current].neighbors;
      var j := 0;
      while j < |nbrs|
        invariant j <= |nbrs|
        invariant Expanding(adj, s, t, visited, done, level, L, queue, entry, j, visited0, queue0)
      {
        var neighbor := nbrs[j].to;
        if neighbor !in visited {
          ExpandVisit(adj, s, t, visited, done, level, L, queue, entry, j, visited0, queue0, neighbor);
          visited := visited + {neighbor};
          level := level[neighbor := L + 1];
          queue := queue + [QueueEntry(neighbor, path + [neighbor])];
        } else {
          ExpandSkip(adj, s, t, visited, done, level, L, queue, entry, j, visited0, queue0);
        }
        j := j + 1;
      }
      BfsSettle(adj, s, t, visited, done, level, L, queue, entry, visited0, queue0);
      done := done + {current};
    }
    BfsExhausted(adj, s, t, visited, done, level, L);
    return None;
  }
}
