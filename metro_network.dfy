/**
 * The metro network: a registry of stations kept in an arena, the per-line
 * station lists, the construction operations and the two route searches.
 * A station is identified by its position in the arena, which stands for the
 * object identity the searches use for their visited set and cost table.
 */
module Metro {
  import opened Graph
  import opened LineMetrics
  import opened PriorityQueue
  import opened SearchFacts
  import opened BreadthFirst
  import opened BestFirst

  /** Result of add_connection: an unregistered id raises a lookup error. */
  datatype Outcome = Pass | UnknownStation(id: string)

  /** Station a gains the adjacency entry (b, t) at the end of its list. */
  function AddEdge(adj: seq<Station>, a: nat, b: nat, t: nat): seq<Station>
    requires a < |adj|
  {
    adj[a := adj[a].(neighbors := adj[a].neighbors + [Edge(b, t)])]
  }

  /** An undirected connection: (b, t) appended at a, then (a, t) appended at b. */
  function Connect(adj: seq<Station>, a: nat, b: nat, t: nat): (r: seq<Station>)
    requires a < |adj| && b < |adj|
    ensures |r| == |adj|
    ensures forall i :: 0 <= i < |adj| ==>
              && r[i].id == adj[i].id && r[i].name == adj[i].name && r[i].line == adj[i].line
              && adj[i].neighbors <= r[i].neighbors
    ensures forall i :: 0 <= i < |adj| && i != a && i != b ==> r[i] == adj[i]
    ensures a != b ==> (r[a].neighbors == adj[a].neighbors + [Edge(b, t)]
                        && r[b].neighbors == adj[b].neighbors + [Edge(a, t)])
    ensures a == b ==> r[a].neighbors == adj[a].neighbors + [Edge(b, t), Edge(a, t)]
  {
    AddEdge(AddEdge(adj, a, b, t), b, a, t)
  }

  /** A connection keeps every adjacency entry inside the arena. */
  lemma ConnectKeepsClosed(adj: seq<Station>, a: nat, b: nat, t: nat)
    requires Closed(adj) && a < |adj| && b < |adj|
    ensures Closed(Connect(adj, a, b, t))
  {
    var r := Connect(adj, a, b, t);
    forall i, k | 0 <= i < |r| && 0 <= k < |r[i].neighbors| ensures r[i].neighbors[k].to < |r| {
      if k < |adj[i].neighbors| {
        assert r[i].neighbors[k] == adj[i].neighbors[k];
      }
    }
  }

  /** A connection keeps the adjacency symmetric. */
  lemma ConnectKeepsSymmetric(adj: seq<Station>, a: nat, b: nat, t: nat)
    requires Symmetric(adj) && a < |adj| && b < |adj|
    ensures Symmetric(Connect(adj, a, b, t))
  {
    var r := Connect(adj, a, b, t);
    forall x, y, u: nat | 0 <= x < |r| && 0 <= y < |r|
      ensures Count(r, x, y, u) == Count(r, y, x, u)
    {
      assert Count(adj, x, y, u) == Count(adj, y, x, u);
      Appended(adj, r, a, b, t, x);
      Appended(adj, r, a, b, t, y);
    }
  }

  /** What the connection adds to the adjacency multiset of station x. */
  lemma Appended(adj: seq<Station>, r: seq<Station>, a: nat, b: nat, t: nat, x: nat)
    requires a < |adj| && b < |adj| && x < |adj| && r == Connect(adj, a, b, t)
    ensures multiset(r[x].neighbors) ==
              multiset(adj[x].neighbors)
              + (if x == a then multiset{Edge(b, t)} else multiset{})
              + (if x == b then multiset{Edge(a, t)} else multiset{})
  {
  }

  /** A station without connections can join the arena without breaking its invariants. */
  lemma NewStationKeepsGraph(adj: seq<Station>, st: Station)
    requires Closed(adj) && Symmetric(adj) && st.neighbors == []
    ensures Closed(adj + [st]) && Symmetric(adj + [st])
  {
    var r := adj + [st];
    forall a, b, t: nat | 0 <= a < |r| && 0 <= b < |r| ensures Count(r, a, b, t) == Count(r, b, a, t) {
      if a < |adj| && b < |adj| {
        assert Count(r, a, b, t) == Count(adj, a, b, t) && Count(r, b, a, t) == Count(adj, b, a, t);
      } else if a == |adj| && b < |adj| {
        assert Edge(a, t) !in adj[b].neighbors;
      } else if b == |adj| && a < |adj| {
        assert Edge(b, t) !in adj[a].neighbors;
      }
    }
  }

  /**
   * The network's invariants: the adjacency is closed and symmetric, the id
   * registry and the arena agree in both directions, and each line lists
   * distinct arena stations that carry that line's label, with every station
   * of the arena on its own line's list.
   */
  ghost predicate Registry(adj: seq<Station>, ids: map<string, nat>, lines: map<string, seq<nat>>) {
    && Closed(adj)
    && Symmetric(adj)
    && IdsAgree(adj, ids)
    && LinesAgree(adj, lines)
  }

  ghost predicate IdsAgree(adj: seq<Station>, ids: map<string, nat>) {
    && (forall id :: id in ids ==> ids[id] < |adj| && adj[ids[id]].id == id)
    && (forall i :: 0 <= i < |adj| ==> adj[i].id in ids && ids[adj[i].id] == i)
  }

  ghost predicate LinesAgree(adj: seq<Station>, lines: map<string, seq<nat>>) {
    && LinesInRange(adj, lines)
    && (forall l, k :: l in lines && 0 <= k < |lines[l]| ==> adj[lines[l][k]].line == l)
    && (forall l :: l in lines ==> Distinct(lines[l]))
    && (forall i {:trigger LineStations(lines, adj[i].line)} :: 0 <= i < |adj| ==> i in LineStations(lines, adj[i].line))
  }

  /** Registering a new id appends its station to the arena and to its line and keeps the invariants. */
  lemma NewStationKeepsRegistry(adj: seq<Station>, ids: map<string, nat>, lines: map<string, seq<nat>>,
                                id: string, name: string, line: string)
    requires Registry(adj, ids, lines) && id !in ids
    ensures Registry(adj + [Station(id, name, line, [])], ids[id := |adj|],
                     lines[line := LineStations(lines, line) + [|adj|]])
  {
    var st := Station(id, name, line, []);
    NewStationKeepsGraph(adj, st);
    NewStationKeepsIds(adj, ids, st);
    NewStationKeepsLines(adj, lines, st);
  }

  lemma NewStationKeepsIds(adj: seq<Station>, ids: map<string, nat>, st: Station)
    requires IdsAgree(adj, ids) && st.id !in ids
    ensures IdsAgree(adj + [st], ids[st.id := |adj|])
  {
  }

  lemma NewStationKeepsLines(adj: seq<Station>, lines: map<string, seq<nat>>, st: Station)
    requires LinesAgree(adj, lines)
    ensures LinesAgree(adj + [st], lines[st.line := LineStations(lines, st.line) + [|adj|]])
  {
    var n := |adj|;
    var onLine := LineStations(lines, st.line) + [n];
    LineStationsInRange(adj, lines, st.line);
    assert forall k :: 0 <= k < |onLine| - 1 ==> onLine[k] < n;
    var lines' := lines[st.line := onLine];
    var adj' := adj + [st];
    forall i | 0 <= i < |adj'| ensures i in LineStations(lines', adj'[i].line) {
      if i == n {
        assert onLine[|onLine| - 1] == n;
      } else {
        assert adj'[i] == adj[i];
        assert i in LineStations(lines, adj[i].line);
      }
    }
  }

  /** Changing only adjacency lists keeps the lines in agreement with the arena. */
  lemma SameLabelsKeepLines(adj: seq<Station>, adj': seq<Station>, lines: map<string, seq<nat>>)
    requires LinesAgree(adj, lines) && |adj'| == |adj|
    requires forall i :: 0 <= i < |adj| ==> adj'[i].line == adj[i].line
    ensures LinesAgree(adj', lines)
  {
  }

  /**
   * In a network that keeps its invariants, two stations on one line are both
   * found in that line's list, so the same-line estimate never falls back to 0
   * for a station missing from its line: it is the distance between their
   * positions times the line's average.
   */
  lemma RegisteredStationsFound(adj: seq<Station>, lines: map<string, seq<nat>>, c: nat, t: nat, l: seq<nat>)
    requires LinesAgree(adj, lines) && c < |adj| && t < |adj| && adj[c].line == adj[t].line
    requires l == LineStations(lines, adj[c].line)
    ensures IndexOf(l, c).Some? && IndexOf(l, t).Some?
    ensures SameLineEstimate(adj, lines, c, t) == LineMean(adj, l).Scale(Dist(IndexOf(l, c).value, IndexOf(l, t).value))
  {
    assert c in LineStations(lines, adj[c].line);
    assert t in LineStations(lines, adj[t].line);
  }

  class MetroNetwork {
    /** The station arena; a station's index is its identity. */
    var stations: seq<Station>
    /** Registry from a station's string id to its arena index. */
    var ids: map<string, nat>
    /** Per-line list of arena indices, in insertion order. */
    var lines: map<string, seq<nat>>

    ghost predicate Valid()
      reads this
    {
      Registry(stations, ids, lines)
    }

    constructor ()
      ensures Valid()
      ensures stations == [] && ids == map[] && lines == map[]
    {
      stations, ids, lines := [], map[], map[];
    }

    /** Station.add_neighbor: append (other, time) to the adjacency list of station s. */
    method AddNeighbor(s: nat, other: nat, time: nat)
      requires s < |stations|
      modifies this
      ensures stations == AddEdge(old(stations), s, other, time)
      ensures ids == old(ids) && lines == old(lines)
    {
      stations := stations[s := stations[s].(neighbors := stations[s].neighbors + [Edge(other, time)])];
    }

    /**
     * add_station: register a new station under id and append it to its line;
     * an id already registered leaves everything as it was.
     */
    method AddStation(id: string, name: string, line: string)
      requires Valid()
      modifies this
      ensures Valid()
      ensures id in old(ids) ==> stations == old(stations) && ids == old(ids) && lines == old(lines)
      ensures id !in old(ids) ==>
                && stations == old(stations) + [Station(id, name, line, [])]
                && ids == old(ids)[id := |old(stations)|]
                && lines == old(lines)[line := LineStations(old(lines), line) + [|old(stations)|]]
    {
      if id !in ids {
        NewStationKeepsRegistry(stations, ids, lines, id, name, line);
        var n := |stations|;
        stations := stations + [Station(id, name, line, [])];
        ids := ids[id := n];
        lines := lines[line := LineStations(lines, line) + [n]];
      }
    }

    /**
     * add_connection: both ids are looked up first, so an unknown id changes
     * nothing; otherwise each station gains an entry for the other.
     */
    method AddConnection(id1: string, id2: string, time: nat) returns (r: Outcome)
      requires Valid()
      modifies this
      ensures Valid()
      ensures ids == old(ids) && lines == old(lines)
      ensures id1 !in ids ==> r == UnknownStation(id1) && stations == old(stations)
      ensures id1 in ids && id2 !in ids ==> r == UnknownStation(id2) && stations == old(stations)
      ensures id1 in ids && id2 in ids ==>
                r == Pass && stations == Connect(old(stations), ids[id1], ids[id2], time)
    {
      if id1 !in ids {
        return UnknownStation(id1);
      }
      if id2 !in ids {
        return UnknownStation(id2);
      }
      var a, b := ids[id1], ids[id2];
      ghost var before := stations;
      AddNeighbor(a, b, time);
      AddNeighbor(b, a, time);
      assert stations == Connect(before, a, b, time);
      ConnectKeepsClosed(before, a, b, time);
      ConnectKeepsSymmetric(before, a, b, time);
      SameLabelsKeepLines(before, stations, lines);
      r := Pass;
    }

    /** get_line_average_time: the exact average of the line's consecutive-pair times. */
    method LineAverageTime(line: string) returns (m: Mean)
      requires LinesInRange(stations, lines)
      ensures m == LineMean(stations, LineStations(lines, line))
      ensures |LineStations(lines, line)| < 2 ==> m == Mean(0, 0)
    {
      var adj := stations;
      var l := LineStations(lines, line);
      LineStationsInRange(adj, lines, line);
      var segments := |l| - 1;
      if segments <= 0 {
        return Mean(0, 0);
      }
      var total := 0;
      var i := 0;
      while i < |l| - 1
        invariant 0 <= i <= |l| - 1
        invariant total == SegmentSum(adj, l, i)
      {
        var current := adj[l[i]];
        var next := l[i + 1];
        var j := 0;
        while j < |current.neighbors|
          invariant 0 <= j <= |current.neighbors|
          invariant total == SegmentSum(adj, l, i)
          invariant forall k :: 0 <= k < j ==> current.neighbors[k].to != next
        {
          if current.neighbors[j].to == next {
            assert FirstTime(current.neighbors, next) == current.neighbors[j].time;
            total := total + current.neighbors[j].time;
            break;
          }
          j := j + 1;
        }
        assert total == SegmentSum(adj, l, i) + FirstTime(current.neighbors, next);
        assert SegmentSum(adj, l, i + 1) == SegmentSum(adj, l, i) + FirstTime(current.neighbors, next);
        i := i + 1;
      }
      m := Mean(total, segments);
    }

    /**
     * heuristic: on the target's line, the station distance times the line
     * average; otherwise the least time-plus-estimate over the neighbours on the
     * target's line, 0 when there is none.  The recursive call is always on the
     * target's line, so it recurses at most one level deep.
     */
    method Heuristic(current: nat, target: nat) returns (h: nat)
      requires Closed(stations) && LinesInRange(stations, lines)
      requires current < |stations| && target < |stations|
      ensures h == Estimate(stations, lines, current, target)
      decreases if stations[current].line == stations[target].line then 0 else 1
    {
      var adj, ls := stations, lines;
      if adj[current].line == adj[target].line {
        var l := LineStations(ls, adj[current].line);
        var ci := IndexOf(l, current);
        var ti := IndexOf(l, target);
        if ci.None? || ti.None? {
          return 0;
        }
        var avg := LineAverageTime(adj[current].line);
        h := avg.Scale(Dist(ci.value, ti.value));
      } else {
        var es := adj[current].neighbors;
        var minTransfer: Option<nat> := None;
        var j := 0;
        while j < |es|
          invariant 0 <= j <= |es|
          invariant minTransfer == CrossLine(adj, ls, es[..j], target)
        {
          var e := es[j];
          CrossLineStep(adj, ls, es, j, target);
          if adj[e.to].line == adj[target].line {
            var rest := Heuristic(e.to, target);
            assert rest == SameLineEstimate(adj, ls, e.to, target);
            var transfer := e.time + rest;
            assert transfer == Via(adj, ls, e, target);
            if minTransfer.None? || transfer < minTransfer.value {
              minTransfer := Some(transfer);
            }
          }
          j := j + 1;
        }
        assert es[..j] == es;
        h := if minTransfer.None? then 0 else minTransfer.value;
      }
    }

    /**
     * find_min_transfers: breadth-first search.  Unknown ids give None; a
     * returned path runs from start to target without repeating a station and
     * no path has fewer connections; None means the target is unreachable.
     */
    method FindMinTransfers(startId: string, targetId: string) returns (r: Option<seq<nat>>)
      requires Valid()
      ensures startId !in ids || targetId !in ids ==> r == None
      ensures startId in ids && targetId in ids ==> FewestStops(stations, ids[startId], ids[targetId], r)
    {
      if startId !in ids || targetId !in ids {
        return None;
      }
      r := Search(stations, ids[startId], ids[targetId]);
    }

    /**
     * find_fastest_route: A* search over a heap ordered by (cost + estimate,
     * station index), with a best-cost table, stale entries skipped and a push
     * only on a strict improvement.  Unknown ids give None; a returned path runs
     * from start to target and its total is the sum of the times of its
     * connections; None means the target is unreachable.
     */
    method FindFastestRoute(startId: string, targetId: string) returns (r: Option<(seq<nat>, nat)>)
      requires Valid()
      ensures startId !in ids || targetId !in ids ==> r == None
      ensures startId in ids && targetId in ids ==> TimedRoute(stations, ids[startId], ids[targetId], r)
    {
      if startId !in ids || targetId !in ids {
        return None;
      }
      var adj := stations;
      var s, t := ids[startId], ids[targetId];
      var hs := Heuristic(s, t);
      var heap := [HeapEntry(0 + hs, s, [s], 0)];
      var best: map<nat, nat> := map[s := 0];
      AStarStart(adj, s, t, hs);
      while heap != []
        invariant Exploring(adj, s, t, best, heap)
        decreases Outside(|adj|, best.Keys), SumBest(|adj|, best), |heap|
      {
        var e, rest := PopMin(heap);
        AStarPop(adj, s, t, best, heap, e, rest);
        ghost var unset0, sum0, size0 := Outside(|adj|, best.Keys), SumBest(|adj|, best), |heap|;
        heap := rest;
        var current, path, total := e.node, e.path, e.total;
        if current == t {
          return Some((path, total));
        }
        if current in best && total > best[current] {
          continue;
        }
        var nbrs := adj[current].neighbors;
        var j := 0;
        while j < |nbrs|
          invariant j <= |nbrs|
          invariant Relaxing(adj, s, t, best, heap, current, path, total, j, unset0, sum0, size0)
        {
          var neighbor, time := nbrs[j].to, nbrs[j].time;
          var newTime := total + time;
          if neighbor !in best || newTime < best[neighbor] {
            ghost var best0 := best;
            best := best[neighbor := newTime];
            var newPath := path + [neighbor];
            var priority := Heuristic(neighbor, t);
            priority := newTime + priority;
            var entry := HeapEntry(priority, neighbor, newPath, newTime);
            AStarRelax(adj, s, t, best0, heap, current, path, total, j, unset0, sum0, size0, entry);
            heap := heap + [entry];
          } else {
            AStarSkip(adj, s, t, best, heap, current, path, total, j, unset0, sum0, size0);
          }
          j := j + 1;
        }
        AStarSettle(adj, s, t, best, heap, current, path, total, unset0, sum0, size0);
      }
      AStarExhausted(adj, s, t, best);
      return None;
    }
  }
}
