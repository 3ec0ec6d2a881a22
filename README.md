# Metro network route planner in Dafny

This project models the metro-network library in
`Abdullah_Cetin_metro_simulation.py` and proves properties of the model. The
network is a registry of stations. Each station has an id, a name, a line
label and an adjacency list of `(neighbour, travel time)` entries. Each line
keeps its stations in insertion order. On top of this the library answers two
route queries:

- `find_min_transfers`: a breadth-first search over the fewest connections.
- `find_fastest_route`: an A*-style search over the summed travel time. Its
  estimate comes from `heuristic`, which is built on the per-line average
  time `get_line_average_time`.

The model is imperative, like the source:

- `Metro.MetroNetwork` is a class. Its fields are the station arena, the
  id registry and the per-line station lists.
- Its methods update those fields in place.
- `FindFastestRoute` runs the A* search itself, with `while` loops over a
  heap and a best-cost table.
- `FindMinTransfers` checks the two ids and then calls the module-level
  method `BreadthFirst.Search`. That method runs the breadth-first `while`
  loop over a queue and a visited set, on the station arena it is given.

Every method is proved against pure definitions:

- `Graph`: paths, walks whose connection times add up to a cost, and
  reachability.
- `LineMetrics`: the line average and the estimate.
- `BreadthFirst` and `BestFirst`: what a search result promises, and the loop
  invariants, each kept by a lemma per loop step.
- `PriorityQueue`: extraction of the least heap entry.
- `SearchFacts`: the level argument of the breadth-first search and the
  termination measure of A*.

Modelling choices:

- **Station identity.** A station is identified by its position in the arena
  `stations: seq<Station>`. This replaces the object identity the source
  compares with `==` and keys with `id(...)`.
- **Registry and lines.** `ids` maps each registered string id to its arena
  position. `lines` maps a line label to its list of positions. A line with
  no entry reads as the empty list, which is what the source's
  `defaultdict(list)` returns.
- **Travel times** are natural numbers.
- **The line average** is kept exactly, as the pair `Mean(total, segments)`.
  The estimate multiplies the station distance by the total and
  floor-divides by the number of segments.

## Model

| member | source | states |
|---|---|---|
| Metro.MetroNetwork.constructor | Abdullah_Cetin_metro_simulation.py:19-21 | A new network has no stations, no ids and no lines, and satisfies the network invariant `Valid`. |
| Metro.MetroNetwork.AddNeighbor | Abdullah_Cetin_metro_simulation.py:14-15 | Station s's adjacency list gains `(other, time)` at its end. Every other station, the registry and the lines are unchanged. |
| Metro.MetroNetwork.AddStation | Abdullah_Cetin_metro_simulation.py:24-28 | An unregistered id adds exactly one station with no connections at the end of the arena. The id is mapped to it, and it is appended to its line's list. A registered id changes nothing, even when name or line differ. `Valid` is kept. |
| Metro.NewStationKeepsRegistry | Abdullah_Cetin_metro_simulation.py:24-28 | Registering a new station keeps every network invariant. The adjacency stays closed and symmetric. The registry and the arena stay in one-to-one agreement. Each line lists distinct stations that carry its label, and every station is listed on its own line. |
| Metro.MetroNetwork.AddConnection | Abdullah_Cetin_metro_simulation.py:31-35 | Both ids are looked up before anything is appended. An unknown first or second id is reported and nothing changes. Otherwise the stations become exactly `Connect` of the old stations, and `Valid` (with its symmetry) is kept. |
| Metro.Connect | Abdullah_Cetin_metro_simulation.py:31-35 | A connection appends `(b, t)` at a and `(a, t)` at b; for a self-connection both entries go to a. No other station and no existing entry changes. Calling it again adds a parallel entry. |
| Metro.ConnectKeepsSymmetric | Abdullah_Cetin_metro_simulation.py:31-35 | A connection keeps symmetric adjacency: station a lists `(b, t)` exactly as often as b lists `(a, t)`. |
| Metro.ConnectKeepsClosed | Abdullah_Cetin_metro_simulation.py:31-35 | A connection keeps every adjacency entry pointing at a registered station. |
| Graph.EdgeHasTwin | Abdullah_Cetin_metro_simulation.py:31-35 | In a symmetric network, every connection can be travelled back with the same time. |
| Metro.MetroNetwork.LineAverageTime | Abdullah_Cetin_metro_simulation.py:38-53 | The nested loops compute the line's mean `LineMean`. It is 0 for a line with fewer than two stations. Otherwise it is the sum, over consecutive pairs, of the time of the first entry of the earlier station that points to the next one, divided by the number of pairs. |
| LineMetrics.FirstTime | Abdullah_Cetin_metro_simulation.py:49-52 | The time of the first entry pointing to b, and 0 when no entry does, which is what the inner loop's `break` adds. |
| LineMetrics.LineRideCost | Abdullah_Cetin_metro_simulation.py:38-53 | When every consecutive pair on a line is connected, riding the line along its first entries is a weighted walk whose cost is the line total that the average divides. |
| LineMetrics.IndexOf | Abdullah_Cetin_metro_simulation.py:60-61 | The position of the first occurrence, or None exactly when the station is absent (the `ValueError` of `list.index`). |
| Metro.MetroNetwork.Heuristic | Abdullah_Cetin_metro_simulation.py:56-73 | The method, with its loop over neighbours and its recursive call, returns exactly the estimate `Estimate`. Its decreases clause shows that the recursion is at most one level deep. It asks only for closed adjacency and in-range line lists, so the branch for a station missing from its line stays in the model. |
| Metro.RegisteredStationsFound | Abdullah_Cetin_metro_simulation.py:57-65 | In a network that keeps its invariants, two stations on one line are both found in that line's list. So the `ValueError` branch never fires for them, and the estimate is their distance in the list times the line average. |
| LineMetrics.EstimateAtTarget | Abdullah_Cetin_metro_simulation.py:57-65 | The estimate from a station to itself is 0. |
| LineMetrics.EstimateSymmetricOnLine | Abdullah_Cetin_metro_simulation.py:57-65 | On one line, the estimate does not depend on the direction of travel. |
| LineMetrics.EstimateLineEnds | Abdullah_Cetin_metro_simulation.py:57-63 | Between the two ends of a line whose stations are listed once each, the estimate is the line's total time. |
| LineMetrics.CrossLineIsLeast | Abdullah_Cetin_metro_simulation.py:66-73 | The cross-line scan yields None (the source's infinity) exactly when no entry leads onto the target's line. Otherwise it yields the least `time + same-line estimate` over the entries that do, and one of them attains it. |
| LineMetrics.CrossLineStep | Abdullah_Cetin_metro_simulation.py:68-72 | One more neighbour updates the running minimum as the loop body does: only neighbours on the target's line count, and only a strictly smaller candidate replaces it. |
| LineMetrics.EstimateAcrossLines | Abdullah_Cetin_metro_simulation.py:66-73 | Across lines, the estimate is at most `time + estimate` through every neighbour on the target's line, and equals it for one of them. It is 0 when there is no such neighbour. |
| Metro.MetroNetwork.FindMinTransfers | Abdullah_Cetin_metro_simulation.py:76-97 | An unknown id gives None, before any traversal. Otherwise the result is that of `BreadthFirst.Search`: the same start and target give `[start]`; a returned path runs from start to target along adjacency entries with no repeated station and no shorter path exists; None is returned exactly when the target is unreachable. |
| BreadthFirst.Search | Abdullah_Cetin_metro_simulation.py:80-97 | The loop over the FIFO queue, with visited marked on enqueue, returns a result satisfying `FewestStops`, which is the promise stated in the row above, and it terminates. |
| BreadthFirst.BfsStart | Abdullah_Cetin_metro_simulation.py:83-84 | The first queue `[(start, [start])]` with `{start}` visited satisfies the search invariant. |
| BreadthFirst.BfsPop | Abdullah_Cetin_metro_simulation.py:86-89 | The head of the queue holds a path of fewest stations to its station. When that station is the target, the path is the result the search promises. |
| BreadthFirst.ExpandVisit | Abdullah_Cetin_metro_simulation.py:91-95 | Marking an unvisited neighbour and queueing it with the extended path keeps the invariant. That path has no repeated station and is shortest to the neighbour. |
| BreadthFirst.ExpandSkip | Abdullah_Cetin_metro_simulation.py:91-92 | Passing over an already visited neighbour keeps the invariant. |
| BreadthFirst.BfsSettle | Abdullah_Cetin_metro_simulation.py:91-95 | Once the neighbours of the dequeued station are visited, the search invariant holds again. The number of unvisited stations has dropped, or the queue has shrunk. |
| BreadthFirst.BfsExhausted | Abdullah_Cetin_metro_simulation.py:97 | An empty queue means the target is unreachable, so None is the promised result. |
| SearchFacts.UnvisitedIsFar | Abdullah_Cetin_metro_simulation.py:86-95 | An unvisited station needs more stations to be reached than the current level, because visited-on-enqueue keeps the queue level by level. |
| Graph.ClosedSetUnreachable | Abdullah_Cetin_metro_simulation.py:97 | A set that holds the start and every neighbour of its members holds every reachable station. |
| Metro.MetroNetwork.FindFastestRoute | Abdullah_Cetin_metro_simulation.py:100-131 | An unknown id gives None. Otherwise: the same start and target give `([start], 0)`; a returned `(path, total)` runs from start to target along adjacency entries whose times sum to total; None is returned exactly when the target is unreachable. The loop terminates. |
| PriorityQueue.PopMin | Abdullah_Cetin_metro_simulation.py:115 | `heappop` returns an entry that no other entry precedes in `(priority, station)` order. The rest is the heap without that one entry. |
| BestFirst.AStarStart | Abdullah_Cetin_metro_simulation.py:110-112 | The heap `[(0 + h(start), start, [start], 0)]` with `best_cost = {start: 0}` satisfies the search invariant. |
| BestFirst.AStarPop | Abdullah_Cetin_metro_simulation.py:114-121 | A popped entry is checked against the target first, and then it is a timed route from start to target. A stale entry leaves the invariant for the rest of the heap. Any other entry starts relaxation with its station's best cost equal to its total. |
| BestFirst.AStarRelax | Abdullah_Cetin_metro_simulation.py:123-129 | On a strict improvement, or a first cost, recording the new cost and pushing the extended path keeps the invariant. The pushed entry is a walk whose times sum to its total, and the termination measure has dropped. |
| BestFirst.AStarSkip | Abdullah_Cetin_metro_simulation.py:123-125 | Without an improvement nothing is pushed and the invariant is kept. |
| BestFirst.AStarSettle | Abdullah_Cetin_metro_simulation.py:114-129 | After relaxing all neighbours the outer invariant holds again, and the measure is smaller than before the pop. The measure orders, in turn: stations without a recorded cost, the sum of recorded costs, and the heap size. |
| BestFirst.AStarExhausted | Abdullah_Cetin_metro_simulation.py:131 | An empty heap means the target is unreachable, so None is the promised result. |
| SearchFacts.SumBestLower | Abdullah_Cetin_metro_simulation.py:125-126 | Lowering one recorded best cost lowers the sum of best costs by exactly the difference. |
| SearchFacts.OutsideShrinks | Abdullah_Cetin_metro_simulation.py:125-126 | Recording a cost for a station without one leaves strictly fewer stations without a cost. |
| Graph.WalkExtend | Abdullah_Cetin_metro_simulation.py:124-127 | Following an adjacency entry from the end of a walk adds the entry's time to the walk's cost. |
| Graph.WalkIsPath | Abdullah_Cetin_metro_simulation.py:117-118 | Every weighted walk is a path along adjacency entries. |

## Left out

- The `__main__` block (example network and console output) is not part of this model, and no concrete example network is restated.
- LineMetrics.LineMean: the source divides with `/` to a float, and `heuristic` truncates with `int(...)`. The model keeps the average as an exact fraction and floor-divides `distance * total` by the number of segments. Float rounding can make the source's value differ by one in edge cases.
- Metro.MetroNetwork.AddConnection: the source raises a lookup error for an unknown id. The model returns `UnknownStation(id)` and leaves the network unchanged, which matches the source because both lookups happen before any append.
- Metro.MetroNetwork.AddNeighbor: on its own it does not keep symmetry, just as in the source. Only the pair of calls inside `AddConnection` does.
- Metro.MetroNetwork.FindMinTransfers: the source returns None both for an unknown id and for an unreachable target. So a caller cannot tell an unknown id from an unreachable target, and the model keeps this.
- Metro.MetroNetwork.FindFastestRoute: A* optimality (a least total time) is not claimed. The estimate is not a lower bound on the remaining time, for two reasons. On one line it is the station distance times the line's average, which exceeds the real time wherever the segments in between are shorter than the average. Across lines it scans only the neighbours already on the target's line, so it ignores routes that need more than one transfer. The target check runs before the stale check, as in the source.
- PriorityQueue.PopMin: the heap's array layout is not modelled. The heap is a sequence, and the least `(priority, station)` entry is taken out. Python's fallback comparison of the later tuple fields is not modelled. The tie key is the station's arena position instead of its memory address.
- Travel times are natural numbers. The source does not check for negative times, which its callers must avoid. The termination of `find_fastest_route` relies on this: with a time of -1 on a connection between a and b and an unreachable target, each expansion of a or b lowers the other's best cost by one and pushes it again (source :124-129), so the search never returns.
- Reading an unknown line in the source inserts an empty list into `lines` (a `defaultdict` side effect). The model reads it as the empty list without inserting, which changes no result.
- Station names and ids are kept as strings without any normalisation.
