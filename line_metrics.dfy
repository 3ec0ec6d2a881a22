/**
 * Line metrics and the remaining-time estimate used to guide the fastest-route
 * search, as pure functions of the station arena and the per-line station lists.
 *
 * The source computes the line average as a float and truncates the estimate
 * with int(...); here the average is kept exact as a pair (total, segments) and
 * the estimate is the floor of d * total / segments, which is what int(...)
 * gives for non-negative values when no rounding intervenes.
 */
module LineMetrics {
  import opened Graph

  /** The stations of a line in insertion order; a line never registered has none. */
  function LineStations(lines: map<string, seq<nat>>, line: string): seq<nat> {
    if line in lines then lines[line] else []
  }

  /** Every station listed on a line is in the arena. */
  ghost predicate LinesInRange(adj: seq<Station>, lines: map<string, seq<nat>>) {
    forall l, k :: l in lines && 0 <= k < |lines[l]| ==> lines[l][k] < |adj|
  }

  lemma LineStationsInRange(adj: seq<Station>, lines: map<string, seq<nat>>, line: string)
    requires LinesInRange(adj, lines)
    ensures forall k :: 0 <= k < |LineStations(lines, line)| ==> LineStations(lines, line)[k] < |adj|
  {
  }

  /** Time of the first adjacency entry in es that points to b; 0 when none does. */
  function FirstTime(es: seq<Edge>, b: nat): (r: nat)
    ensures (forall k :: 0 <= k < |es| ==> es[k].to != b) ==> r == 0
    ensures forall k :: 0 <= k < |es| && es[k].to == b && (forall j :: 0 <= j < k ==> es[j].to != b)
                        ==> r == es[k].time
  {
    if es == [] then 0
    else if es[0].to == b then es[0].time
    else
      var r := FirstTime(es[1..], b);
      assert forall k :: 1 <= k < |es| ==> es[k] == es[1..][k - 1];
      r
  }

  /** Sum of the first-entry times of the consecutive pairs (l[j], l[j+1]) for j < i. */
  function SegmentSum(adj: seq<Station>, l: seq<nat>, i: nat): nat
    requires i < |l|
    requires forall k :: 0 <= k < |l| ==> l[k] < |adj|
  {
    if i == 0 then 0
    else SegmentSum(adj, l, i - 1) + FirstTime(adj[l[i - 1]].neighbors, l[i])
  }

  /** An exact average: total / segments, where a line without segments averages 0. */
  datatype Mean = Mean(total: nat, segments: nat) {
    /** int(d * average) for a non-negative station distance d. */
    function Scale(d: nat): nat {
      if segments == 0 then 0 else (d * total) / segments
    }
  }

  /** The average time between consecutive stations of the line l. */
  function LineMean(adj: seq<Station>, l: seq<nat>): Mean
    requires forall k :: 0 <= k < |l| ==> l[k] < |adj|
  {
    if |l| < 2 then Mean(0, 0) else Mean(SegmentSum(adj, l, |l| - 1), |l| - 1)
  }

  /** Position of the first occurrence of x in l; None when x is absent (list.index raising ValueError). */
  function IndexOf(l: seq<nat>, x: nat): (r: Option<nat>)
    ensures r.None? <==> x !in l
    ensures r.Some? ==> r.value < |l| && l[r.value] == x && forall j :: 0 <= j < r.value ==> l[j] != x
  {
    if l == [] then None
    else if l[0] == x then Some(0)
    else
      match IndexOf(l[1..], x)
      case None => None
      case Some(i) => Some(i + 1)
  }

  function Dist(i: nat, j: nat): nat {
    if i < j then j - i else i - j
  }

  /** The same-line estimate: station distance along c's line times the line's average time. */
  function SameLineEstimate(adj: seq<Station>, lines: map<string, seq<nat>>, c: nat, t: nat): nat
    requires c < |adj| && LinesInRange(adj, lines)
  {
    var l := LineStations(lines, adj[c].line);
    match (IndexOf(l, c), IndexOf(l, t))
    case (Some(i), Some(j)) => LineMean(adj, l).Scale(Dist(i, j))
    case _ => 0
  }

  /** Estimate through one adjacency entry e: its time plus the same-line estimate from its station. */
  function Via(adj: seq<Station>, lines: map<string, seq<nat>>, e: Edge, t: nat): nat
    requires e.to < |adj| && LinesInRange(adj, lines)
  {
    e.time + SameLineEstimate(adj, lines, e.to, t)
  }

  /**
   * The cross-line estimate over the entries es: the least Via over the entries
   * whose station is on t's line, or None (the source's infinity) when there is none.
   */
  function CrossLine(adj: seq<Station>, lines: map<string, seq<nat>>, es: seq<Edge>, t: nat): Option<nat>
    requires t < |adj| && LinesInRange(adj, lines)
    requires forall k :: 0 <= k < |es| ==> es[k].to < |adj|
  {
    if es == [] then None
    else
      var rest := CrossLine(adj, lines, es[..|es| - 1], t);
      var e := es[|es| - 1];
      if adj[e.to].line != adj[t].line then rest
      else
        var c := Via(adj, lines, e, t);
        match rest
        case None => Some(c)
        case Some(m) => if c < m then Some(c) else Some(m)
  }

  /**
   * CrossLine is None exactly when no entry leads onto t's line, and otherwise
   * the least Via over the entries that do, attained by one of them.
   */
  lemma {:induction false} CrossLineIsLeast(adj: seq<Station>, lines: map<string, seq<nat>>, es: seq<Edge>, t: nat)
    requires t < |adj| && LinesInRange(adj, lines)
    requires forall k :: 0 <= k < |es| ==> es[k].to < |adj|
    ensures CrossLine(adj, lines, es, t).None? <==> forall k :: 0 <= k < |es| ==> adj[es[k].to].line != adj[t].line
    ensures CrossLine(adj, lines, es, t).Some? ==>
              exists k :: 0 <= k < |es| && adj[es[k].to].line == adj[t].line
                          && CrossLine(adj, lines, es, t).value == Via(adj, lines, es[k], t)
    ensures CrossLine(adj, lines, es, t).Some? ==>
              forall k :: 0 <= k < |es| && adj[es[k].to].line == adj[t].line
                          ==> CrossLine(adj, lines, es, t).value <= Via(adj, lines, es[k], t)
  {
    if es != [] {
      var init := es[..|es| - 1];
      assert forall k :: 0 <= k < |init| ==> init[k] == es[k];
      CrossLineIsLeast(adj, lines, init, t);
    }
  }

  /** One more entry: CrossLine over es[..j+1] from CrossLine over es[..j]. */
  lemma CrossLineStep(adj: seq<Station>, lines: map<string, seq<nat>>, es: seq<Edge>, j: nat, t: nat)
    requires t < |adj| && LinesInRange(adj, lines)
    requires forall k :: 0 <= k < |es| ==> es[k].to < |adj|
    requires j < |es|
    ensures CrossLine(adj, lines, es[..j + 1], t) ==
              if adj[es[j].to].line != adj[t].line then CrossLine(adj, lines, es[..j], t)
              else match CrossLine(adj, lines, es[..j], t)
                   case None => Some(Via(adj, lines, es[j], t))
                   case Some(m) => if Via(adj, lines, es[j], t) < m then Some(Via(adj, lines, es[j], t)) else Some(m)
  {
    assert es[..j + 1][..j] == es[..j];
  }

  /** The heuristic: the same-line estimate on one line, the one-hop cross-line estimate otherwise. */
  function Estimate(adj: seq<Station>, lines: map<string, seq<nat>>, c: nat, t: nat): nat
    requires c < |adj| && t < |adj| && Closed(adj) && LinesInRange(adj, lines)
  {
    if adj[c].line == adj[t].line then SameLineEstimate(adj, lines, c, t)
    else
      match CrossLine(adj, lines, adj[c].neighbors, t)
      case None => 0
      case Some(m) => m
  }

  /** The estimate from a station to itself is 0. */
  lemma EstimateAtTarget(adj: seq<Station>, lines: map<string, seq<nat>>, t: nat)
    requires t < |adj| && Closed(adj) && LinesInRange(adj, lines)
    ensures Estimate(adj, lines, t, t) == 0
  {
  }

  /**
   * Across lines, the estimate is the least (time + estimate from the neighbour)
   * over the neighbours on the target's line, and 0 when there is none; the
   * estimate from such a neighbour is a same-line estimate, so the recursion is
   * one level deep.
   */
  lemma EstimateAcrossLines(adj: seq<Station>, lines: map<string, seq<nat>>, c: nat, t: nat)
    requires c < |adj| && t < |adj| && Closed(adj) && LinesInRange(adj, lines)
    requires adj[c].line != adj[t].line
    ensures forall k :: 0 <= k < |adj[c].neighbors| && adj[adj[c].neighbors[k].to].line == adj[t].line ==>
              Estimate(adj, lines, c, t)
                <= adj[c].neighbors[k].time + Estimate(adj, lines, adj[c].neighbors[k].to, t)
    ensures (exists k :: 0 <= k < |adj[c].neighbors| && adj[adj[c].neighbors[k].to].line == adj[t].line)
            ==> exists k :: 0 <= k < |adj[c].neighbors| && adj[adj[c].neighbors[k].to].line == adj[t].line
                            && Estimate(adj, lines, c, t)
                               == adj[c].neighbors[k].time + Estimate(adj, lines, adj[c].neighbors[k].to, t)
    ensures (forall k :: 0 <= k < |adj[c].neighbors| ==> adj[adj[c].neighbors[k].to].line != adj[t].line)
            ==> Estimate(adj, lines, c, t) == 0
  {
    var es := adj[c].neighbors;
    CrossLineIsLeast(adj, lines, es, t);
    forall k | 0 <= k < |es| && adj[es[k].to].line == adj[t].line
      ensures Estimate(adj, lines, es[k].to, t) == SameLineEstimate(adj, lines, es[k].to, t)
    {
    }
  }

  /** Along a line, the estimate does not depend on the direction of travel. */
  lemma EstimateSymmetricOnLine(adj: seq<Station>, lines: map<string, seq<nat>>, a: nat, b: nat)
    requires a < |adj| && b < |adj| && Closed(adj) && LinesInRange(adj, lines)
    requires adj[a].line == adj[b].line
    ensures Estimate(adj, lines, a, b) == Estimate(adj, lines, b, a)
  {
  }

  /**
   * Riding a line from its first to its last station, taking the first listed
   * connection between each consecutive pair, is a walk whose cost is the
   * line's total time, provided every consecutive pair is connected.
   */
  lemma {:induction false} LineRideCost(adj: seq<Station>, l: seq<nat>, i: nat)
    requires i < |l|
    requires forall k :: 0 <= k < |l| ==> l[k] < |adj|
    requires forall k :: 0 <= k < i ==> Adjacent(adj, l[k], l[k + 1])
    ensures IsWeightedWalk(adj, l[..i + 1], SegmentSum(adj, l, i))
  {
    if i == 0 {
      assert l[..1] == [l[0]];
    } else {
      LineRideCost(adj, l, i - 1);
      var a, b := l[i - 1], l[i];
      var es := adj[a].neighbors;
      assert Adjacent(adj, a, b);
      var k :| 0 <= k < |es| && es[k].to == b;
      var first := FirstMatch(es, b, k);
      assert FirstTime(es, b) == es[first].time;
      RideStep(adj, l, i, first);
    }
  }

  /** One more station of the line: the walk grows by the first entry to it. */
  lemma RideStep(adj: seq<Station>, l: seq<nat>, i: nat, first: nat)
    requires 0 < i < |l| && forall k :: 0 <= k < |l| ==> l[k] < |adj|
    requires first < |adj[l[i - 1]].neighbors| && adj[l[i - 1]].neighbors[first].to == l[i]
    requires FirstTime(adj[l[i - 1]].neighbors, l[i]) == adj[l[i - 1]].neighbors[first].time
    requires IsWeightedWalk(adj, l[..i], SegmentSum(adj, l, i - 1))
    ensures IsWeightedWalk(adj, l[..i + 1], SegmentSum(adj, l, i))
  {
    var p := l[..i + 1];
    assert p[..|p| - 1] == l[..i];
    WalkStep(adj, p, SegmentSum(adj, l, i - 1), SegmentSum(adj, l, i), l[i - 1], l[i], first);
  }

  /** Given some entry of es pointing to b, the first such entry. */
  lemma {:induction false} FirstMatch(es: seq<Edge>, b: nat, k: nat) returns (f: nat)
    requires k < |es| && es[k].to == b
    ensures f <= k && es[f].to == b && forall j :: 0 <= j < f ==> es[j].to != b
  {
    f := k;
    while f > 0 && exists j :: 0 <= j < f && es[j].to == b
      invariant f <= k && es[f].to == b
      decreases f
    {
      var j :| 0 <= j < f && es[j].to == b;
      f := j;
    }
  }

  /**
   * Between the two ends of a line whose stations are listed once each, the
   * same-line estimate equals the line's total time.
   */
  lemma EstimateLineEnds(adj: seq<Station>, lines: map<string, seq<nat>>, line: string)
    requires Closed(adj) && LinesInRange(adj, lines)
    requires line in lines && |lines[line]| >= 2 && Distinct(lines[line])
    requires forall k :: 0 <= k < |lines[line]| ==> adj[lines[line][k]].line == line
    ensures Estimate(adj, lines, lines[line][0], lines[line][|lines[line]| - 1])
            == LineMean(adj, lines[line]).total
  {
    var l := lines[line];
    var n := |l|;
    var first, last := l[0], l[n - 1];
    assert IndexOf(l, first) == Some(0);
    var j := IndexOf(l, last);
    assert j == Some(n - 1);
    var m := LineMean(adj, l);
    assert m.segments == n - 1;
    assert (n - 1) * m.total / (n - 1) == m.total by {
      DivCancel(m.total, n - 1);
    }
  }

  /** Floor division by d undoes multiplication by d. */
  lemma DivCancel(x: nat, d: nat)
    requires d > 0
    ensures (d * x) / d == x
  {
    DivUnique(d * x, d, x, 0);
  }

  /** The quotient is the only q with n == d * q + r and 0 <= r < d. */
  lemma DivUnique(n: nat, d: nat, q: nat, r: nat)
    requires d > 0 && 0 <= r < d && n == d * q + r
    ensures n / d == q
  {
    var q', r' := n / d, n % d;
    assert n == d * q' + r' && 0 <= r' < d;
    if q > q' {
      assert d * q == d * q' + d * (q - q');
      MulAtLeast(d, q - q');
    } else if q < q' {
      assert d * q' == d * q + d * (q' - q);
      MulAtLeast(d, q' - q);
    }
  }

  lemma {:induction false} MulAtLeast(d: nat, k: nat)
    requires k >= 1
    ensures d * k >= d
  {
    if k > 1 {
      MulAtLeast(d, k - 1);
      assert d * k == d * (k - 1) + d;
    }
  }
}
