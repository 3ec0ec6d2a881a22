/**
 * The frontier of the fastest-route search: a binary heap of tuples
 * (priority, tie key, station, path, total time) ordered by (priority, tie key).
 * The heap is modelled as a sequence from which the least entry is extracted;
 * the tie key is the station's arena index.
 */
module PriorityQueue {

  datatype HeapEntry = HeapEntry(priority: nat, node: nat, path: seq<nat>, total: nat)

  /** The heap order: a comes out before b. */
  predicate Before(a: HeapEntry, b: HeapEntry) {
    a.priority < b.priority || (a.priority == b.priority && a.node < b.node)
  }

  /** heappop: remove and return an entry that no other entry comes before. */
  method PopMin(heap: seq<HeapEntry>) returns (e: HeapEntry, rest: seq<HeapEntry>)
    requires |heap| > 0
    ensures multiset(heap) == multiset(rest) + multiset{e} && |rest| == |heap| - 1
    ensures forall f :: f in heap ==> !Before(f, e)
    ensures forall f :: f in rest ==> f in heap
    ensures forall f :: f in heap && f != e ==> f in rest
  {
    var k := 0;
    var i := 1;
    while i < |heap|
      invariant k < i <= |heap|
      invariant forall j :: 0 <= j < i ==> !Before(heap[j], heap[k])
    {
      if Before(heap[i], heap[k]) {
        k := i;
      }
      i := i + 1;
    }
    e := heap[k];
    rest := heap[..k] + heap[k + 1..];
    forall f | f in heap ensures !Before(f, e) {
      var j :| 0 <= j < |heap| && heap[j] == f;
    }
    RemoveAt(heap, k, rest);
  }

  /** Taking out position k leaves every other entry, as often as before. */
  lemma RemoveAt(heap: seq<HeapEntry>, k: nat, rest: seq<HeapEntry>)
    requires k < |heap| && rest == heap[..k] + heap[k + 1..]
    ensures multiset(heap) == multiset(rest) + multiset{heap[k]} && |rest| == |heap| - 1
    ensures forall f :: f in rest ==> f in heap
    ensures forall f :: f in heap && f != heap[k] ==> f in rest
  {
    assert heap == heap[..k] + [heap[k]] + heap[k + 1..];
    forall f | f in rest ensures f in heap {
      assert multiset(rest)[f] > 0;
    }
    forall f | f in heap && f != heap[k] ensures f in rest {
      assert multiset(heap)[f] > 0;
    }
  }
}
