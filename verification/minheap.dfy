/**
 * The planner's `MinHeap<Cost, T>`, kept abstract: a bag of `(cost, item)`
 * entries whose `pop` returns an entry of least cost (ties in no promised order).
 */
module MinHeap {
  import opened Wrappers

  datatype Heap<T> = Heap(entries: seq<(nat, T)>)

  function Empty<T>(): (h: Heap<T>)
    ensures |h.entries| == 0
  {
    Heap([])
  }

  /** The items held, whatever their costs. */
  function Items<T>(h: Heap<T>): set<T>
  {
    set e | e in h.entries :: e.1
  }

  function Push<T>(h: Heap<T>, cost: nat, item: T): (r: Heap<T>)
    ensures multiset(r.entries) == multiset(h.entries) + multiset{(cost, item)}
    ensures forall e | e in r.entries :: e in h.entries || e == (cost, item)
    ensures (cost, item) in r.entries && forall e | e in h.entries :: e in r.entries
    ensures Items(r) == Items(h) + {item}
  {
    Heap(h.entries + [(cost, item)])
  }

  /** An index of an entry of least cost. */
  function MinIndex<T>(s: seq<(nat, T)>): (i: nat)
    requires |s| > 0
    ensures i < |s| && forall j | 0 <= j < |s| :: s[i].0 <= s[j].0
  {
    if |s| == 1 then 0
    else
      var k := MinIndex(s[1..]) + 1;
      if s[0].0 <= s[k].0 then 0 else k
  }

  /** `pop`: `None` on an empty heap, else a cheapest entry and the heap without it. */
  function Pop<T>(h: Heap<T>): (r: Option<((nat, T), Heap<T>)>)
    ensures r.None? <==> |h.entries| == 0
    ensures r.Some? ==>
      var (e, rest) := r.value;
      e in h.entries &&
      (forall f | f in h.entries :: e.0 <= f.0) &&
      multiset(rest.entries) + multiset{e} == multiset(h.entries) &&
      |rest.entries| + 1 == |h.entries| &&
      (forall f | f in h.entries :: f in rest.entries || f == e) &&
      (forall f | f in rest.entries :: f in h.entries) &&
      Items(h) == Items(rest) + {e.1}
  {
    if |h.entries| == 0 then None
    else
      var i := MinIndex(h.entries);
      var s := h.entries;
      assert s == s[..i] + [s[i]] + s[i+1..];
      Some((s[i], Heap(s[..i] + s[i+1..])))
  }
}
