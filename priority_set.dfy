/**
 * `util/priority_set.py`: a `heapq` list of `(priority, item)` entries
 * paired with the set of items it holds, so that no item is queued twice.
 *
 * The list is kept in insertion order rather than in `heapq`'s binary-heap
 * layout; `Pop` finds the least entry by a scan instead. Because no two
 * entries share an item, the least entry is unique (`LeastIsUnique`), so
 * the entry popped is the one `heapq.heappop` returns.
 */
module PrioritySets {
  import opened Tuples

  /** A heap entry `(pri, d)`. */
  type Entry = Keyed

  /** The items that entries of `h` carry. */
  function Items(h: seq<Entry>): set<nat>
  {
    set e | e in h :: e.1
  }

  predicate DistinctItems(h: seq<Entry>)
  {
    forall i, j :: 0 <= i < j < |h| ==> h[i].1 != h[j].1
  }

  /** The heap after `add(e.1, e.0)`: unchanged when the item is queued already. */
  function AddEntry(h: seq<Entry>, e: Entry): seq<Entry>
  {
    if e.1 in Items(h) then h else h + [e]
  }

  /** The heap after one `add` per entry of `adds`, in order. */
  function Enqueue(h: seq<Entry>, adds: seq<Entry>): seq<Entry>
  {
    if adds == [] then h else AddEntry(Enqueue(h, adds[..|adds| - 1]), adds[|adds| - 1])
  }

  /** Entry `k` is the least of `h` in tuple order. */
  predicate IsLeast(h: seq<Entry>, k: int)
  {
    0 <= k < |h| && forall j :: 0 <= j < |h| ==> LexLe(h[k], h[j])
  }

  function RemoveAt(h: seq<Entry>, k: nat): seq<Entry>
    requires k < |h|
  {
    h[..k] + h[k + 1..]
  }

  lemma {:induction false} EnqueueConcat(h: seq<Entry>, a: seq<Entry>, b: seq<Entry>)
    ensures Enqueue(h, a + b) == Enqueue(Enqueue(h, a), b)
  {
    if b != [] {
      assert (a + b)[..|a + b| - 1] == a + b[..|b| - 1];
      EnqueueConcat(h, a, b[..|b| - 1]);
    } else {
      assert a + b == a;
    }
  }

  /** Queuing keeps items distinct, and the queued items are the old ones plus those of `adds`. */
  lemma {:induction false} EnqueueItems(h: seq<Entry>, adds: seq<Entry>)
    requires DistinctItems(h)
    ensures DistinctItems(Enqueue(h, adds))
    ensures Items(Enqueue(h, adds)) == Items(h) + set e | e in adds :: e.1
  {
    if adds != [] {
      var init, last := adds[..|adds| - 1], adds[|adds| - 1];
      EnqueueItems(h, init);
      assert adds == init + [last];
      var q := Enqueue(h, init);
      if last.1 !in Items(q) {
        assert Items(q + [last]) == Items(q) + {last.1};
      }
    }
  }

  /** Queuing only appends: what was queued before keeps its place. */
  lemma {:induction false} EnqueueExtends(h: seq<Entry>, adds: seq<Entry>)
    ensures |h| <= |Enqueue(h, adds)| && Enqueue(h, adds)[..|h|] == h
  {
    if adds != [] {
      EnqueueExtends(h, adds[..|adds| - 1]);
    }
  }

  /** Every queued entry is either old or one of `adds`. */
  lemma {:induction false} EnqueueFrom(h: seq<Entry>, adds: seq<Entry>)
    ensures forall e :: e in Enqueue(h, adds) ==> e in h || e in adds
  {
    if adds != [] {
      EnqueueFrom(h, adds[..|adds| - 1]);
    }
  }

  /** With distinct items the least entry is unique, so the pop is determined. */
  lemma LeastIsUnique(h: seq<Entry>, k1: int, k2: int)
    requires DistinctItems(h) && IsLeast(h, k1) && IsLeast(h, k2)
    ensures k1 == k2
  {
    LexAntisymmetric(h[k1], h[k2]);
  }

  lemma LexAntisymmetric(a: Entry, b: Entry)
    requires LexLe(a, b) && LexLe(b, a)
    ensures a == b
  {
  }

  lemma RemoveAtItems(h: seq<Entry>, k: nat)
    requires DistinctItems(h) && k < |h|
    ensures DistinctItems(RemoveAt(h, k))
    ensures Items(RemoveAt(h, k)) == Items(h) - {h[k].1}
  {
    var r := RemoveAt(h, k);
    assert forall i :: 0 <= i < |r| ==> r[i] == (if i < k then h[i] else h[i + 1]);
    forall x | x in Items(h) - {h[k].1} ensures x in Items(r) {
      var i :| 0 <= i < |h| && h[i].1 == x;
      assert i != k;
      if i < k { assert r[i] == h[i]; } else { assert r[i - 1] == h[i]; }
    }
    forall x | x in Items(r) ensures x in Items(h) - {h[k].1} {
      var i :| 0 <= i < |r| && r[i].1 == x;
      if i < k { assert r[i] == h[i]; } else { assert r[i] == h[i + 1]; }
    }
  }

  class PrioritySet {
    var heap: seq<Entry>
    var values: set<nat>

    /** `values` is exactly the set of queued items, and no item is queued twice. */
    ghost predicate Valid()
      reads this
    {
      values == Items(heap) && DistinctItems(heap)
    }

    constructor ()
      ensures Valid() && heap == [] && values == {}
    {
      heap := [];
      values := {};
    }

    /** `add(d, pri)`: a no-op when `d` is queued already, otherwise one more entry `(pri, d)`. */
    method Add(d: nat, pri: real)
      requires Valid()
      modifies this
      ensures Valid()
      ensures heap == AddEntry(old(heap), (pri, d))
      ensures d in old(values) ==> heap == old(heap) && values == old(values)
      ensures d !in old(values) ==> heap == old(heap) + [(pri, d)] && values == old(values) + {d}
    {
      if d !in values {
        heap := heap + [(pri, d)];
        values := values + {d};
      }
    }

    /**
     * `pop()`: removes the least entry in tuple order (lowest priority,
     * ties to the smaller item) and returns its item, which then may be
     * queued again. `heapq.heappop` raises on an empty heap, so callers
     * check `len` first.
     */
    method Pop() returns (d: nat)
      requires Valid() && |heap| > 0
      modifies this
      ensures Valid()
      ensures exists k :: IsLeast(old(heap), k) && d == old(heap)[k].1 && heap == RemoveAt(old(heap), k)
      ensures values == old(values) - {d}
      ensures |heap| == |old(heap)| - 1
    {
      var k := 0;
      for i := 1 to |heap|
        invariant 0 <= k < i
        invariant forall j :: 0 <= j < i ==> LexLe(heap[k], heap[j])
      {
        if LexLess(heap[i], heap[k]) {
          k := i;
        }
      }
      d := heap[k].1;
      RemoveAtItems(heap, k);
      heap := RemoveAt(heap, k);
      values := values - {d};
    }

    /** `__len__`: the number of queued entries. */
    method Len() returns (n: nat)
      ensures n == |heap|
    {
      n := |heap|;
    }
  }
}
