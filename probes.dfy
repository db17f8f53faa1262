/**
 * What the three queries share: the exact mesh probe `closestIntersection`
 * is a parameter `probe(i)` giving the hit point or `None`, the hit
 * distance is compared squared, and a query answers with a mesh index and
 * its hit point.
 */
module Probes {
  import opened Common
  import opened Geometry
  import opened Tuples

  /** `list(range(n))`: the indices of a mesh list of length `n`. */
  function Range(n: nat): (r: seq<nat>)
    ensures |r| == n && forall k :: 0 <= k < n ==> r[k] == k
  {
    seq(n, k requires 0 <= k < n => k)
  }

  /** A query's answer: the mesh index and the hit point. */
  datatype Hit = Hit(index: nat, point: Vec3)

  /**
   * The hits recorded while probing `items` in order: `(squared distance
   * from the origin to the hit point, index)` for every index that is hit.
   */
  function Recorded(items: seq<nat>, probe: nat -> Option<Vec3>, origin: Vec3): seq<Keyed>
  {
    if items == [] then []
    else
      var last := items[|items| - 1];
      Recorded(items[..|items| - 1], probe, origin)
      + (if probe(last).Some? then [(DistSq(origin, probe(last).value), last)] else [])
  }

  lemma RecordedAppend(items: seq<nat>, x: nat, probe: nat -> Option<Vec3>, origin: Vec3)
    ensures Recorded(items + [x], probe, origin) ==
            Recorded(items, probe, origin)
            + (if probe(x).Some? then [(DistSq(origin, probe(x).value), x)] else [])
  {
    assert (items + [x])[..|items|] == items;
  }

  /**
   * A recorded entry is exactly a probed index that is hit, paired with
   * its squared hit distance, and the entries keep the probing order.
   */
  lemma {:induction false} RecordedMembers(items: seq<nat>, probe: nat -> Option<Vec3>, origin: Vec3)
    ensures forall h :: h in Recorded(items, probe, origin) <==>
              h.1 in items && probe(h.1).Some? && h.0 == DistSq(origin, probe(h.1).value)
    ensures |Recorded(items, probe, origin)| <= |items|
  {
    if items != [] {
      var init, last := items[..|items| - 1], items[|items| - 1];
      RecordedMembers(init, probe, origin);
      assert items == init + [last];
      forall h ensures h in Recorded(items, probe, origin) <==>
                       h.1 in items && probe(h.1).Some? && h.0 == DistSq(origin, probe(h.1).value)
      {
        if h.1 in items && h.1 != last {
          var k :| 0 <= k < |items| && items[k] == h.1;
          assert init[k] == h.1;
        }
      }
    }
  }

  /** The distances of recorded hits, in order. */
  function Distances(hits: seq<Keyed>): (ds: seq<real>)
    ensures |ds| == |hits| && forall k :: 0 <= k < |hits| ==> ds[k] == hits[k].0
  {
    seq(|hits|, k requires 0 <= k < |hits| => hits[k].0)
  }

  /**
   * The first least recorded hit belongs to a probed index that is hit, at
   * its own hit distance, and no probed index is hit nearer.
   */
  lemma FirstMinIsNearest(items: seq<nat>, probe: nat -> Option<Vec3>, origin: Vec3, k: int)
    requires IsFirstMin(Distances(Recorded(items, probe, origin)), k)
    ensures var h := Recorded(items, probe, origin)[k];
            && h.1 in items && probe(h.1).Some? && h.0 == DistSq(origin, probe(h.1).value)
            && forall i :: i in items && probe(i).Some? ==> h.0 <= DistSq(origin, probe(i).value)
  {
    var hits := Recorded(items, probe, origin);
    RecordedMembers(items, probe, origin);
    assert hits[k] in hits;
    forall i | i in items && probe(i).Some? ensures hits[k].0 <= DistSq(origin, probe(i).value) {
      var e := (DistSq(origin, probe(i).value), i);
      assert e in hits;
      var j :| 0 <= j < |hits| && hits[j] == e;
      assert Distances(hits)[k] <= Distances(hits)[j];
    }
  }

  /** `ds[k]` is a least value and no earlier entry reaches it. */
  predicate IsFirstMin(ds: seq<real>, k: int)
  {
    0 <= k < |ds|
    && (forall j :: 0 <= j < |ds| ==> ds[k] <= ds[j])
    && (forall j :: 0 <= j < k ==> ds[j] > ds[k])
  }

  lemma FirstMinUnique(ds: seq<real>, k1: int, k2: int)
    requires IsFirstMin(ds, k1) && IsFirstMin(ds, k2)
    ensures k1 == k2
  {
    assert !(ds[k1] > ds[k2]) && !(ds[k2] > ds[k1]);
  }

  /**
   * `min(range(len(ds)), key=ds.__getitem__)`, equally `min(d, key=d.get)`
   * over a dict listed in insertion order: `min` keeps the first of equal
   * values, replacing its candidate only on a strictly smaller one.
   */
  method FirstMinIndex(ds: seq<real>) returns (k: nat)
    requires |ds| > 0
    ensures IsFirstMin(ds, k)
  {
    k := 0;
    for j := 1 to |ds|
      invariant IsFirstMin(ds[..j], k)
    {
      if ds[j] < ds[k] {
        k := j;
      }
    }
    assert ds[..|ds|] == ds;
  }
}
