/**
 * `core/acceleration_structures/bvh.py`: a bounding volume hierarchy built
 * by median splits along the longest axis, a traversal that queues the
 * leaves whose boxes the ray hits, and a query that probes queued meshes
 * until `sample_count` of them report a hit.
 *
 * Mesh `i`'s world-space box is `boxOf(i)` (what `get_bbox_at_index`
 * returns; its cache is transparent, see `MeshLists`), and the exact mesh
 * probe is `probe(i)`: the hit point, or `None`.
 */
module AccelBvh {
  import opened Common
  import opened Geometry
  import opened Tuples
  import opened Rays
  import opened PrioritySets
  import opened Probes

  /** A node holds either leaf indices or two children, never both. */
  datatype BVHNode = Leaf(box: Box, indices: seq<nat>) | Inner(box: Box, left: BVHNode, right: BVHNode)

  /** A node is left a leaf once it holds at most this many indices. */
  const LeafSize: nat := 4

  /**
   * `_find_longest_axis`: an axis of greatest extent; `list.index(max(...))`
   * picks the first of equally long axes.
   */
  function LongestAxis(b: Box): (a: Axis)
    ensures forall k: Axis :: Extent(b, k) <= Extent(b, a)
    ensures forall k: Axis :: k < a ==> Extent(b, k) < Extent(b, a)
  {
    var ex, ey, ez := Extent(b, 0), Extent(b, 1), Extent(b, 2);
    if ex >= ey && ex >= ez then 0 else if ey >= ez then 1 else 2
  }

  /** The sort key of mesh `i` along `axis`: `min[axis] + max[axis]`, twice its box centre. */
  function SortKey(boxOf: nat -> Box, axis: Axis, i: nat): real
  {
    Coord(boxOf(i).lo, axis) + Coord(boxOf(i).hi, axis)
  }

  function Positions(indices: seq<nat>, boxOf: nat -> Box, axis: Axis): (r: seq<real>)
    ensures |r| == |indices|
  {
    seq(|indices|, k requires 0 <= k < |indices| => SortKey(boxOf, axis, indices[k]))
  }

  /** `[x for _, x in sorted(zip(positions, indices))]`. */
  function MedianOrder(indices: seq<nat>, boxOf: nat -> Box, axis: Axis): seq<nat>
  {
    Seconds(Sorted(Zip(Positions(indices, boxOf, axis), indices)))
  }

  /** Every pair of `z` carries its index's sort key, and so does every pair of a permutation of `z`. */
  lemma KeyedPairs(z: seq<Keyed>, s: seq<Keyed>, boxOf: nat -> Box, axis: Axis)
    requires forall k :: 0 <= k < |z| ==> z[k].0 == SortKey(boxOf, axis, z[k].1)
    requires multiset(s) == multiset(z)
    ensures forall k :: 0 <= k < |s| ==> s[k].0 == SortKey(boxOf, axis, s[k].1)
  {
    forall k | 0 <= k < |s| ensures s[k].0 == SortKey(boxOf, axis, s[k].1) {
      assert s[k] in multiset(z);
      var j :| 0 <= j < |z| && z[j] == s[k];
    }
  }

  /** Sorted `(key, index)` pairs list their indices in ascending key order. */
  lemma KeysAscending(s: seq<Keyed>, boxOf: nat -> Box, axis: Axis)
    requires SortedLex(s)
    requires forall k :: 0 <= k < |s| ==> s[k].0 == SortKey(boxOf, axis, s[k].1)
    ensures var m := Seconds(s);
            forall i, j :: 0 <= i < j < |m| ==> SortKey(boxOf, axis, m[i]) <= SortKey(boxOf, axis, m[j])
  {
    var m := Seconds(s);
    forall i, j | 0 <= i < j < |m| ensures SortKey(boxOf, axis, m[i]) <= SortKey(boxOf, axis, m[j]) {
      assert LexLe(s[i], s[j]);
    }
  }

  /** The median order is a permutation of the indices, ascending by sort key. */
  lemma MedianOrderSorted(indices: seq<nat>, boxOf: nat -> Box, axis: Axis)
    ensures multiset(MedianOrder(indices, boxOf, axis)) == multiset(indices)
    ensures |MedianOrder(indices, boxOf, axis)| == |indices|
    ensures var m := MedianOrder(indices, boxOf, axis);
            forall i, j :: 0 <= i < j < |m| ==> SortKey(boxOf, axis, m[i]) <= SortKey(boxOf, axis, m[j])
  {
    var z := Zip(Positions(indices, boxOf, axis), indices);
    var s := Sorted(z);
    SortedSeconds(z);
    assert Seconds(z) == indices;
    var m := Seconds(s);
    assert |m| == |multiset(m)| == |multiset(indices)| == |indices|;
    KeyedPairs(z, s, boxOf, axis);
    KeysAscending(s, boxOf, axis);
  }

  /** The box a default MBoundingBox ends with once expanded by every member's box. */
  function Hull(s: seq<nat>, boxOf: nat -> Box): Box
    requires |s| > 0
  {
    ExpandOver(None, s, boxOf).value
  }

  /** `_recursive_build`, as the tree it returns. */
  function Build(indices: seq<nat>, box: Box, depth: int, boxOf: nat -> Box): BVHNode
    decreases |indices|
  {
    if depth == 0 || |indices| <= LeafSize then Leaf(box, indices)
    else
      var sorted := MedianOrder(indices, boxOf, LongestAxis(box));
      MedianOrderSorted(indices, boxOf, LongestAxis(box));
      var mid := |sorted| / 2;
      var l, r := sorted[..mid], sorted[mid..];
      Inner(box, Build(l, Hull(l, boxOf), depth - 1, boxOf), Build(r, Hull(r, boxOf), depth - 1, boxOf))
  }

  /** One unfolding of `Build` at a split. */
  lemma BuildSplits(indices: seq<nat>, box: Box, depth: int, boxOf: nat -> Box)
    requires !(depth == 0 || |indices| <= LeafSize)
    ensures var sorted := MedianOrder(indices, boxOf, LongestAxis(box));
            |sorted| == |indices| &&
            var l, r := sorted[..|sorted| / 2], sorted[|sorted| / 2..];
            Build(indices, box, depth, boxOf)
            == Inner(box, Build(l, Hull(l, boxOf), depth - 1, boxOf), Build(r, Hull(r, boxOf), depth - 1, boxOf))
  {
    MedianOrderSorted(indices, boxOf, LongestAxis(box));
  }

  /** The leaf indices of a tree, left to right. */
  function Leaves(node: BVHNode): seq<nat>
  {
    match node
    case Leaf(_, ix) => ix
    case Inner(_, l, r) => Leaves(l) + Leaves(r)
  }

  /**
   * The largest remaining depth budget at which `_recursive_build` made a
   * leaf: that of the leaf nearest the root.
   */
  function LargestLeafBudget(node: BVHNode, depth: int): int
  {
    match node
    case Leaf(_, _) => depth
    case Inner(_, l, r) => Max2(LargestLeafBudget(l, depth - 1), LargestLeafBudget(r, depth - 1))
  }

  function Max2(a: int, b: int): int { if a >= b then a else b }

  lemma MaxAssociates(a: int, b: int, c: int)
    ensures Max2(Max2(a, b), c) == Max2(a, Max2(b, c))
  {
  }

  /** Every leaf was made because its depth ran out or because it was small enough. */
  ghost predicate LeavesBounded(node: BVHNode, depth: int)
  {
    match node
    case Leaf(_, ix) => depth == 0 || |ix| <= LeafSize
    case Inner(_, l, r) => depth != 0 && LeavesBounded(l, depth - 1) && LeavesBounded(r, depth - 1)
  }

  /** `b` contains the box of every index in `s`. */
  ghost predicate Covers(b: Box, s: seq<nat>, boxOf: nat -> Box)
  {
    forall k :: 0 <= k < |s| ==> ContainsBox(b, boxOf(s[k]))
  }

  /** `b` is the union of the boxes of `s`: it covers them, and so does nothing smaller. */
  ghost predicate IsHullOf(b: Box, s: seq<nat>, boxOf: nat -> Box)
  {
    Covers(b, s, boxOf) && forall c :: Covers(c, s, boxOf) ==> ContainsBox(c, b)
  }

  /** Below the root, every node's box is the union of its leaves' boxes. */
  ghost predicate ChildBoxesAreHulls(node: BVHNode, boxOf: nat -> Box)
  {
    match node
    case Leaf(_, _) => true
    case Inner(_, l, r) =>
      IsHullOf(l.box, Leaves(l), boxOf) && IsHullOf(r.box, Leaves(r), boxOf)
      && ChildBoxesAreHulls(l, boxOf) && ChildBoxesAreHulls(r, boxOf)
  }

  /**
   * The shape `_recursive_build` produces: a leaf exactly when the depth
   * ran out or at most four indices are left, the box passed in kept at the
   * node, the leaves a permutation of the input, and a split into halves of
   * `len // 2` and the rest.
   */
  lemma {:induction false} BuildShape(indices: seq<nat>, box: Box, depth: int, boxOf: nat -> Box)
    ensures var t := Build(indices, box, depth, boxOf);
      && t.box == box
      && (t.Leaf? <==> depth == 0 || |indices| <= LeafSize)
      && multiset(Leaves(t)) == multiset(indices)
      && LeavesBounded(t, depth)
      && (t.Inner? ==> |Leaves(t.left)| == |indices| / 2 && |Leaves(t.right)| == |indices| - |indices| / 2)
    decreases |indices|
  {
    if !(depth == 0 || |indices| <= LeafSize) {
      var sorted := MedianOrder(indices, boxOf, LongestAxis(box));
      MedianOrderSorted(indices, boxOf, LongestAxis(box));
      BuildSplits(indices, box, depth, boxOf);
      var mid := |sorted| / 2;
      var l, r := sorted[..mid], sorted[mid..];
      BuildShape(l, Hull(l, boxOf), depth - 1, boxOf);
      BuildShape(r, Hull(r, boxOf), depth - 1, boxOf);
      var lt, rt := Build(l, Hull(l, boxOf), depth - 1, boxOf), Build(r, Hull(r, boxOf), depth - 1, boxOf);
      SplitShape(indices, sorted, l, r, lt, rt, box, depth);
    }
  }

  /** The shape of a split node, given the shapes of its two children. */
  lemma SplitShape(indices: seq<nat>, sorted: seq<nat>, l: seq<nat>, r: seq<nat>, lt: BVHNode, rt: BVHNode, box: Box, depth: int)
    requires multiset(sorted) == multiset(indices) && |sorted| == |indices|
    requires l == sorted[..|sorted| / 2] && r == sorted[|sorted| / 2..]
    requires multiset(Leaves(lt)) == multiset(l) && multiset(Leaves(rt)) == multiset(r)
    requires depth != 0 && LeavesBounded(lt, depth - 1) && LeavesBounded(rt, depth - 1)
    ensures var t := Inner(box, lt, rt);
      && multiset(Leaves(t)) == multiset(indices)
      && LeavesBounded(t, depth)
      && |Leaves(t.left)| == |indices| / 2 && |Leaves(t.right)| == |indices| - |indices| / 2
  {
    assert sorted == l + r;
    assert |Leaves(lt)| == |multiset(Leaves(lt))| == |l|;
    assert |Leaves(rt)| == |multiset(Leaves(rt))| == |r|;
  }

  /**
   * In a split, every left index sorts at or before every right index
   * along the parent's longest axis.
   */
  lemma MedianSplitOrdered(indices: seq<nat>, box: Box, depth: int, boxOf: nat -> Box)
    requires !(depth == 0 || |indices| <= LeafSize)
    ensures var t := Build(indices, box, depth, boxOf);
            var a := LongestAxis(box);
            forall x, y :: x in Leaves(t.left) && y in Leaves(t.right) ==> SortKey(boxOf, a, x) <= SortKey(boxOf, a, y)
  {
    var a := LongestAxis(box);
    var sorted := MedianOrder(indices, boxOf, a);
    MedianOrderSorted(indices, boxOf, a);
    BuildSplits(indices, box, depth, boxOf);
    var mid := |sorted| / 2;
    var l, r := sorted[..mid], sorted[mid..];
    LeavesFrom(l, Hull(l, boxOf), depth - 1, boxOf);
    LeavesFrom(r, Hull(r, boxOf), depth - 1, boxOf);
    KeysSplit(sorted, mid, boxOf, a);
  }

  /** Every leaf index of a built tree is one of the indices it was built from. */
  lemma LeavesFrom(indices: seq<nat>, box: Box, depth: int, boxOf: nat -> Box)
    ensures forall x :: x in Leaves(Build(indices, box, depth, boxOf)) ==> x in indices
  {
    var t := Build(indices, box, depth, boxOf);
    BuildShape(indices, box, depth, boxOf);
    forall x | x in Leaves(t) ensures x in indices {
      assert x in multiset(Leaves(t));
    }
  }

  /** In a key-ascending list, every key before `mid` is at most every key from `mid` on. */
  lemma KeysSplit(m: seq<nat>, mid: nat, boxOf: nat -> Box, a: Axis)
    requires mid <= |m|
    requires forall i, j :: 0 <= i < j < |m| ==> SortKey(boxOf, a, m[i]) <= SortKey(boxOf, a, m[j])
    ensures forall x, y :: x in m[..mid] && y in m[mid..] ==> SortKey(boxOf, a, x) <= SortKey(boxOf, a, y)
  {
    forall x, y | x in m[..mid] && y in m[mid..] ensures SortKey(boxOf, a, x) <= SortKey(boxOf, a, y) {
      var i :| 0 <= i < mid && m[..mid][i] == x;
      var j :| 0 <= j < |m| - mid && m[mid..][j] == y;
      assert m[i] == x && m[mid + j] == y;
    }
  }


  /** Two sequences with the same elements are covered by the same boxes. */
  lemma CoversSameElements(b: Box, s: seq<nat>, t: seq<nat>, boxOf: nat -> Box)
    requires multiset(s) == multiset(t)
    ensures Covers(b, s, boxOf) <==> Covers(b, t, boxOf)
  {
    forall k | 0 <= k < |t| ensures t[k] in s { assert t[k] in multiset(t); }
    forall k | 0 <= k < |s| ensures s[k] in t { assert s[k] in multiset(s); }
  }

  /** The hull of a non-empty list of well-formed boxes is their union. */
  lemma HullIsUnion(s: seq<nat>, boxOf: nat -> Box)
    requires |s| > 0 && forall i :: WellFormed(boxOf(i))
    ensures IsHullOf(Hull(s, boxOf), s, boxOf)
  {
    ExpandOverContains(None, s, boxOf);
    forall c | Covers(c, s, boxOf) ensures ContainsBox(c, Hull(s, boxOf)) {
      ExpandOverLeast(None, s, boxOf, c);
    }
  }

  /**
   * Each child box is the union of the boxes of the meshes below it, built
   * from an empty box; only the root keeps the box it was given.
   */
  lemma {:induction false} BuildChildBoxes(indices: seq<nat>, box: Box, depth: int, boxOf: nat -> Box)
    requires forall i :: WellFormed(boxOf(i))
    ensures ChildBoxesAreHulls(Build(indices, box, depth, boxOf), boxOf)
    decreases |indices|
  {
    if !(depth == 0 || |indices| <= LeafSize) {
      var sorted := MedianOrder(indices, boxOf, LongestAxis(box));
      MedianOrderSorted(indices, boxOf, LongestAxis(box));
      var mid := |sorted| / 2;
      var l, r := sorted[..mid], sorted[mid..];
      BuildChildBoxes(l, Hull(l, boxOf), depth - 1, boxOf);
      BuildChildBoxes(r, Hull(r, boxOf), depth - 1, boxOf);
      BuildShape(l, Hull(l, boxOf), depth - 1, boxOf);
      BuildShape(r, Hull(r, boxOf), depth - 1, boxOf);
      var t := Build(indices, box, depth, boxOf);
      HullIsUnion(l, boxOf);
      HullIsUnion(r, boxOf);
      forall c ensures Covers(c, l, boxOf) <==> Covers(c, Leaves(t.left), boxOf) {
        CoversSameElements(c, l, Leaves(t.left), boxOf);
      }
      forall c ensures Covers(c, r, boxOf) <==> Covers(c, Leaves(t.right), boxOf) {
        CoversSameElements(c, r, Leaves(t.right), boxOf);
      }
    }
  }

  /** The `(priority, index)` entries a leaf adds: all at the same priority. */
  function LeafEntries(ix: seq<nat>, pri: real): (r: seq<Entry>)
    ensures |r| == |ix|
  {
    seq(|ix|, k requires 0 <= k < |ix| => (pri, ix[k]))
  }

  /**
   * The entries `find_intersections` adds, in order: nothing for a subtree
   * whose box the ray misses; at a hit leaf, every index at priority
   * minus the distance from the origin to the leaf box's centre.
   */
  function Visits(node: BVHNode, ray: Ray): seq<Entry>
    requires ValidRay(ray)
  {
    if !IntersectsBox(ray, node.box) then []
    else match node
      case Leaf(b, ix) => LeafEntries(ix, -CentreDistSq(ray, b))
      case Inner(_, l, r) => Visits(l, ray) + Visits(r, ray)
  }

  /**
   * Independent description of a queued entry: it names an index of a leaf
   * reached through boxes the ray hits, and carries that leaf's priority.
   */
  ghost predicate FromHitLeaf(node: BVHNode, ray: Ray, e: Entry)
    requires ValidRay(ray)
  {
    IntersectsBox(ray, node.box) &&
    match node
    case Leaf(b, ix) => e.1 in ix && e.0 == -CentreDistSq(ray, b)
    case Inner(_, l, r) => FromHitLeaf(l, ray, e) || FromHitLeaf(r, ray, e)
  }

  lemma {:induction false} VisitsAreHitLeaves(node: BVHNode, ray: Ray, e: Entry)
    requires ValidRay(ray)
    ensures e in Visits(node, ray) <==> FromHitLeaf(node, ray, e)
  {
    if IntersectsBox(ray, node.box) {
      match node
      case Leaf(b, ix) =>
        if e.1 in ix && e.0 == -CentreDistSq(ray, b) {
          var k :| 0 <= k < |ix| && ix[k] == e.1;
          assert LeafEntries(ix, -CentreDistSq(ray, b))[k] == e;
        }
      case Inner(_, l, r) =>
        VisitsAreHitLeaves(l, ray, e);
        VisitsAreHitLeaves(r, ray, e);
    }
  }

  /** `MBoundingBox()` followed by `expand` with each member's box, for `_recursive_build`'s two loops. */
  method ExpandByMembers(acc: Option<Box>, s: seq<nat>, boxOf: nat -> Box) returns (b: Option<Box>)
    ensures b == ExpandOver(acc, s, boxOf)
  {
    b := acc;
    for k := 0 to |s|
      invariant b == ExpandOver(acc, s[..k], boxOf)
    {
      assert s[..k + 1][..k] == s[..k];
      b := Some(Expand(b, boxOf(s[k])));
    }
    assert s[..|s|] == s;
  }

  /** The loop of `_recursive_build` that collects each index's sort key. */
  method SortKeys(indices: seq<nat>, boxOf: nat -> Box, axis: Axis) returns (positions: seq<real>)
    ensures positions == Positions(indices, boxOf, axis)
  {
    positions := [];
    for k := 0 to |indices|
      invariant |positions| == k
      invariant forall j :: 0 <= j < k ==> positions[j] == SortKey(boxOf, axis, indices[j])
    {
      positions := positions + [SortKey(boxOf, axis, indices[k])];
    }
  }

  /**
   * The body of `_recursive_build` at a split: the indices sorted along the
   * longest axis, cut at `len // 2`, and the union box of each half.
   */
  method MedianSplit(indices: seq<nat>, bbox: Box, boxOf: nat -> Box)
    returns (leftIndices: seq<nat>, leftBox: Box, rightIndices: seq<nat>, rightBox: Box)
    requires |indices| > LeafSize
    ensures var sorted := MedianOrder(indices, boxOf, LongestAxis(bbox));
            |sorted| == |indices|
            && leftIndices == sorted[..|sorted| / 2] && rightIndices == sorted[|sorted| / 2..]
    ensures |leftIndices| > 0 && |rightIndices| > 0
    ensures leftBox == Hull(leftIndices, boxOf) && rightBox == Hull(rightIndices, boxOf)
  {
    var axis := LongestAxis(bbox);
    var positions := SortKeys(indices, boxOf, axis);
    var sorted := Seconds(Sorted(Zip(positions, indices)));
    MedianOrderSorted(indices, boxOf, axis);
    var mid := |sorted| / 2;
    leftIndices := sorted[..mid];
    var left := ExpandByMembers(None, leftIndices, boxOf);
    rightIndices := sorted[mid..];
    var right := ExpandByMembers(None, rightIndices, boxOf);
    leftBox, rightBox := left.value, right.value;
  }

  /**
   * `find_intersections`: queues the entries of `Visits`, one `add` each.
   * It hands the heap back only when the ray misses the node's box and
   * otherwise falls off its end, which Python reads as `None`.
   */
  method FindIntersections(node: BVHNode, heap: PrioritySet, ray: Ray) returns (result: Option<PrioritySet>)
    requires ValidRay(ray) && heap.Valid()
    modifies heap
    ensures heap.Valid()
    ensures heap.heap == Enqueue(old(heap.heap), Visits(node, ray))
    ensures result == if IntersectsBox(ray, node.box) then None else Some(heap)
    decreases node
  {
    result := None;
    if !IntersectsBox(ray, node.box) {
      return Some(heap);
    }
    match node
    case Leaf(b, ix) =>
      var distance := CentreDistSq(ray, b);
      for k := 0 to |ix|
        invariant heap.Valid()
        invariant heap.heap == Enqueue(old(heap.heap), LeafEntries(ix[..k], -distance))
      {
        assert LeafEntries(ix[..k + 1], -distance)[..k] == LeafEntries(ix[..k], -distance);
        heap.Add(ix[k], -distance);
      }
      assert ix[..|ix|] == ix;
    case Inner(_, l, r) =>
      ghost var h0 := heap.heap;
      var _ := FindIntersections(l, heap, ray);
      var _ := FindIntersections(r, heap, ray);
      EnqueueConcat(h0, Visits(l, ray), Visits(r, ray));
  }

  /** `min()` of an empty dict raises `ValueError`. */
  datatype QueryError = EmptyMin

  /** `distances_stack`: distance keys, each mapped to the latest index recorded at it. */
  function DistanceMap(hits: seq<Keyed>): map<real, nat>
  {
    if hits == [] then map[]
    else DistanceMap(hits[..|hits| - 1])[hits[|hits| - 1].0 := hits[|hits| - 1].1]
  }

  /** `hits[k]` has the least distance, and no later hit has the same distance. */
  ghost predicate IsLatestNearest(hits: seq<Keyed>, k: int)
  {
    0 <= k < |hits|
    && (forall j :: 0 <= j < |hits| ==> hits[k].0 <= hits[j].0)
    && (forall j :: k < j < |hits| ==> hits[j].0 != hits[k].0)
  }

  /** The distance keys are the recorded distances, each naming the latest hit at that distance. */
  lemma DistanceMapLatest(hits: seq<Keyed>)
    ensures DistanceMap(hits) == map[] <==> hits == []
    ensures forall d :: d in DistanceMap(hits) <==> exists k :: 0 <= k < |hits| && hits[k].0 == d
    ensures forall d :: d in DistanceMap(hits) ==>
              exists k :: 0 <= k < |hits| && hits[k] == (d, DistanceMap(hits)[d])
                          && forall j :: k < j < |hits| ==> hits[j].0 != d
  {
    DistanceMapKeys(hits);
    DistanceMapEntries(hits);
    if hits != [] {
      assert hits[|hits| - 1].0 in DistanceMap(hits);
    }
  }

  /** The keys of the distance dict are exactly the recorded distances. */
  lemma {:induction false} DistanceMapKeys(hits: seq<Keyed>)
    ensures forall d :: d in DistanceMap(hits) <==> exists k :: 0 <= k < |hits| && hits[k].0 == d
  {
    if hits != [] {
      var init, n := hits[..|hits| - 1], |hits| - 1;
      DistanceMapKeys(init);
      forall d ensures d in DistanceMap(hits) <==> exists k :: 0 <= k < |hits| && hits[k].0 == d {
        if exists k :: 0 <= k < |hits| && hits[k].0 == d {
          var k :| 0 <= k < |hits| && hits[k].0 == d;
          if k < n { assert init[k].0 == d; }
        }
        if d in DistanceMap(init) {
          var k :| 0 <= k < |init| && init[k].0 == d;
          assert hits[k].0 == d;
        }
      }
    }
  }

  /** Each key of the distance dict keeps the index of the last hit at that distance. */
  lemma {:induction false} DistanceMapEntries(hits: seq<Keyed>)
    ensures forall d :: d in DistanceMap(hits) ==>
              exists k :: 0 <= k < |hits| && hits[k] == (d, DistanceMap(hits)[d])
                          && forall j :: k < j < |hits| ==> hits[j].0 != d
  {
    if hits != [] {
      var init, n := hits[..|hits| - 1], |hits| - 1;
      DistanceMapEntries(init);
      forall d | d in DistanceMap(hits)
        ensures exists k :: 0 <= k < |hits| && hits[k] == (d, DistanceMap(hits)[d])
                            && forall j :: k < j < |hits| ==> hits[j].0 != d
      {
        if d == hits[n].0 {
          assert hits[n] == (d, DistanceMap(hits)[d]);
        } else {
          assert d in DistanceMap(init) && DistanceMap(hits)[d] == DistanceMap(init)[d];
          var k :| 0 <= k < |init| && init[k] == (d, DistanceMap(init)[d])
                   && forall j :: k < j < |init| ==> init[j].0 != d;
          assert hits[k] == init[k];
        }
      }
    }
  }


  /** `min(keys)`, or `None` where Python raises `ValueError` on an empty dict. */
  method MinKey(keys: set<real>) returns (m: Option<real>)
    ensures m.None? <==> keys == {}
    ensures m.Some? ==> m.value in keys && forall x :: x in keys ==> m.value <= x
  {
    if |keys| == 0 {
      return None;
    }
    ghost var some := NonEmptyHasMember(keys);
    var first :| first in keys;
    var best := first;
    var rest := keys - {first};
    while |rest| > 0
      invariant best in keys && rest <= keys
      invariant forall x :: x in keys && x !in rest ==> best <= x
      decreases rest
    {
      ghost var some := NonEmptyHasMember(rest);
      var x :| x in rest;
      if x < best {
        best := x;
      }
      rest := rest - {x};
    }
    m := Some(best);
  }

  /** The answer a query gives once it has recorded `hits`: the latest nearest hit, or `None`. */
  ghost predicate AnswersWith(hits: seq<Keyed>, probe: nat -> Option<Vec3>, r: Option<Hit>)
  {
    if hits == [] then r.None?
    else exists k :: IsLatestNearest(hits, k) && probe(hits[k].1).Some?
                     && r == Some(Hit(hits[k].1, probe(hits[k].1).value))
  }

  /**
   * `popped` are taken from `queued` in ascending tuple order, each no
   * greater than anything still queued.
   */
  ghost predicate LeastFirst(queued: seq<Entry>, popped: seq<Entry>)
  {
    && multiset(popped) <= multiset(queued)
    && (forall i, j :: 0 <= i < j < |popped| ==> LexLe(popped[i], popped[j]))
    && (forall j, e :: 0 <= j < |popped| && e in multiset(queued) - multiset(popped) ==> LexLe(popped[j], e))
  }

  /**
   * What the BVH query promises, given the entries `popped` it took off
   * the queue, in order:
   * - the pops are the least entries of the queue that `find_intersections`
   *   filled, in ascending tuple order (so the leaf whose box centre is
   *   farthest comes first, its priority being minus that distance);
   * - it pops at least once when anything was queued;
   * - after each pop but the last, the hit count was not `sample_count`;
   * - it stopped early only with exactly `sample_count` hits recorded;
   * - it fails only when it stopped with nothing recorded (`sample_count`
   *   zero and a first miss); otherwise it answers with the latest nearest
   *   recorded hit, or `None` when nothing was hit.
   */
  ghost predicate IsBvhAnswer(root: BVHNode, probe: nat -> Option<Vec3>, ray: Ray, sampleCount: int,
                              r: Result<Option<Hit>, QueryError>, popped: seq<Entry>)
    requires ValidRay(ray)
  {
    var queued := Enqueue([], Visits(root, ray));
    var hits := Recorded(Seconds(popped), probe, ray.origin);
    && LeastFirst(queued, popped)
    && (|queued| > 0 ==> |popped| > 0)
    && (forall m :: 1 <= m < |popped| ==> |Recorded(Seconds(popped[..m]), probe, ray.origin)| != sampleCount)
    && (|popped| < |queued| ==> |hits| == sampleCount)
    && (r.Err? <==> |popped| > 0 && |hits| == sampleCount && hits == [])
    && (r.Ok? ==> AnswersWith(hits, probe, r.value))
  }

  lemma SecondsSnoc(s: seq<Entry>, e: Entry)
    ensures Seconds(s + [e]) == Seconds(s) + [e.1]
  {
  }

  /** The pops so far are least-first, and account with `rest` for exactly the queued entries. */
  ghost predicate PopsSoFar(queued: seq<Entry>, rest: seq<Entry>, popped: seq<Entry>)
  {
    && multiset(rest) + multiset(popped) == multiset(queued)
    && (forall i, j :: 0 <= i < j < |popped| ==> LexLe(popped[i], popped[j]))
    && (forall j, e :: 0 <= j < |popped| && e in rest ==> LexLe(popped[j], e))
  }

  lemma PopKeeps(queued: seq<Entry>, before: seq<Entry>, k: int, popped: seq<Entry>)
    requires PopsSoFar(queued, before, popped) && IsLeast(before, k)
    ensures PopsSoFar(queued, RemoveAt(before, k), popped + [before[k]])
  {
    assert before == before[..k] + [before[k]] + before[k + 1..];
    var after := RemoveAt(before, k);
    assert multiset(before) == multiset(after) + multiset{before[k]};
    forall e | e in after ensures e in before {
      assert e in multiset(after);
    }
    var p := popped + [before[k]];
    forall i, j | 0 <= i < j < |p| ensures LexLe(p[i], p[j]) {
      if j == |popped| {
        assert before[k] in before;
      }
    }
  }

  /** What the query has recorded after the pops `popped`. */
  ghost predicate Tally(popped: seq<Entry>, probe: nat -> Option<Vec3>, origin: Vec3,
                        count: int, distances: map<real, nat>, intersections: map<nat, Vec3>)
  {
    var hits := Recorded(Seconds(popped), probe, origin);
    && count == |hits|
    && distances == DistanceMap(hits)
    && (forall i :: i in intersections ==> probe(i).Some? && intersections[i] == probe(i).value)
    && (forall h :: h in hits ==> h.1 in intersections)
  }

  lemma RecordedSnoc(popped: seq<Entry>, e: Entry, probe: nat -> Option<Vec3>, origin: Vec3)
    ensures Recorded(Seconds(popped + [e]), probe, origin) ==
            Recorded(Seconds(popped), probe, origin)
            + (if probe(e.1).Some? then [(DistSq(origin, probe(e.1).value), e.1)] else [])
  {
    SecondsSnoc(popped, e);
    RecordedAppend(Seconds(popped), e.1, probe, origin);
  }

  lemma DistanceMapSnoc(hits: seq<Keyed>, h: Keyed)
    ensures DistanceMap(hits + [h]) == DistanceMap(hits)[h.0 := h.1]
  {
    assert (hits + [h])[..|hits|] == hits;
  }

  /** One pop: a hit adds one to the count and records its distance and point; a miss records nothing. */
  lemma TallyStep(popped: seq<Entry>, e: Entry, probe: nat -> Option<Vec3>, origin: Vec3,
                  count: int, distances: map<real, nat>, intersections: map<nat, Vec3>)
    requires Tally(popped, probe, origin, count, distances, intersections)
    ensures probe(e.1).Some? ==>
              Tally(popped + [e], probe, origin, count + 1,
                    distances[DistSq(origin, probe(e.1).value) := e.1], intersections[e.1 := probe(e.1).value])
    ensures probe(e.1).None? ==> Tally(popped + [e], probe, origin, count, distances, intersections)
  {
    RecordedSnoc(popped, e, probe, origin);
    if probe(e.1).Some? {
      DistanceMapSnoc(Recorded(Seconds(popped), probe, origin), (DistSq(origin, probe(e.1).value), e.1));
    } else {
      var before := Recorded(Seconds(popped), probe, origin);
      assert before + [] == before;
      assert Recorded(Seconds(popped + [e]), probe, origin) == before;
    }
  }

  /** The hit count stayed off `sampleCount` after every pop of `popped`. */
  ghost predicate NeverReached(popped: seq<Entry>, probe: nat -> Option<Vec3>, origin: Vec3, sampleCount: int)
  {
    forall m :: 1 <= m <= |popped| ==> |Recorded(Seconds(popped[..m]), probe, origin)| != sampleCount
  }

  lemma NeverReachedSnoc(popped: seq<Entry>, e: Entry, probe: nat -> Option<Vec3>, origin: Vec3, sampleCount: int)
    requires NeverReached(popped, probe, origin, sampleCount)
    ensures forall m :: 1 <= m < |popped + [e]| ==>
              |Recorded(Seconds((popped + [e])[..m]), probe, origin)| != sampleCount
    ensures |Recorded(Seconds(popped + [e]), probe, origin)| != sampleCount ==>
              NeverReached(popped + [e], probe, origin, sampleCount)
  {
    forall m | 1 <= m < |popped + [e]|
      ensures |Recorded(Seconds((popped + [e])[..m]), probe, origin)| != sampleCount
    {
      assert (popped + [e])[..m] == popped[..m];
    }
    assert (popped + [e])[..|popped + [e]|] == popped + [e];
  }

  /** `PrioritySet()` filled by `find_intersections` from the root. */
  method FilledQueue(root: BVHNode, ray: Ray) returns (heap: PrioritySet)
    requires ValidRay(ray)
    ensures fresh(heap) && heap.Valid()
    ensures heap.heap == Enqueue([], Visits(root, ray))
  {
    heap := new PrioritySet();
    var _ := FindIntersections(root, heap, ray);
  }

  /** The query's guarantees, from what its loop maintains and how it left the loop. */
  lemma ConcludeAnswer(root: BVHNode, probe: nat -> Option<Vec3>, ray: Ray, sampleCount: int,
                       r: Result<Option<Hit>, QueryError>, popped: seq<Entry>, rest: seq<Entry>)
    requires ValidRay(ray)
    requires PopsSoFar(Enqueue([], Visits(root, ray)), rest, popped)
    requires forall m :: 1 <= m < |popped| ==> |Recorded(Seconds(popped[..m]), probe, ray.origin)| != sampleCount
    requires rest == [] || popped != []
    requires var hits := Recorded(Seconds(popped), probe, ray.origin);
             && (rest != [] ==> |hits| == sampleCount)
             && (r.Err? <==> |popped| > 0 && |hits| == sampleCount && hits == [])
             && (r.Ok? ==> AnswersWith(hits, probe, r.value))
    ensures IsBvhAnswer(root, probe, ray, sampleCount, r, popped)
  {
    var queued := Enqueue([], Visits(root, ray));
    assert |multiset(rest)| + |multiset(popped)| == |multiset(queued)|;
    assert multiset(rest) == multiset(queued) - multiset(popped);
    forall j, e | 0 <= j < |popped| && e in multiset(queued) - multiset(popped)
      ensures LexLe(popped[j], e)
    {
      assert e in multiset(rest);
      assert e in rest;
    }
  }

  /**
   * The query loop of `get_closest_intersection` (and of
   * `get_closest_intersection_bvh`, which runs the same loop).
   */
  method QueueQuery(root: BVHNode, probe: nat -> Option<Vec3>, ray: Ray, sampleCount: int)
    returns (r: Result<Option<Hit>, QueryError>, ghost popped: seq<Entry>)
    requires ValidRay(ray)
    ensures IsBvhAnswer(root, probe, ray, sampleCount, r, popped)
    ensures sampleCount >= 1 ==> r.Ok?
    ensures r.Ok? && r.value.Some? ==> probe(r.value.value.index) == Some(r.value.value.point)
  {
    var heap := FilledQueue(root, ray);
    ghost var queued := heap.heap;
    var count := 0;
    var distances: map<real, nat> := map[];
    var intersections: map<nat, Vec3> := map[];
    popped := [];
    while |heap.heap| > 0
      invariant heap.Valid() && queued == Enqueue([], Visits(root, ray))
      invariant PopsSoFar(queued, heap.heap, popped)
      invariant NeverReached(popped, probe, ray.origin, sampleCount)
      invariant Tally(popped, probe, ray.origin, count, distances, intersections)
      decreases |heap.heap|
    {
      ghost var before := heap.heap;
      var index := heap.Pop();
      ghost var k :| IsLeast(before, k) && index == before[k].1 && heap.heap == RemoveAt(before, k);
      PopKeeps(queued, before, k, popped);
      NeverReachedSnoc(popped, before[k], probe, ray.origin, sampleCount);
      TallyStep(popped, before[k], probe, ray.origin, count, distances, intersections);
      popped := popped + [before[k]];
      var point := probe(index);
      if point.Some? {
        count := count + 1;
        distances := distances[DistSq(ray.origin, point.value) := index];
        intersections := intersections[index := point.value];
      }
      if count == sampleCount {
        r := Answer(distances, intersections, popped, probe, ray.origin, count);
        ConcludeAnswer(root, probe, ray, sampleCount, r, popped, heap.heap);
        AnswerFacts(root, probe, ray, sampleCount, r, popped);
        return;
      }
    }
    if |distances| > 0 {
      r := Answer(distances, intersections, popped, probe, ray.origin, count);
    } else {
      DistanceMapLatest(Recorded(Seconds(popped), probe, ray.origin));
      r := Ok(None);
    }
    assert popped == [] || popped[..|popped|] == popped;
    ConcludeAnswer(root, probe, ray, sampleCount, r, popped, heap.heap);
    AnswerFacts(root, probe, ray, sampleCount, r, popped);
  }

  /** Looks up the nearest recorded hit: `distances_stack[min(distances_stack.keys())]`. */
  method Answer(distances: map<real, nat>, intersections: map<nat, Vec3>, ghost popped: seq<Entry>,
                probe: nat -> Option<Vec3>, ghost origin: Vec3, ghost count: int)
    returns (r: Result<Option<Hit>, QueryError>)
    requires Tally(popped, probe, origin, count, distances, intersections)
    ensures r.Err? <==> Recorded(Seconds(popped), probe, origin) == []
    ensures r.Ok? ==> AnswersWith(Recorded(Seconds(popped), probe, origin), probe, r.value)
  {
    ghost var hits := Recorded(Seconds(popped), probe, origin);
    DistanceMapLatest(hits);
    var m := MinKey(distances.Keys);
    if m.None? {
      return Err(EmptyMin);
    }
    var index := distances[m.value];
    ghost var k := LatestNearestAt(hits, m.value);
    assert hits[k] in hits;
    r := Ok(Some(Hit(index, intersections[index])));
  }

  /** The entry the least key of the distance dict keeps is the latest nearest hit. */
  lemma LatestNearestAt(hits: seq<Keyed>, d: real) returns (k: int)
    requires d in DistanceMap(hits) && forall x :: x in DistanceMap(hits) ==> d <= x
    ensures IsLatestNearest(hits, k) && hits[k] == (d, DistanceMap(hits)[d])
  {
    DistanceMapLatest(hits);
    k :| 0 <= k < |hits| && hits[k] == (d, DistanceMap(hits)[d]) && forall j :: k < j < |hits| ==> hits[j].0 != d;
    forall j | 0 <= j < |hits| ensures hits[k].0 <= hits[j].0 {
      assert hits[j].0 in DistanceMap(hits);
    }
  }

  /** A count that grows by at most one per pop passes through every smaller value. */
  lemma {:induction false} CountPasses(popped: seq<Entry>, probe: nat -> Option<Vec3>, origin: Vec3, c: int)
    requires 0 <= c < |Recorded(Seconds(popped), probe, origin)|
    ensures exists m :: 0 <= m < |popped| && |Recorded(Seconds(popped[..m]), probe, origin)| == c
  {
    var n := |popped|;
    assert n > 0;
    var init := popped[..n - 1];
    assert popped == init + [popped[n - 1]];
    RecordedSnoc(init, popped[n - 1], probe, origin);
    if |Recorded(Seconds(init), probe, origin)| > c {
      CountPasses(init, probe, origin, c);
      var m :| 0 <= m < |init| && |Recorded(Seconds(init[..m]), probe, origin)| == c;
      assert init[..m] == popped[..m];
    } else {
      assert |Recorded(Seconds(popped[..n - 1]), probe, origin)| == c;
    }
  }

  /** What an answer promises about its own value: no failure once `sample_count >= 1`, and a hit is the mesh's own hit point. */
  lemma AnswerFacts(root: BVHNode, probe: nat -> Option<Vec3>, ray: Ray, sampleCount: int,
                    r: Result<Option<Hit>, QueryError>, popped: seq<Entry>)
    requires ValidRay(ray)
    requires IsBvhAnswer(root, probe, ray, sampleCount, r, popped)
    ensures sampleCount >= 1 ==> r.Ok?
    ensures r.Ok? && r.value.Some? ==> probe(r.value.value.index) == Some(r.value.value.point)
  {
    if sampleCount >= 1 {
      HitBudget(root, probe, ray, sampleCount, r, popped);
    }
  }

  /**
   * With `sample_count` at least one, the query never fails and never
   * records more than `sample_count` hits.
   */
  lemma HitBudget(root: BVHNode, probe: nat -> Option<Vec3>, ray: Ray, sampleCount: int,
                  r: Result<Option<Hit>, QueryError>, popped: seq<Entry>)
    requires ValidRay(ray) && sampleCount >= 1
    requires IsBvhAnswer(root, probe, ray, sampleCount, r, popped)
    ensures r.Ok?
    ensures |Recorded(Seconds(popped), probe, ray.origin)| <= sampleCount
  {
    if |Recorded(Seconds(popped), probe, ray.origin)| > sampleCount {
      CountPasses(popped, probe, ray.origin, sampleCount);
      var m :| 0 <= m < |popped| && |Recorded(Seconds(popped[..m]), probe, ray.origin)| == sampleCount;
      assert false;
    }
  }

  /**
   * Every probed mesh sits in a leaf whose box the ray hits, reached through
   * boxes the ray hits, and the leaves are probed from the one whose box
   * centre is farthest from the origin to the nearest.
   */
  lemma PopsComeFromHitLeaves(root: BVHNode, probe: nat -> Option<Vec3>, ray: Ray, sampleCount: int,
                              r: Result<Option<Hit>, QueryError>, popped: seq<Entry>)
    requires ValidRay(ray)
    requires IsBvhAnswer(root, probe, ray, sampleCount, r, popped)
    ensures forall j :: 0 <= j < |popped| ==> FromHitLeaf(root, ray, popped[j])
    ensures forall i, j :: 0 <= i < j < |popped| ==> -popped[i].0 >= -popped[j].0
  {
    var queued := Enqueue([], Visits(root, ray));
    EnqueueFrom([], Visits(root, ray));
    forall j | 0 <= j < |popped| ensures FromHitLeaf(root, ray, popped[j]) {
      assert popped[j] in multiset(popped);
      assert popped[j] in multiset(queued);
      assert popped[j] in queued;
      VisitsAreHitLeaves(root, ray, popped[j]);
    }
    forall i, j | 0 <= i < j < |popped| ensures -popped[i].0 >= -popped[j].0 {
      assert LexLe(popped[i], popped[j]);
    }
  }

  /** No entry of a heap with distinct items occurs twice. */
  lemma {:induction false} EntriesOnce(h: seq<Entry>, e: Entry)
    requires DistinctItems(h)
    ensures multiset(h)[e] <= 1
  {
    if h != [] {
      var init, last := h[..|h| - 1], h[|h| - 1];
      assert h == init + [last];
      assert DistinctItems(init) by {
        forall i, j | 0 <= i < j < |init| ensures init[i].1 != init[j].1 {
          assert init[i] == h[i] && init[j] == h[j];
        }
      }
      EntriesOnce(init, e);
    }
  }

  /** An entry at two positions of `p` occurs at least twice in it. */
  lemma OccursTwice(p: seq<Entry>, k: int, i: int)
    requires 0 <= k < i < |p| && p[k] == p[i]
    ensures multiset(p)[p[i]] >= 2
  {
    assert p == p[..i] + p[i..];
    assert p[k] in p[..i] && p[i] in p[i..];
  }

  /**
   * Two least-first pop sequences that agree before position `i` take at
   * `i`, from the first, an entry no greater than the second's.
   */
  lemma PopBelow(queued: seq<Entry>, p1: seq<Entry>, p2: seq<Entry>, i: int)
    requires DistinctItems(queued) && LeastFirst(queued, p1) && LeastFirst(queued, p2)
    requires 0 <= i < |p1| && i < |p2| && p1[..i] == p2[..i]
    ensures LexLe(p1[i], p2[i])
  {
    var x := p2[i];
    if x in p1 {
      var k :| 0 <= k < |p1| && p1[k] == x;
      if k < i {
        assert p2[k] == p1[..i][k] == x;
        OccursTwice(p2, k, i);
        EntriesOnce(queued, x);
        assert false;
      }
    } else {
      assert multiset(p2)[x] >= 1;
      assert x in multiset(queued) - multiset(p1);
    }
  }

  /** Least-first pop sequences agree on their common length. */
  lemma {:induction false} PopsAgree(queued: seq<Entry>, p1: seq<Entry>, p2: seq<Entry>, i: int)
    requires DistinctItems(queued) && LeastFirst(queued, p1) && LeastFirst(queued, p2)
    requires 0 <= i <= |p1| && i <= |p2|
    ensures p1[..i] == p2[..i]
  {
    if i > 0 {
      PopsAgree(queued, p1, p2, i - 1);
      PopBelow(queued, p1, p2, i - 1);
      PopBelow(queued, p2, p1, i - 1);
      LexAntisymmetric(p1[i - 1], p2[i - 1]);
      assert p1[..i] == p1[..i - 1] + [p1[i - 1]];
      assert p2[..i] == p2[..i - 1] + [p2[i - 1]];
    }
  }

  /** At most one recorded hit is the latest nearest. */
  lemma LatestNearestUnique(hits: seq<Keyed>, k1: int, k2: int)
    requires IsLatestNearest(hits, k1) && IsLatestNearest(hits, k2)
    ensures k1 == k2
  {
    assert hits[k1].0 <= hits[k2].0 && hits[k2].0 <= hits[k1].0;
  }

  /**
   * Two least-first pop sequences, each stopped by the rule of the query
   * loop (at least one pop when anything is queued, the hit count off
   * `sampleCount` after every pop but the last, and on it when stopping
   * early), are the same sequence.
   */
  lemma {:induction false} StopsTogether(queued: seq<Entry>, probe: nat -> Option<Vec3>, origin: Vec3, sampleCount: int,
                                         p1: seq<Entry>, p2: seq<Entry>)
    requires DistinctItems(queued) && LeastFirst(queued, p1) && LeastFirst(queued, p2)
    requires |queued| > 0 ==> |p1| > 0
    requires forall m :: 1 <= m < |p2| ==> |Recorded(Seconds(p2[..m]), probe, origin)| != sampleCount
    requires |p1| < |queued| ==> |Recorded(Seconds(p1), probe, origin)| == sampleCount
    requires |p1| <= |p2|
    ensures p1 == p2
  {
    PopsAgree(queued, p1, p2, |p1|);
    assert p1[..|p1|] == p1;
    SubMultisetSize(multiset(p2), multiset(queued));
    var hits := Recorded(Seconds(p2[..|p1|]), probe, origin);
    assert hits == Recorded(Seconds(p1), probe, origin);
    if |p1| < |p2| {
      assert false;
    }
    assert p2[..|p2|] == p2;
  }

  lemma SubMultisetSize(a: multiset<Entry>, b: multiset<Entry>)
    requires a <= b
    ensures |a| <= |b|
  {
    assert b == a + (b - a);
  }

  /**
   * The BVH query's promise leaves no choice: for one tree, probe, ray and
   * `sample_count`, any two answers pop the same entries and give the same
   * result.
   */
  lemma BvhAnswerDetermined(root: BVHNode, probe: nat -> Option<Vec3>, ray: Ray, sampleCount: int,
                            r1: Result<Option<Hit>, QueryError>, p1: seq<Entry>,
                            r2: Result<Option<Hit>, QueryError>, p2: seq<Entry>)
    requires ValidRay(ray)
    requires IsBvhAnswer(root, probe, ray, sampleCount, r1, p1) && IsBvhAnswer(root, probe, ray, sampleCount, r2, p2)
    ensures p1 == p2 && r1 == r2
  {
    var queued := Enqueue([], Visits(root, ray));
    EnqueueItems([], Visits(root, ray));
    if |p1| <= |p2| {
      StopsTogether(queued, probe, ray.origin, sampleCount, p1, p2);
    } else {
      StopsTogether(queued, probe, ray.origin, sampleCount, p2, p1);
    }
    AnswersAgree(Recorded(Seconds(p1), probe, ray.origin), probe, r1, r2);
  }

  /** Over the same recorded hits, the answer and its failure are the same. */
  lemma AnswersAgree(hits: seq<Keyed>, probe: nat -> Option<Vec3>, r1: Result<Option<Hit>, QueryError>,
                     r2: Result<Option<Hit>, QueryError>)
    requires r1.Err? <==> r2.Err?
    requires r1.Ok? ==> AnswersWith(hits, probe, r1.value)
    requires r2.Ok? ==> AnswersWith(hits, probe, r2.value)
    ensures r1 == r2
  {
    if r1.Err? {
      assert r1.error == EmptyMin == r2.error;
    } else if hits == [] {
      assert r1.value == None == r2.value;
    } else {
      var k1 :| IsLatestNearest(hits, k1) && probe(hits[k1].1).Some? && r1.value == Some(Hit(hits[k1].1, probe(hits[k1].1).value));
      var k2 :| IsLatestNearest(hits, k2) && probe(hits[k2].1).Some? && r2.value == Some(Hit(hits[k2].1, probe(hits[k2].1).value));
      LatestNearestUnique(hits, k1, k2);
    }
  }

  /** `BVH`: the tree over a mesh list, with its query settings. */
  class BVH {
    const boxOf: nat -> Box
    const sampleCount: int
    const maxDepth: int
    /** `_depth`: the largest remaining depth at which a leaf was made, starting from 0. */
    var depth: int
    var root: BVHNode

    /**
     * Builds the tree over meshes `0 .. meshCount - 1` with `bbox` at the
     * root. A `max_depth` or `sample_count` below one is only reported.
     */
    constructor (meshCount: nat, boxOf: nat -> Box, bbox: Box, maxDepth: int := 32, sampleCount: int := 32)
      ensures this.boxOf == boxOf && this.sampleCount == sampleCount && this.maxDepth == maxDepth
      ensures root == Build(Range(meshCount), bbox, maxDepth, boxOf)
      ensures depth == Max2(0, LargestLeafBudget(root, maxDepth))
    {
      this.boxOf := boxOf;
      this.sampleCount := sampleCount;
      this.maxDepth := maxDepth;
      depth := 0;
      root := Leaf(bbox, []);
      new;
      root := RecursiveBuild(Range(meshCount), bbox, maxDepth);
    }

    /** `_recursive_build`: builds `Build`'s tree and raises `_depth` to the largest remaining budget at a leaf. */
    method RecursiveBuild(indices: seq<nat>, bbox: Box, levels: int) returns (node: BVHNode)
      modifies this`depth
      ensures node == Build(indices, bbox, levels, boxOf)
      ensures depth == Max2(old(depth), LargestLeafBudget(node, levels))
      decreases |indices|, 2
    {
      if levels == 0 || |indices| <= LeafSize {
        if levels > depth {
          depth := levels;
        }
        node := Leaf(bbox, indices);
      } else {
        node := SplitBuild(indices, bbox, levels);
      }
    }

    /** The split branch of `_recursive_build`: both halves built one level down. */
    method SplitBuild(indices: seq<nat>, bbox: Box, levels: int) returns (node: BVHNode)
      requires !(levels == 0 || |indices| <= LeafSize)
      modifies this`depth
      ensures node == Build(indices, bbox, levels, boxOf)
      ensures depth == Max2(old(depth), LargestLeafBudget(node, levels))
      decreases |indices|, 1
    {
      var leftIndices, leftBox, rightIndices, rightBox := MedianSplit(indices, bbox, boxOf);
      BuildSplits(indices, bbox, levels, boxOf);
      node := BuildChildren(bbox, leftIndices, leftBox, rightIndices, rightBox, levels, |indices|);
    }

    /** Both children of a split node, built one level down, left first. */
    method BuildChildren(bbox: Box, leftIndices: seq<nat>, leftBox: Box, rightIndices: seq<nat>, rightBox: Box,
                         levels: int, ghost size: nat) returns (node: BVHNode)
      requires |leftIndices| < size && |rightIndices| < size
      modifies this`depth
      ensures node == Inner(bbox, Build(leftIndices, leftBox, levels - 1, boxOf), Build(rightIndices, rightBox, levels - 1, boxOf))
      ensures depth == Max2(old(depth), LargestLeafBudget(node, levels))
      decreases size, 0
    {
      ghost var before := depth;
      var left := RecursiveBuild(leftIndices, leftBox, levels - 1);
      var right := RecursiveBuild(rightIndices, rightBox, levels - 1);
      node := Inner(bbox, left, right);
      MaxAssociates(before, LargestLeafBudget(left, levels - 1), LargestLeafBudget(right, levels - 1));
    }


    /** `get_closest_intersection`. */
    method GetClosestIntersection(probe: nat -> Option<Vec3>, ray: Ray)
      returns (r: Result<Option<Hit>, QueryError>, ghost popped: seq<Entry>)
      requires ValidRay(ray)
      ensures IsBvhAnswer(root, probe, ray, sampleCount, r, popped)
      ensures sampleCount >= 1 ==> r.Ok?
      ensures r.Ok? && r.value.Some? ==> probe(r.value.value.index) == Some(r.value.value.point)
    {
      r, popped := QueueQuery(root, probe, ray, sampleCount);
    }
  }
}
