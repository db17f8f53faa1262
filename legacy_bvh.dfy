/**
 * `core/bvh.py`: the earlier BVH. A node is split at the centre of its
 * longest axis; each mesh goes to the half holding the centre of its box
 * (by a distance rule when neither does), and each half is then grown by
 * its members' boxes. The traversal is the one of the later BVH.
 */
module LegacyBvh {
  import opened Common
  import opened Geometry
  import opened Rays
  import opened PrioritySets
  import opened Probes
  import AccelBvh

  /** `_split`: the two halves of `b` either side of its centre on the longest axis. */
  function Split(b: Box): (Box, Box)
  {
    var m := Center(b);
    var a := AccelBvh.LongestAxis(b);
    if a == 0 then (Box(b.lo, Vec3(m.x, b.hi.y, b.hi.z)), Box(Vec3(m.x, b.lo.y, b.lo.z), b.hi))
    else if a == 1 then (Box(b.lo, Vec3(b.hi.x, m.y, b.hi.z)), Box(Vec3(b.lo.x, m.y, b.lo.z), b.hi))
    else (Box(b.lo, Vec3(b.hi.x, b.hi.y, m.z)), Box(Vec3(b.lo.x, b.lo.y, m.z), b.hi))
  }

  /**
   * The halves meet at the centre of the longest axis and span the parent
   * on the other two; of a well-formed box they are well formed, inside it,
   * and together cover it.
   */
  lemma SplitHalves(b: Box)
    ensures var (left, right) := Split(b);
      forall a: Axis ::
        && Coord(left.lo, a) == Coord(b.lo, a) && Coord(right.hi, a) == Coord(b.hi, a)
        && Coord(left.hi, a) == (if a == AccelBvh.LongestAxis(b) then Coord(Center(b), a) else Coord(b.hi, a))
        && Coord(right.lo, a) == (if a == AccelBvh.LongestAxis(b) then Coord(Center(b), a) else Coord(b.lo, a))
    ensures WellFormed(b) ==>
              var (left, right) := Split(b);
              WellFormed(left) && WellFormed(right) && ContainsBox(b, left) && ContainsBox(b, right)
              && forall p :: ContainsPoint(b, p) ==> ContainsPoint(left, p) || ContainsPoint(right, p)
  {
  }

  /**
   * The side `_build` picks for a mesh whose box has centre `c`: the left
   * half if it holds `c`, else the right half if that does, else the half
   * whose centre is farther from `c`, the right one on a tie.
   */
  predicate GoesLeft(c: Vec3, halves: (Box, Box))
  {
    ContainsPoint(halves.0, c)
    || (!ContainsPoint(halves.1, c) && DistSq(c, Center(halves.0)) > DistSq(c, Center(halves.1)))
  }

  /** The indices `_build` appends to the left (`left`) or to the right list, in order. */
  function Side(indices: seq<nat>, halves: (Box, Box), boxOf: nat -> Box, left: bool): seq<nat>
  {
    if indices == [] then []
    else
      var last := indices[|indices| - 1];
      Side(indices[..|indices| - 1], halves, boxOf, left)
      + (if GoesLeft(Center(boxOf(last)), halves) == left then [last] else [])
  }

  /** Every index goes to exactly one side: the two lists partition the input. */
  lemma {:induction false} SidesPartition(indices: seq<nat>, halves: (Box, Box), boxOf: nat -> Box)
    ensures multiset(Side(indices, halves, boxOf, true)) + multiset(Side(indices, halves, boxOf, false)) == multiset(indices)
    ensures forall i :: i in Side(indices, halves, boxOf, true) <==> i in indices && GoesLeft(Center(boxOf(i)), halves)
    ensures forall i :: i in Side(indices, halves, boxOf, false) <==> i in indices && !GoesLeft(Center(boxOf(i)), halves)
  {
    SidesPermute(indices, halves, boxOf);
    SideMembers(indices, halves, boxOf, true);
    SideMembers(indices, halves, boxOf, false);
  }

  lemma {:induction false} SidesPermute(indices: seq<nat>, halves: (Box, Box), boxOf: nat -> Box)
    ensures multiset(Side(indices, halves, boxOf, true)) + multiset(Side(indices, halves, boxOf, false)) == multiset(indices)
  {
    if indices != [] {
      var init, last := indices[..|indices| - 1], indices[|indices| - 1];
      SidesPermute(init, halves, boxOf);
      assert indices == init + [last];
      SideStep(indices, halves, boxOf);
    }
  }

  /** Of the last index, exactly one side gains a copy. */
  lemma SideStep(indices: seq<nat>, halves: (Box, Box), boxOf: nat -> Box)
    requires indices != []
    ensures var init, last := indices[..|indices| - 1], indices[|indices| - 1];
            multiset(Side(indices, halves, boxOf, true)) + multiset(Side(indices, halves, boxOf, false))
            == multiset(Side(init, halves, boxOf, true)) + multiset(Side(init, halves, boxOf, false)) + multiset{last}
  {
    var init, last := indices[..|indices| - 1], indices[|indices| - 1];
    var l, r := Side(init, halves, boxOf, true), Side(init, halves, boxOf, false);
    var g := GoesLeft(Center(boxOf(last)), halves);
    assert Side(indices, halves, boxOf, true) == l + (if g then [last] else []);
    assert Side(indices, halves, boxOf, false) == r + (if g then [] else [last]);
  }

  lemma {:induction false} SideMembers(indices: seq<nat>, halves: (Box, Box), boxOf: nat -> Box, left: bool)
    ensures forall i :: i in Side(indices, halves, boxOf, left) <==> i in indices && GoesLeft(Center(boxOf(i)), halves) == left
  {
    if indices != [] {
      var init, last := indices[..|indices| - 1], indices[|indices| - 1];
      SideMembers(init, halves, boxOf, left);
      assert indices == init + [last];
    }
  }


  /** A mesh centred inside a well-formed parent box lands in a half that holds its centre. */
  lemma CentreLandsInside(b: Box, c: Vec3)
    requires WellFormed(b) && ContainsPoint(b, c)
    ensures GoesLeft(c, Split(b)) ==> ContainsPoint(Split(b).0, c)
    ensures !GoesLeft(c, Split(b)) ==> ContainsPoint(Split(b).1, c)
  {
    SplitHalves(b);
  }

  /** A half after `expand`ing it, in place, by the box of every index of `s`. */
  function Grown(half: Box, s: seq<nat>, boxOf: nat -> Box): (g: Box)
    ensures ExpandOver(Some(half), s, boxOf) == Some(g)
  {
    if s == [] then half else Union(Grown(half, s[..|s| - 1], boxOf), boxOf(s[|s| - 1]))
  }

  /** A grown half contains the half and every member's box, and is the least such box. */
  lemma GrownBounds(half: Box, s: seq<nat>, boxOf: nat -> Box)
    requires WellFormed(half) && forall k :: 0 <= k < |s| ==> WellFormed(boxOf(s[k]))
    ensures WellFormed(Grown(half, s, boxOf)) && ContainsBox(Grown(half, s, boxOf), half)
    ensures AccelBvh.Covers(Grown(half, s, boxOf), s, boxOf)
    ensures forall c :: ContainsBox(c, half) && AccelBvh.Covers(c, s, boxOf) ==> ContainsBox(c, Grown(half, s, boxOf))
  {
    ExpandOverContains(Some(half), s, boxOf);
    forall c | ContainsBox(c, half) && AccelBvh.Covers(c, s, boxOf) ensures ContainsBox(c, Grown(half, s, boxOf)) {
      ExpandOverLeast(Some(half), s, boxOf, c);
    }
  }

  /**
   * `_build`: partitions the indices between the halves, then grows each
   * half by its members' boxes.
   */
  method BuildHalves(indices: seq<nat>, halves: (Box, Box), boxOf: nat -> Box)
    returns (leftIndices: seq<nat>, leftBox: Box, rightIndices: seq<nat>, rightBox: Box)
    ensures leftIndices == Side(indices, halves, boxOf, true) && rightIndices == Side(indices, halves, boxOf, false)
    ensures leftBox == Grown(halves.0, leftIndices, boxOf) && rightBox == Grown(halves.1, rightIndices, boxOf)
  {
    leftIndices, rightIndices := [], [];
    for k := 0 to |indices|
      invariant leftIndices == Side(indices[..k], halves, boxOf, true)
      invariant rightIndices == Side(indices[..k], halves, boxOf, false)
    {
      assert indices[..k + 1][..k] == indices[..k];
      var center := Center(boxOf(indices[k]));
      if ContainsPoint(halves.0, center) {
        leftIndices := leftIndices + [indices[k]];
      } else if ContainsPoint(halves.1, center) {
        rightIndices := rightIndices + [indices[k]];
      } else {
        var distanceLeft := DistSq(center, Center(halves.0));
        var distanceRight := DistSq(center, Center(halves.1));
        if distanceLeft > distanceRight {
          leftIndices := leftIndices + [indices[k]];
        } else {
          rightIndices := rightIndices + [indices[k]];
        }
      }
    }
    assert indices[..|indices|] == indices;
    var l := AccelBvh.ExpandByMembers(Some(halves.0), leftIndices, boxOf);
    var r := AccelBvh.ExpandByMembers(Some(halves.1), rightIndices, boxOf);
    leftBox, rightBox := l.value, r.value;
  }

  /**
   * `_recursive_build`: a leaf when the depth runs out or at most four
   * indices are left, otherwise an inner node over both grown halves one
   * level down. Only a non-negative depth reaches zero.
   */
  function Build(indices: seq<nat>, box: Box, depth: int, boxOf: nat -> Box): AccelBvh.BVHNode
    requires depth >= 0
    decreases depth
  {
    if depth == 0 || |indices| <= AccelBvh.LeafSize then AccelBvh.Leaf(box, indices)
    else
      var halves := Split(box);
      var l, r := Side(indices, halves, boxOf, true), Side(indices, halves, boxOf, false);
      AccelBvh.Inner(box, Build(l, Grown(halves.0, l, boxOf), depth - 1, boxOf),
                          Build(r, Grown(halves.1, r, boxOf), depth - 1, boxOf))
  }

  /** One unfolding of `Build` at a split, given the two sides and their grown boxes. */
  lemma BuildSplits(indices: seq<nat>, box: Box, depth: int, boxOf: nat -> Box,
                    l: seq<nat>, lb: Box, r: seq<nat>, rb: Box)
    requires depth > 0 && |indices| > AccelBvh.LeafSize
    requires l == Side(indices, Split(box), boxOf, true) && lb == Grown(Split(box).0, l, boxOf)
    requires r == Side(indices, Split(box), boxOf, false) && rb == Grown(Split(box).1, r, boxOf)
    ensures Build(indices, box, depth, boxOf) == AccelBvh.Inner(box, Build(l, lb, depth - 1, boxOf), Build(r, rb, depth - 1, boxOf))
  {
  }

  method RecursiveBuild(indices: seq<nat>, box: Box, depth: int, boxOf: nat -> Box) returns (node: AccelBvh.BVHNode)
    requires depth >= 0
    ensures node == Build(indices, box, depth, boxOf)
    decreases depth, 1
  {
    if depth == 0 || |indices| <= AccelBvh.LeafSize {
      node := AccelBvh.Leaf(box, indices);
    } else {
      var leftIndices, leftBox, rightIndices, rightBox := BuildHalves(indices, Split(box), boxOf);
      BuildSplits(indices, box, depth, boxOf, leftIndices, leftBox, rightIndices, rightBox);
      node := BuildChildren(box, leftIndices, leftBox, rightIndices, rightBox, depth, boxOf);
    }
  }

  /** The inner node over both halves, each built one level down. */
  method BuildChildren(box: Box, leftIndices: seq<nat>, leftBox: Box, rightIndices: seq<nat>, rightBox: Box,
                       depth: int, boxOf: nat -> Box) returns (node: AccelBvh.BVHNode)
    requires depth > 0
    ensures node == AccelBvh.Inner(box, Build(leftIndices, leftBox, depth - 1, boxOf), Build(rightIndices, rightBox, depth - 1, boxOf))
    decreases depth, 0
  {
    var left := RecursiveBuild(leftIndices, leftBox, depth - 1, boxOf);
    var right := RecursiveBuild(rightIndices, rightBox, depth - 1, boxOf);
    node := AccelBvh.Inner(box, left, right);
  }

  /**
   * The tree keeps the box passed in at its root, is a leaf exactly when
   * the depth ran out or the indices are few, has every leaf within the
   * depth, and its leaves are a permutation of the input.
   */
  lemma {:induction false} BuildShape(indices: seq<nat>, box: Box, depth: int, boxOf: nat -> Box)
    requires depth >= 0
    ensures var t := Build(indices, box, depth, boxOf);
      && t.box == box
      && (t.Leaf? <==> depth == 0 || |indices| <= AccelBvh.LeafSize)
      && multiset(AccelBvh.Leaves(t)) == multiset(indices)
      && AccelBvh.LeavesBounded(t, depth)
    decreases depth
  {
    if !(depth == 0 || |indices| <= AccelBvh.LeafSize) {
      var halves := Split(box);
      var l, r := Side(indices, halves, boxOf, true), Side(indices, halves, boxOf, false);
      SidesPartition(indices, halves, boxOf);
      BuildShape(l, Grown(halves.0, l, boxOf), depth - 1, boxOf);
      BuildShape(r, Grown(halves.1, r, boxOf), depth - 1, boxOf);
    }
  }

  /**
   * Below a node, each child's box holds the half of the parent it was
   * cut from and the box of every mesh in its leaves.
   */
  ghost predicate ChildBoxesCover(node: AccelBvh.BVHNode, boxOf: nat -> Box)
  {
    match node
    case Leaf(_, _) => true
    case Inner(b, l, r) =>
      ContainsBox(l.box, Split(b).0) && ContainsBox(r.box, Split(b).1)
      && AccelBvh.Covers(l.box, AccelBvh.Leaves(l), boxOf) && AccelBvh.Covers(r.box, AccelBvh.Leaves(r), boxOf)
      && ChildBoxesCover(l, boxOf) && ChildBoxesCover(r, boxOf)
  }

  lemma {:induction false} BuildCovers(indices: seq<nat>, box: Box, depth: int, boxOf: nat -> Box)
    requires depth >= 0 && WellFormed(box) && forall i :: WellFormed(boxOf(i))
    ensures ChildBoxesCover(Build(indices, box, depth, boxOf), boxOf)
    decreases depth
  {
    if !(depth == 0 || |indices| <= AccelBvh.LeafSize) {
      var halves := Split(box);
      SplitHalves(box);
      var l, r := Side(indices, halves, boxOf, true), Side(indices, halves, boxOf, false);
      var lb, rb := Grown(halves.0, l, boxOf), Grown(halves.1, r, boxOf);
      GrownBounds(halves.0, l, boxOf);
      GrownBounds(halves.1, r, boxOf);
      BuildCovers(l, lb, depth - 1, boxOf);
      BuildCovers(r, rb, depth - 1, boxOf);
      var lt, rt := Build(l, lb, depth - 1, boxOf), Build(r, rb, depth - 1, boxOf);
      BuildShape(l, lb, depth - 1, boxOf);
      BuildShape(r, rb, depth - 1, boxOf);
      LeavesCovered(lb, l, AccelBvh.Leaves(lt), boxOf);
      LeavesCovered(rb, r, AccelBvh.Leaves(rt), boxOf);
    }
  }

  /** Covering a list covers any permutation of it. */
  lemma LeavesCovered(b: Box, s: seq<nat>, t: seq<nat>, boxOf: nat -> Box)
    requires AccelBvh.Covers(b, s, boxOf) && multiset(t) == multiset(s)
    ensures AccelBvh.Covers(b, t, boxOf)
  {
    forall k | 0 <= k < |t| ensures ContainsBox(b, boxOf(t[k])) {
      assert t[k] in multiset(s);
      var j :| 0 <= j < |s| && s[j] == t[k];
    }
  }

  class BVH {
    const boxOf: nat -> Box
    const root: AccelBvh.BVHNode

    /** `__init__`: the tree over every mesh index, `max_depth` levels deep at most. */
    constructor (meshCount: nat, boxOf: nat -> Box, bbox: Box, maxDepth: int := 3)
      requires maxDepth >= 0
      ensures this.boxOf == boxOf && root == Build(Range(meshCount), bbox, maxDepth, boxOf)
    {
      this.boxOf := boxOf;
      var built := RecursiveBuild(Range(meshCount), bbox, maxDepth, boxOf);
      root := built;
    }

    /**
     * `find_intersections`: the same traversal as the later BVH, every
     * index of a hit leaf queued at minus its box centre's distance; the
     * heap comes back only from a missed root box.
     */
    method FindIntersections(node: AccelBvh.BVHNode, heap: PrioritySet, ray: Ray) returns (result: Option<PrioritySet>)
      requires ValidRay(ray) && heap.Valid()
      modifies heap
      ensures heap.Valid()
      ensures heap.heap == Enqueue(old(heap.heap), AccelBvh.Visits(node, ray))
      ensures result == if IntersectsBox(ray, node.box) then None else Some(heap)
    {
      result := AccelBvh.FindIntersections(node, heap, ray);
    }
  }
}
