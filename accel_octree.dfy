/**
 * `core/acceleration_structures/octree.py`: a sparse octree whose cells
 * are built by filtering mesh indices with an overlap test, whose empty
 * cells are deleted, and whose query collects the indices of every cell
 * the ray passes through and probes them all.
 *
 * The overlap test `_does_overlap` (a mesh's transformed bounding box
 * against a cell) is the parameter `overlaps(i, box)`.
 */
module AccelOctree {
  import opened Common
  import opened Geometry
  import opened Rays
  import opened Tuples
  import opened Probes

  /**
   * A node of the octree: `_recursive_build` returns a dict from octant box
   * to either a list of indices (at the last level) or another such dict.
   * The dict keeps insertion order, so a dict is a sequence of octants.
   */
  datatype Cell = Leaf(items: seq<nat>) | Grid(octants: seq<Octant>)
  datatype Octant = Octant(box: Box, cell: Cell)

  /** Which half an octant takes on the x, y and z axes: `true` is `[mid, max]`. */
  type Code = (bool, bool, bool)

  /** The octants of `_split`, in the order of its dict literal. */
  const Codes: seq<Code> := [(false, false, false), (false, true, false), (true, true, false), (true, false, false),
                             (false, false, true), (false, true, true), (true, true, true), (true, false, true)]

  function Bit(c: Code, a: Axis): bool
  {
    if a == 0 then c.0 else if a == 1 then c.1 else c.2
  }

  function OctantBox(b: Box, c: Code): Box
  {
    var m := Center(b);
    Box(Vec3(if c.0 then m.x else b.lo.x, if c.1 then m.y else b.lo.y, if c.2 then m.z else b.lo.z),
        Vec3(if c.0 then b.hi.x else m.x, if c.1 then b.hi.y else m.y, if c.2 then b.hi.z else m.z))
  }

  /** `_split`: the eight octants of `b` around its centre. */
  function Split(b: Box): (r: seq<Box>)
    ensures |r| == 8
  {
    seq(8, k requires 0 <= k < 8 => OctantBox(b, Codes[k]))
  }

  /** The position of a code in `Codes`. */
  function CodeIndex(c: Code): (k: nat)
    ensures k < 8 && Codes[k] == c
  {
    match c
    case (false, false, false) => 0
    case (false, true, false) => 1
    case (true, true, false) => 2
    case (true, false, false) => 3
    case (false, false, true) => 4
    case (false, true, true) => 5
    case (true, true, true) => 6
    case (true, false, true) => 7
  }

  /**
   * On every axis an octant spans `[min, mid]` or `[mid, max]` of its
   * parent as its code says, and the eight codes are pairwise distinct.
   */
  lemma SplitHalves(b: Box)
    ensures forall k, a: Axis :: 0 <= k < 8 ==>
              Coord(Split(b)[k].lo, a) == (if Bit(Codes[k], a) then Coord(Center(b), a) else Coord(b.lo, a))
              && Coord(Split(b)[k].hi, a) == (if Bit(Codes[k], a) then Coord(b.hi, a) else Coord(Center(b), a))
    ensures forall i, j :: 0 <= i < j < 8 ==> Codes[i] != Codes[j]
  {
  }

  /** Of a well-formed box, the octants are well formed and lie inside it. */
  lemma SplitInside(b: Box)
    requires WellFormed(b)
    ensures forall k :: 0 <= k < 8 ==> WellFormed(Split(b)[k]) && ContainsBox(b, Split(b)[k])
  {
  }

  /** The octants cover the parent: every point of it lies in one of them. */
  lemma SplitCovers(b: Box, p: Vec3)
    requires WellFormed(b) && ContainsPoint(b, p)
    ensures exists k :: 0 <= k < 8 && ContainsPoint(Split(b)[k], p)
  {
    var m := Center(b);
    var k := CodeIndex((p.x >= m.x, p.y >= m.y, p.z >= m.z));
    assert ContainsPoint(Split(b)[k], p);
  }

  /** `[i for i in indices if overlaps(i, box)]`, the loop of `_build`. */
  function Filter(indices: seq<nat>, box: Box, overlaps: (nat, Box) -> bool): seq<nat>
  {
    if indices == [] then []
    else
      var last := indices[|indices| - 1];
      Filter(indices[..|indices| - 1], box, overlaps) + (if overlaps(last, box) then [last] else [])
  }

  /** The filter keeps exactly the overlapping indices. */
  lemma {:induction false} FilterMembers(indices: seq<nat>, box: Box, overlaps: (nat, Box) -> bool)
    ensures forall i :: i in Filter(indices, box, overlaps) <==> i in indices && overlaps(i, box)
    ensures |Filter(indices, box, overlaps)| <= |indices|
  {
    if indices != [] {
      var init, last := indices[..|indices| - 1], indices[|indices| - 1];
      FilterMembers(init, box, overlaps);
      assert indices == init + [last];
      forall i | i in indices && i != last ensures i in init {
        var k :| 0 <= k < |indices| && indices[k] == i;
        assert init[k] == i;
      }
    }
  }

  /** The filter keeps the original order: it distributes over concatenation. */
  lemma {:induction false} FilterConcat(a: seq<nat>, b: seq<nat>, box: Box, overlaps: (nat, Box) -> bool)
    ensures Filter(a + b, box, overlaps) == Filter(a, box, overlaps) + Filter(b, box, overlaps)
    decreases |b|
  {
    if b != [] {
      var init, last := b[..|b| - 1], b[|b| - 1];
      var tail := if overlaps(last, box) then [last] else [];
      assert (a + b)[..|a + b| - 1] == a + init;
      assert (a + b)[|a + b| - 1] == last;
      FilterConcat(a, init, box, overlaps);
      assert Filter(a + b, box, overlaps) == Filter(a, box, overlaps) + Filter(init, box, overlaps) + tail;
      assert Filter(b, box, overlaps) == Filter(init, box, overlaps) + tail;
    } else {
      assert a + b == a;
    }
  }

  /** `_build`: the loop that keeps, in order, the indices overlapping `box`. */
  method BuildList(box: Box, indices: seq<nat>, overlaps: (nat, Box) -> bool) returns (indexList: seq<nat>)
    ensures indexList == Filter(indices, box, overlaps)
  {
    indexList := [];
    for k := 0 to |indices|
      invariant indexList == Filter(indices[..k], box, overlaps)
    {
      assert indices[..k + 1][..k] == indices[..k];
      if overlaps(indices[k], box) {
        indexList := indexList + [indices[k]];
      }
    }
    assert indices[..|indices|] == indices;
  }

  /**
   * `_recursive_build`: the depth is decremented first; the eight octants
   * are filled and those whose filtered list is empty are then deleted.
   * Only a positive depth reaches zero.
   */
  function Build(indices: seq<nat>, box: Box, depth: int, overlaps: (nat, Box) -> bool): Cell
    requires depth >= 1
    decreases depth, 2
  {
    Grid(Pruned(Split(box), indices, depth - 1, overlaps))
  }

  /**
   * The slot of octant `part` once filled: at the last level its filtered
   * list, above it the octree built one level down from that list, or the
   * initial empty dict when the list is empty (such a slot is deleted).
   */
  function Filled(part: Box, indices: seq<nat>, level: int, overlaps: (nat, Box) -> bool): Octant
    requires level >= 0
    decreases level + 1, 0
  {
    var f := Filter(indices, part, overlaps);
    if level == 0 then Octant(part, Leaf(f))
    else if |f| == 0 then Octant(part, Grid([]))
    else Octant(part, Build(f, part, level, overlaps))
  }

  /** The filled slots of `parts` that survive deletion, in dict order. */
  function Pruned(parts: seq<Box>, indices: seq<nat>, level: int, overlaps: (nat, Box) -> bool): seq<Octant>
    requires level >= 0
    decreases level + 1, 1, |parts|
  {
    if parts == [] then []
    else
      var last := parts[|parts| - 1];
      Pruned(parts[..|parts| - 1], indices, level, overlaps)
      + (if |Filter(indices, last, overlaps)| == 0 then [] else [Filled(last, indices, level, overlaps)])
  }

  /**
   * An octant survives exactly when some index overlaps it, and a
   * surviving octant is filled from the filtered list of its own box.
   */
  lemma {:induction false} PrunedAre(parts: seq<Box>, indices: seq<nat>, level: int, overlaps: (nat, Box) -> bool)
    requires level >= 0
    ensures forall o :: o in Pruned(parts, indices, level, overlaps) ==>
              o.box in parts && |Filter(indices, o.box, overlaps)| > 0 && o == Filled(o.box, indices, level, overlaps)
    ensures forall b :: b in parts && |Filter(indices, b, overlaps)| > 0 ==>
              Filled(b, indices, level, overlaps) in Pruned(parts, indices, level, overlaps)
  {
    if parts != [] {
      var init := parts[..|parts| - 1];
      PrunedAre(init, indices, level, overlaps);
      assert parts == init + [parts[|parts| - 1]];
    }
  }

  /**
   * The imperative `_recursive_build`: fill every slot, remember the empty
   * ones, then delete them.
   */
  method RecursiveBuild(indices: seq<nat>, initialBox: Box, depth: int, overlaps: (nat, Box) -> bool) returns (cell: Cell)
    requires depth >= 1
    ensures cell == Build(indices, initialBox, depth, overlaps)
    decreases depth
  {
    var level := depth - 1;
    var parts := Split(initialBox);
    var slots: seq<Octant> := [];
    var keysToDelete: set<nat> := {};
    for k := 0 to 8
      invariant |slots| == k
      invariant forall j :: 0 <= j < k ==> slots[j] == Filled(parts[j], indices, level, overlaps)
      invariant forall j :: j in keysToDelete <==> 0 <= j < k && |Filter(indices, parts[j], overlaps)| == 0
    {
      var newIndices := BuildList(parts[k], indices, overlaps);
      if level == 0 {
        slots := slots + [Octant(parts[k], Leaf(newIndices))];
      } else if |newIndices| == 0 {
        slots := slots + [Octant(parts[k], Grid([]))];
      } else {
        var sub := RecursiveBuild(newIndices, parts[k], level, overlaps);
        slots := slots + [Octant(parts[k], sub)];
      }
      if |newIndices| == 0 {
        keysToDelete := keysToDelete + {k};
      }
    }
    var kept := DropEmpty(parts, slots, keysToDelete, indices, level, overlaps);
    cell := Grid(kept);
  }

  /** The deletion pass of `_recursive_build`: every slot whose key was marked is dropped. */
  method DropEmpty(parts: seq<Box>, slots: seq<Octant>, keysToDelete: set<nat>, indices: seq<nat>,
                   level: int, overlaps: (nat, Box) -> bool) returns (kept: seq<Octant>)
    requires level >= 0 && |parts| == |slots|
    requires forall j :: 0 <= j < |slots| ==> slots[j] == Filled(parts[j], indices, level, overlaps)
    requires forall j :: j in keysToDelete <==> 0 <= j < |slots| && |Filter(indices, parts[j], overlaps)| == 0
    ensures kept == Pruned(parts, indices, level, overlaps)
  {
    kept := [];
    for k := 0 to |parts|
      invariant kept == Pruned(parts[..k], indices, level, overlaps)
    {
      assert parts[..k + 1][..k] == parts[..k];
      if k !in keysToDelete {
        kept := kept + [slots[k]];
      }
    }
    assert parts[..|parts|] == parts;
  }

  /**
   * The built octree has `levels` levels of octant dicts, each octant one
   * of `_split`'s boxes of its parent, and only in the last level lists,
   * none of them empty.
   */
  ghost predicate Shaped(c: Cell, box: Box, levels: nat)
    decreases levels
  {
    c.Grid? && forall o :: o in c.octants ==>
      o.box in Split(box)
      && if levels <= 1 then o.cell.Leaf? && |o.cell.items| > 0 else Shaped(o.cell, o.box, levels - 1)
  }

  lemma {:induction false} BuildShaped(indices: seq<nat>, box: Box, depth: int, overlaps: (nat, Box) -> bool)
    requires depth >= 1
    ensures Shaped(Build(indices, box, depth, overlaps), box, depth)
    decreases depth
  {
    var level := depth - 1;
    PrunedAre(Split(box), indices, level, overlaps);
    forall o | o in Build(indices, box, depth, overlaps).octants
      ensures if depth <= 1 then o.cell.Leaf? && |o.cell.items| > 0 else Shaped(o.cell, o.box, depth - 1)
    {
      if depth > 1 {
        BuildShaped(Filter(indices, o.box, overlaps), o.box, level, overlaps);
      }
    }
  }

  /** Every index stored anywhere in the octree. */
  function Stored(c: Cell): set<nat>
    decreases c
  {
    match c
    case Leaf(items) => set i | i in items
    case Grid(os) => set o, i | o in os && i in Stored(o.cell) :: i
  }

  /** Everything stored comes from the input list, and overlaps the box of its leaf octant. */
  lemma {:induction false} BuildSound(indices: seq<nat>, box: Box, depth: int, overlaps: (nat, Box) -> bool)
    requires depth >= 1
    ensures Stored(Build(indices, box, depth, overlaps)) <= set i | i in indices
    decreases depth
  {
    var level := depth - 1;
    PrunedAre(Split(box), indices, level, overlaps);
    forall o, i | o in Build(indices, box, depth, overlaps).octants && i in Stored(o.cell) ensures i in indices {
      var f := Filter(indices, o.box, overlaps);
      FilterMembers(indices, o.box, overlaps);
      if depth > 1 {
        BuildSound(f, o.box, level, overlaps);
      }
    }
  }

  /** The indices of all leaves reached through octants the ray intersects. */
  function Collected(c: Cell, ray: Ray): set<nat>
    requires ValidRay(ray)
    decreases c
  {
    match c
    case Leaf(items) => set i | i in items
    case Grid(os) => set o, i | o in os && IntersectsBox(ray, o.box) && i in Collected(o.cell, ray) :: i
  }

  lemma {:induction false} CollectedStored(c: Cell, ray: Ray)
    requires ValidRay(ray)
    ensures Collected(c, ray) <= Stored(c)
    decreases c
  {
    if c.Grid? {
      forall o, i | o in c.octants && IntersectsBox(ray, o.box) && i in Collected(o.cell, ray) ensures i in Stored(c) {
        CollectedStored(o.cell, ray);
      }
    }
  }

  /** What `Collected` gathers from the octants `os`. */
  function CollectedFrom(os: seq<Octant>, ray: Ray): set<nat>
    requires ValidRay(ray)
  {
    set o, i | o in os && IntersectsBox(ray, o.box) && i in Collected(o.cell, ray) :: i
  }

  lemma CollectedFromSnoc(os: seq<Octant>, k: nat, ray: Ray)
    requires ValidRay(ray) && k < |os|
    ensures CollectedFrom(os[..k + 1], ray) ==
            CollectedFrom(os[..k], ray) + (if IntersectsBox(ray, os[k].box) then Collected(os[k].cell, ray) else {})
  {
    assert os[..k + 1] == os[..k] + [os[k]];
    assert forall o :: o in os[..k + 1] <==> o in os[..k] || o == os[k];
  }

  /**
   * `find_intersections` over the dict `c`: nothing when no key box is hit
   * (`closest_bbox` gives `None`), otherwise the leaf lists of every hit
   * box, descending into hit sub-dicts, added to `indices`.
   */
  method FindIntersections(c: Cell, indices: set<nat>, ray: Ray) returns (result: set<nat>)
    requires ValidRay(ray) && c.Grid?
    ensures result == indices + Collected(c, ray)
    decreases c
  {
    var os := c.octants;
    assert Collected(c, ray) == CollectedFrom(os, ray);
    var keys := seq(|os|, k requires 0 <= k < |os| => os[k].box);
    var closest := ClosestBox(ray, keys);
    if closest.None? {
      forall o | o in os ensures !IntersectsBox(ray, o.box) {
        var k :| 0 <= k < |os| && os[k] == o;
        assert keys[k] == o.box;
      }
      return indices;
    }
    result := indices;
    for k := 0 to |os|
      invariant result == indices + CollectedFrom(os[..k], ray)
    {
      CollectedFromSnoc(os, k, ray);
      var o := os[k];
      if IntersectsBox(ray, o.box) {
        match o.cell
        case Leaf(items) =>
          result := result + set i | i in items;
        case Grid(_) =>
          result := FindIntersections(o.cell, result, ray);
      }
    }
    assert os[..|os|] == os;
  }

  /**
   * If the ray reaches a point `p` of the root box, every index whose mesh
   * overlaps each box around `p` is collected: the octree loses no
   * candidate the overlap test vouches for.
   */
  lemma {:induction false} BuildFindsRayPoint(indices: seq<nat>, box: Box, depth: int, overlaps: (nat, Box) -> bool,
                                             ray: Ray, t: real, i: nat)
    requires depth >= 1 && ValidRay(ray) && WellFormed(box) && 0.0 <= t && ContainsPoint(box, At(ray, t))
    requires i in indices
    requires forall b :: WellFormed(b) && ContainsPoint(b, At(ray, t)) ==> overlaps(i, b)
    ensures i in Collected(Build(indices, box, depth, overlaps), ray)
    decreases depth
  {
    var part := StepDown(indices, box, depth, overlaps, ray, t, i);
    var o := Filled(part, indices, depth - 1, overlaps);
    if depth > 1 {
      BuildFindsRayPoint(Filter(indices, part, overlaps), part, depth - 1, overlaps, ray, t, i);
    }
    assert i in Collected(o.cell, ray);
  }

  /**
   * One level of `BuildFindsRayPoint`: the octant holding the ray's point
   * keeps `i` in its filtered list, survives, and is hit by the ray.
   */
  lemma StepDown(indices: seq<nat>, box: Box, depth: int, overlaps: (nat, Box) -> bool, ray: Ray, t: real, i: nat)
    returns (part: Box)
    requires depth >= 1 && ValidRay(ray) && WellFormed(box) && 0.0 <= t && ContainsPoint(box, At(ray, t))
    requires i in indices
    requires forall b :: WellFormed(b) && ContainsPoint(b, At(ray, t)) ==> overlaps(i, b)
    ensures WellFormed(part) && ContainsPoint(part, At(ray, t)) && IntersectsBox(ray, part)
    ensures i in Filter(indices, part, overlaps)
    ensures Filled(part, indices, depth - 1, overlaps) in Build(indices, box, depth, overlaps).octants
  {
    part := PartHolding(box, At(ray, t));
    FilterMembers(indices, part, overlaps);
    PrunedAre(Split(box), indices, depth - 1, overlaps);
    IntersectsIffPointOnRay(ray, part);
  }


  /** A well-formed octant of `box` that holds the point `p` of `box`. */
  lemma PartHolding(box: Box, p: Vec3) returns (part: Box)
    requires WellFormed(box) && ContainsPoint(box, p)
    ensures part in Split(box) && WellFormed(part) && ContainsPoint(part, p)
  {
    SplitCovers(box, p);
    SplitInside(box);
    var k :| 0 <= k < 8 && ContainsPoint(Split(box)[k], p);
    part := Split(box)[k];
  }



  /** `order` lists the members of `s`, each once. */
  ghost predicate Enumerates(order: seq<nat>, s: set<nat>)
  {
    (forall x :: x in order <==> x in s) && forall i, j :: 0 <= i < j < |order| ==> order[i] != order[j]
  }

  /**
   * The query loop of `get_closest_intersection`: every candidate is
   * probed in the set's iteration order `order`, the hits are recorded in
   * that order (the `distances` and `intersections` dicts), and the first
   * least distance wins. `None` exactly when no candidate is hit.
   */
  method NearestOf(candidates: set<nat>, probe: nat -> Option<Vec3>, origin: Vec3) returns (r: Option<Hit>, ghost order: seq<nat>)
    ensures Enumerates(order, candidates)
    ensures r.None? <==> forall i :: i in candidates ==> probe(i).None?
    ensures r.Some? ==> r.value.index in candidates && probe(r.value.index) == Some(r.value.point)
    ensures r.Some? ==> forall i :: i in candidates && probe(i).Some? ==>
                          DistSq(origin, r.value.point) <= DistSq(origin, probe(i).value)
    ensures r.Some? ==> exists k :: IsFirstMin(Distances(Recorded(order, probe, origin)), k)
                                    && Recorded(order, probe, origin)[k].1 == r.value.index
  {
    var remaining := candidates;
    order := [];
    var hits: seq<Keyed> := [];
    var points: seq<Vec3> := [];
    while |remaining| > 0
      invariant forall x :: x in order <==> x in candidates && x !in remaining
      invariant remaining <= candidates
      invariant forall i, j :: 0 <= i < j < |order| ==> order[i] != order[j]
      invariant hits == Recorded(order, probe, origin)
      invariant |points| == |hits| && forall j :: 0 <= j < |hits| ==> probe(hits[j].1) == Some(points[j])
      decreases |remaining|
    {
      ghost var some := NonEmptyHasMember(remaining);
      var index :| index in remaining;
      RecordedAppend(order, index, probe, origin);
      var hit := probe(index);
      if hit.Some? {
        hits := hits + [(DistSq(origin, hit.value), index)];
        points := points + [hit.value];
      }
      order := order + [index];
      remaining := remaining - {index};
    }
    RecordedMembers(order, probe, origin);
    forall i | i in candidates && probe(i).Some? ensures (DistSq(origin, probe(i).value), i) in hits {
      assert i in order;
    }
    if |hits| > 0 {
      var k := FirstMinIndex(Distances(hits));
      FirstMinIsNearest(order, probe, origin, k);
      r := Some(Hit(hits[k].1, points[k]));
    } else {
      r := None;
    }
  }

  /** The cube `(-1, -1, -1)`–`(1, 1, 1)`, the default root box. */
  const DefaultBox := Box(Vec3(-1.0, -1.0, -1.0), Vec3(1.0, 1.0, 1.0))

  class Octree {
    const grid: Cell
    const maxDepth: int
    const overlaps: (nat, Box) -> bool

    /** `__init__`: builds the octree over every mesh index with `depth` levels. */
    constructor (meshCount: nat, overlaps: (nat, Box) -> bool, bbox: Box := DefaultBox, depth: int := 3)
      requires depth >= 1
      ensures grid == Build(Range(meshCount), bbox, depth, overlaps) && maxDepth == depth
      ensures this.overlaps == overlaps
    {
      this.overlaps := overlaps;
      maxDepth := depth;
      var built := RecursiveBuild(Range(meshCount), bbox, depth, overlaps);
      grid := built;
    }

    /**
     * `get_closest_intersection`: the candidates the ray collects from the
     * octree, probed; their nearest hit, or `None`.
     */
    method GetClosestIntersection(probe: nat -> Option<Vec3>, ray: Ray) returns (r: Option<Hit>, ghost order: seq<nat>)
      requires ValidRay(ray) && grid.Grid?
      ensures Enumerates(order, Collected(grid, ray))
      ensures r.None? <==> forall i :: i in Collected(grid, ray) ==> probe(i).None?
      ensures r.Some? ==> r.value.index in Collected(grid, ray) && probe(r.value.index) == Some(r.value.point)
      ensures r.Some? ==> forall i :: i in Collected(grid, ray) && probe(i).Some? ==>
                            DistSq(ray.origin, r.value.point) <= DistSq(ray.origin, probe(i).value)
    {
      var indices := FindIntersections(grid, {}, ray);
      r, order := NearestOf(indices, probe, ray.origin);
    }
  }
}
