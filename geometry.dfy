/**
 * Stand-ins for the OpenMaya value types the core uses: MPoint/MVector
 * (three real coordinates) and MBoundingBox (a min and a max corner).
 * Distances are compared squared; the square root of a non-negative real
 * is monotone, so every comparison the source makes on `distanceTo` has
 * the same outcome on `DistSq`.
 */
module Geometry {
  import opened Common

  datatype Vec3 = Vec3(x: real, y: real, z: real)

  /** An index into a point's components, as `point[axis]` in the source. */
  type Axis = a: nat | a < 3

  function Coord(v: Vec3, a: Axis): real
  {
    if a == 0 then v.x else if a == 1 then v.y else v.z
  }

  /** `(p + q) / 2`, component-wise. */
  function Midpoint(p: Vec3, q: Vec3): Vec3
  {
    Vec3((p.x + q.x) / 2.0, (p.y + q.y) / 2.0, (p.z + q.z) / 2.0)
  }

  /** The square of `MPoint.distanceTo`. */
  function DistSq(p: Vec3, q: Vec3): real
  {
    (p.x - q.x) * (p.x - q.x) + (p.y - q.y) * (p.y - q.y) + (p.z - q.z) * (p.z - q.z)
  }

  /** An MBoundingBox built from two corners. */
  datatype Box = Box(lo: Vec3, hi: Vec3)

  /** The min corner is below the max corner on every axis. */
  predicate WellFormed(b: Box)
  {
    b.lo.x <= b.hi.x && b.lo.y <= b.hi.y && b.lo.z <= b.hi.z
  }

  /** `MBoundingBox.center`. */
  function Center(b: Box): Vec3
  {
    Midpoint(b.lo, b.hi)
  }

  /** `MBoundingBox.contains(point)`: the boundary counts as inside. */
  predicate ContainsPoint(b: Box, p: Vec3)
  {
    b.lo.x <= p.x <= b.hi.x && b.lo.y <= p.y <= b.hi.y && b.lo.z <= p.z <= b.hi.z
  }

  /** Both corners of `inner` lie in `outer`. */
  predicate ContainsBox(outer: Box, inner: Box)
  {
    ContainsPoint(outer, inner.lo) && ContainsPoint(outer, inner.hi)
  }

  /** `max[axis] - min[axis]`. */
  function Extent(b: Box, a: Axis): real
  {
    Coord(b.hi, a) - Coord(b.lo, a)
  }

  function Min(a: real, b: real): real { if a <= b then a else b }
  function Max(a: real, b: real): real { if a >= b then a else b }

  /** `MBoundingBox.expand(box)` on a non-empty box: the component-wise hull. */
  function Union(a: Box, b: Box): Box
  {
    Box(Vec3(Min(a.lo.x, b.lo.x), Min(a.lo.y, b.lo.y), Min(a.lo.z, b.lo.z)),
        Vec3(Max(a.hi.x, b.hi.x), Max(a.hi.y, b.hi.y), Max(a.hi.z, b.hi.z)))
  }

  /**
   * `acc.expand(b)` where `None` stands for a default-constructed, empty
   * MBoundingBox: expanding the empty box yields `b` itself.
   */
  function Expand(acc: Option<Box>, b: Box): Box
  {
    match acc
    case None => b
    case Some(a) => Union(a, b)
  }

  /**
   * The box an accumulator ends with after `expand`ing it, in order, by
   * the box of every index in `s`.
   */
  function ExpandOver(acc: Option<Box>, s: seq<nat>, boxOf: nat -> Box): Option<Box>
  {
    if |s| == 0 then acc
    else Some(Expand(ExpandOver(acc, s[..|s| - 1], boxOf), boxOf(s[|s| - 1])))
  }

  /** Union of two well-formed boxes contains both and is well-formed. */
  lemma UnionContains(a: Box, b: Box)
    requires WellFormed(a) && WellFormed(b)
    ensures WellFormed(Union(a, b))
    ensures ContainsBox(Union(a, b), a) && ContainsBox(Union(a, b), b)
  {
  }

  /** Every box containing the parts contains their union. */
  lemma UnionLeast(a: Box, b: Box, c: Box)
    requires ContainsBox(c, a) && ContainsBox(c, b)
    ensures ContainsBox(c, Union(a, b))
  {
  }

  /**
   * Expanding by well-formed boxes keeps an accumulator well-formed, makes
   * it contain every member box, and (when it starts empty) yields
   * something for a non-empty list.
   */
  lemma {:induction false} ExpandOverContains(acc: Option<Box>, s: seq<nat>, boxOf: nat -> Box)
    requires acc.Some? ==> WellFormed(acc.value)
    requires forall k :: 0 <= k < |s| ==> WellFormed(boxOf(s[k]))
    ensures (acc.Some? || |s| > 0) <==> ExpandOver(acc, s, boxOf).Some?
    ensures ExpandOver(acc, s, boxOf).Some? ==> WellFormed(ExpandOver(acc, s, boxOf).value)
    ensures acc.Some? ==> ContainsBox(ExpandOver(acc, s, boxOf).value, acc.value)
    ensures forall k :: 0 <= k < |s| ==> ContainsBox(ExpandOver(acc, s, boxOf).value, boxOf(s[k]))
  {
    if |s| > 0 {
      var init := s[..|s| - 1];
      ExpandOverContains(acc, init, boxOf);
      var prev := ExpandOver(acc, init, boxOf);
      var last := boxOf(s[|s| - 1]);
      if prev.Some? {
        UnionContains(prev.value, last);
        var u := Union(prev.value, last);
        forall k | 0 <= k < |s| ensures ContainsBox(u, boxOf(s[k])) {
          if k < |s| - 1 { assert s[k] == init[k]; ContainsTrans(u, prev.value, boxOf(s[k])); }
        }
        if acc.Some? { ContainsTrans(u, prev.value, acc.value); }
      }
    }
  }

  /** Everything a box containing the accumulator and every member also contains the result. */
  lemma {:induction false} ExpandOverLeast(acc: Option<Box>, s: seq<nat>, boxOf: nat -> Box, c: Box)
    requires acc.Some? ==> ContainsBox(c, acc.value)
    requires forall k :: 0 <= k < |s| ==> ContainsBox(c, boxOf(s[k]))
    ensures ExpandOver(acc, s, boxOf).Some? ==> ContainsBox(c, ExpandOver(acc, s, boxOf).value)
  {
    if |s| > 0 {
      var init := s[..|s| - 1];
      forall k | 0 <= k < |init| ensures ContainsBox(c, boxOf(init[k])) { assert init[k] == s[k]; }
      ExpandOverLeast(acc, init, boxOf, c);
      var prev := ExpandOver(acc, init, boxOf);
      if prev.Some? { UnionLeast(prev.value, boxOf(s[|s| - 1]), c); }
    }
  }

  lemma ContainsTrans(a: Box, b: Box, c: Box)
    requires ContainsBox(a, b) && ContainsBox(b, c)
    ensures ContainsBox(a, c)
  {
  }
}
