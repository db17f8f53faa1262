/**
 * `core/ray.py`: a ray with an origin and a direction, the slab test
 * against an axis-aligned box, and the choice of the intersecting box
 * whose centre is nearest the origin.
 */
module Rays {
  import opened Common
  import opened Geometry

  datatype Ray = Ray(origin: Vec3, direction: Vec3)

  /** The `AssertionError` of the constructor's length checks. */
  datatype RayError = WrongLength

  /** `Ray(origin, direction)`: both lists must have exactly three entries. */
  function NewRay(origin: seq<real>, direction: seq<real>): (r: Result<Ray, RayError>)
    ensures r.Ok? <==> |origin| == 3 && |direction| == 3
    ensures r.Ok? ==> [r.value.origin.x, r.value.origin.y, r.value.origin.z] == origin
    ensures r.Ok? ==> [r.value.direction.x, r.value.direction.y, r.value.direction.z] == direction
  {
    if |origin| != 3 || |direction| != 3 then Err(WrongLength)
    else Ok(Ray(Vec3(origin[0], origin[1], origin[2]), Vec3(direction[0], direction[1], direction[2])))
  }

  /**
   * The slab test divides by every direction component, and Python raises
   * on a float division by zero, so a usable ray has none equal to zero.
   */
  predicate ValidRay(r: Ray)
  {
    r.direction.x != 0.0 && r.direction.y != 0.0 && r.direction.z != 0.0
  }

  /** The point `origin + t * direction`. */
  function At(r: Ray, t: real): Vec3
  {
    Vec3(r.origin.x + t * r.direction.x, r.origin.y + t * r.direction.y, r.origin.z + t * r.direction.z)
  }

  /** The ray parameter at which the ray crosses the plane `coordinate a == plane`. */
  function SlabT(r: Ray, a: Axis, plane: real): real
    requires ValidRay(r)
  {
    (plane - Coord(r.origin, a)) / Coord(r.direction, a)
  }

  /** Entry parameter of the ray into a box's slab on axis `a`. */
  function SlabEnter(r: Ray, b: Box, a: Axis): real
    requires ValidRay(r)
  {
    Min(SlabT(r, a, Coord(b.lo, a)), SlabT(r, a, Coord(b.hi, a)))
  }

  /** Exit parameter of the ray from a box's slab on axis `a`. */
  function SlabExit(r: Ray, b: Box, a: Axis): real
    requires ValidRay(r)
  {
    Max(SlabT(r, a, Coord(b.lo, a)), SlabT(r, a, Coord(b.hi, a)))
  }

  /** `t_enter`: the latest slab entry. */
  function TEnter(r: Ray, b: Box): real
    requires ValidRay(r)
  {
    Max(Max(SlabEnter(r, b, 0), SlabEnter(r, b, 1)), SlabEnter(r, b, 2))
  }

  /** `t_exit`: the earliest slab exit. */
  function TExit(r: Ray, b: Box): real
    requires ValidRay(r)
  {
    Min(Min(SlabExit(r, b, 0), SlabExit(r, b, 1)), SlabExit(r, b, 2))
  }

  /** `Ray.intersect_bbox`: a miss exactly when `t_enter > t_exit or t_exit < 0`. */
  predicate IntersectsBox(r: Ray, b: Box)
    requires ValidRay(r)
  {
    !(TEnter(r, b) > TExit(r, b) || TExit(r, b) < 0.0)
  }

  /** On one axis, the ray's point at `t` lies in the slab exactly when `t` lies between the slab parameters. */
  lemma SlabAxis(o: real, d: real, lo: real, hi: real, t: real)
    requires d != 0.0 && lo <= hi
    ensures (lo <= o + t * d <= hi) <==>
            (Min((lo - o) / d, (hi - o) / d) <= t <= Max((lo - o) / d, (hi - o) / d))
  {
    var tl, th := (lo - o) / d, (hi - o) / d;
    assert tl * d == lo - o;
    assert th * d == hi - o;
    var p, q, w := (t - tl) * d, (th - t) * d, (th - tl) * d;
    assert o + t * d - lo == p;
    assert hi - (o + t * d) == q;
    assert w == hi - lo;
    if d > 0.0 {
      SignOfProduct(t - tl, d);
      SignOfProduct(th - t, d);
      SignOfProduct(th - tl, d);
    } else {
      SignOfNegProduct(t - tl, d);
      SignOfNegProduct(th - t, d);
      SignOfNegProduct(th - tl, d);
      assert (o + t * d <= hi) <==> q >= 0.0;
    }
  }

  lemma SignOfProduct(a: real, d: real)
    requires d > 0.0
    ensures a * d >= 0.0 <==> a >= 0.0
    ensures a * d <= 0.0 <==> a <= 0.0
  {
    if a < 0.0 { assert a * d == -((-a) * d); }
  }

  lemma SignOfNegProduct(a: real, d: real)
    requires d < 0.0
    ensures a * d >= 0.0 <==> a <= 0.0
  {
    SignOfProduct(a, -d);
    assert a * d == -(a * (-d));
  }

  predicate InSlab(r: Ray, b: Box, a: Axis, t: real)
    requires ValidRay(r)
  {
    SlabEnter(r, b, a) <= t <= SlabExit(r, b, a)
  }

  lemma InSlabOnAxis(r: Ray, b: Box, a: Axis, t: real)
    requires ValidRay(r) && Coord(b.lo, a) <= Coord(b.hi, a)
    ensures (Coord(b.lo, a) <= Coord(At(r, t), a) <= Coord(b.hi, a)) <==> InSlab(r, b, a, t)
  {
    var o, d, lo, hi := Coord(r.origin, a), Coord(r.direction, a), Coord(b.lo, a), Coord(b.hi, a);
    assert Coord(At(r, t), a) == o + t * d;
    assert SlabEnter(r, b, a) == Min((lo - o) / d, (hi - o) / d);
    assert SlabExit(r, b, a) == Max((lo - o) / d, (hi - o) / d);
    SlabAxis(o, d, lo, hi, t);
  }

  lemma InSlabIff(r: Ray, b: Box, t: real)
    requires ValidRay(r) && WellFormed(b)
    ensures ContainsPoint(b, At(r, t)) <==> InSlab(r, b, 0, t) && InSlab(r, b, 1, t) && InSlab(r, b, 2, t)
  {
    InSlabOnAxis(r, b, 0, t);
    InSlabOnAxis(r, b, 1, t);
    InSlabOnAxis(r, b, 2, t);
  }

  /**
   * The slab test is exact for a well-formed box: it reports a hit exactly
   * when some point of the ray at a non-negative parameter lies in the
   * closed box. Touching a face or an edge (`t_enter == t_exit`) is a hit.
   */
  lemma IntersectsIffPointOnRay(r: Ray, b: Box)
    requires ValidRay(r) && WellFormed(b)
    ensures IntersectsBox(r, b) <==> exists t :: 0.0 <= t && ContainsPoint(b, At(r, t))
  {
    if IntersectsBox(r, b) {
      var t := Max(TEnter(r, b), 0.0);
      InSlabIff(r, b, t);
      assert ContainsPoint(b, At(r, t));
    }
    forall t | 0.0 <= t && ContainsPoint(b, At(r, t)) ensures IntersectsBox(r, b) {
      InSlabIff(r, b, t);
    }
  }

  /** A box that contains the ray origin is always hit. */
  lemma OriginInsideIsHit(r: Ray, b: Box)
    requires ValidRay(r) && WellFormed(b) && ContainsPoint(b, r.origin)
    ensures IntersectsBox(r, b)
  {
    IntersectsIffPointOnRay(r, b);
    assert At(r, 0.0) == r.origin;
  }

  /**
   * A box lying entirely behind the origin along one axis (on the side
   * the direction points away from) is a miss.
   */
  lemma BehindIsMiss(r: Ray, b: Box, a: Axis)
    requires ValidRay(r) && WellFormed(b)
    requires (Coord(r.direction, a) > 0.0 && Coord(b.hi, a) < Coord(r.origin, a))
          || (Coord(r.direction, a) < 0.0 && Coord(b.lo, a) > Coord(r.origin, a))
    ensures !IntersectsBox(r, b)
  {
    var o, d := Coord(r.origin, a), Coord(r.direction, a);
    var lo, hi := Coord(b.lo, a), Coord(b.hi, a);
    NegativeQuotient(lo - o, d);
    NegativeQuotient(hi - o, d);
    assert SlabExit(r, b, a) < 0.0;
    assert TExit(r, b) <= SlabExit(r, b, a);
  }

  /** A quotient of operands of opposite sign is negative. */
  lemma NegativeQuotient(n: real, d: real)
    requires (n < 0.0 && d > 0.0) || (n > 0.0 && d < 0.0)
    ensures n / d < 0.0
  {
    var q := n / d;
    assert q * d == n;
    if d > 0.0 {
      SignOfProduct(q, d);
    } else {
      SignOfNegProduct(q, d);
    }
  }


  /** MirrorRay and MirrorBox reflect the ray and the box through the plane `coordinate a == 0`. */
  function Negate(v: Vec3, a: Axis): Vec3
  {
    if a == 0 then v.(x := -v.x) else if a == 1 then v.(y := -v.y) else v.(z := -v.z)
  }

  function MirrorRay(r: Ray, a: Axis): Ray
  {
    Ray(Negate(r.origin, a), Negate(r.direction, a))
  }

  /** The reflected box: its min face on axis `a` is the reflection of the max face, and vice versa. */
  function MirrorBox(b: Box, a: Axis): Box
  {
    var lo, hi := Negate(b.hi, a), Negate(b.lo, a);
    Box(if a == 0 then b.lo.(x := lo.x) else if a == 1 then b.lo.(y := lo.y) else b.lo.(z := lo.z),
        if a == 0 then b.hi.(x := hi.x) else if a == 1 then b.hi.(y := hi.y) else b.hi.(z := hi.z))
  }

  /**
   * Entry and exit take the per-axis minimum and maximum of the two slab
   * parameters, so flipping the sign of a direction component (and
   * reflecting the scene with it, which swaps that axis's faces) does not
   * change the verdict.
   */
  lemma MirrorKeepsVerdict(r: Ray, b: Box, a: Axis)
    requires ValidRay(r)
    ensures ValidRay(MirrorRay(r, a))
    ensures IntersectsBox(MirrorRay(r, a), MirrorBox(b, a)) == IntersectsBox(r, b)
  {
    var r', b' := MirrorRay(r, a), MirrorBox(b, a);
    var o, d := Coord(r.origin, a), Coord(r.direction, a);
    var lo, hi := Coord(b.lo, a), Coord(b.hi, a);
    assert SlabT(r', a, Coord(b'.lo, a)) == (-hi - -o) / -d == (hi - o) / d;
    assert SlabT(r', a, Coord(b'.hi, a)) == (-lo - -o) / -d == (lo - o) / d;
    assert SlabEnter(r', b', a) == SlabEnter(r, b, a);
    assert SlabExit(r', b', a) == SlabExit(r, b, a);
    forall k: Axis | k != a ensures SlabEnter(r', b', k) == SlabEnter(r, b, k) && SlabExit(r', b', k) == SlabExit(r, b, k) {
      assert Coord(r'.origin, k) == Coord(r.origin, k) && Coord(r'.direction, k) == Coord(r.direction, k);
      assert Coord(b'.lo, k) == Coord(b.lo, k) && Coord(b'.hi, k) == Coord(b.hi, k);
    }
  }

  /** Squared distance from the ray origin to a box centre, the key of `closest_bbox`. */
  function CentreDistSq(r: Ray, b: Box): real
  {
    DistSq(Center(b), r.origin)
  }

  /**
   * `boxes[k]` is what `closest_bbox` settles on: it is hit, no hit box is
   * nearer, and every earlier hit box is strictly farther (the comparison
   * is a strict `<`, so the first of equally near boxes wins).
   */
  ghost predicate IsClosest(r: Ray, boxes: seq<Box>, k: int, upTo: int)
    requires ValidRay(r) && 0 <= upTo <= |boxes|
  {
    && 0 <= k < upTo
    && IntersectsBox(r, boxes[k])
    && (forall j :: 0 <= j < upTo && IntersectsBox(r, boxes[j]) ==> CentreDistSq(r, boxes[k]) <= CentreDistSq(r, boxes[j]))
    && (forall j :: 0 <= j < k && IntersectsBox(r, boxes[j]) ==> CentreDistSq(r, boxes[j]) > CentreDistSq(r, boxes[k]))
  }

  /** `Ray.closest_bbox`: `None` exactly when no box is hit, otherwise the nearest hit box by centre distance. */
  method ClosestBox(r: Ray, boxes: seq<Box>) returns (closest: Option<Box>)
    requires ValidRay(r)
    ensures closest.None? <==> forall k :: 0 <= k < |boxes| ==> !IntersectsBox(r, boxes[k])
    ensures closest.Some? ==> exists k :: IsClosest(r, boxes, k, |boxes|) && boxes[k] == closest.value
  {
    var minDistance: Option<real> := None;  // float('inf')
    closest := None;
    ghost var at := 0;
    for i := 0 to |boxes|
      invariant closest.None? <==> forall k :: 0 <= k < i ==> !IntersectsBox(r, boxes[k])
      invariant minDistance.None? <==> closest.None?
      invariant closest.Some? ==> IsClosest(r, boxes, at, i) && boxes[at] == closest.value
                                  && minDistance.value == CentreDistSq(r, boxes[at])
    {
      if IntersectsBox(r, boxes[i]) {
        var distance := CentreDistSq(r, boxes[i]);
        if minDistance.None? || distance < minDistance.value {
          minDistance := Some(distance);
          closest := Some(boxes[i]);
          at := i;
        }
      }
    }
  }
}
