/**
 * `core/calculate_intersection.py`: the three queries as free functions.
 * Their loops are those of the acceleration structures' own queries; the
 * octree and BVH versions take the built structure, and the BVH version
 * takes `sample_count` as an argument (default 32).
 */
module CalculateIntersection {
  import opened Common
  import opened Rays
  import PrioritySets
  import Geometry
  import opened Probes
  import AccelBruteForce
  import AccelOctree
  import AccelBvh

  /** `get_closest_intersection`: the brute-force query over meshes `0 .. meshCount - 1`. */
  method GetClosestIntersection(meshCount: nat, probe: nat -> Option<Geometry.Vec3>, ray: Ray) returns (r: Option<Hit>)
    ensures AccelBruteForce.IsBruteForceAnswer(meshCount, probe, ray.origin, r)
  {
    r := AccelBruteForce.GetClosestIntersection(meshCount, probe, ray.origin);
  }

  /** `get_closest_intersection_octree`: probes exactly the indices the ray collects from the octree. */
  method GetClosestIntersectionOctree(octree: AccelOctree.Octree, probe: nat -> Option<Geometry.Vec3>, ray: Ray)
    returns (r: Option<Hit>, ghost order: seq<nat>)
    requires ValidRay(ray) && octree.grid.Grid?
    ensures AccelOctree.Enumerates(order, AccelOctree.Collected(octree.grid, ray))
    ensures r.None? <==> forall i :: i in AccelOctree.Collected(octree.grid, ray) ==> probe(i).None?
    ensures r.Some? ==> r.value.index in AccelOctree.Collected(octree.grid, ray) && probe(r.value.index) == Some(r.value.point)
    ensures r.Some? ==> forall i :: i in AccelOctree.Collected(octree.grid, ray) && probe(i).Some? ==>
                          Geometry.DistSq(ray.origin, r.value.point) <= Geometry.DistSq(ray.origin, probe(i).value)
  {
    var indices := AccelOctree.FindIntersections(octree.grid, {}, ray);
    r, order := AccelOctree.NearestOf(indices, probe, ray.origin);
  }

  /** `get_closest_intersection_bvh`: the BVH queue query with `sample_count` passed in. */
  method GetClosestIntersectionBvh(bvh: AccelBvh.BVH, probe: nat -> Option<Geometry.Vec3>, ray: Ray, sampleCount: int := 32)
    returns (r: Result<Option<Hit>, AccelBvh.QueryError>, ghost popped: seq<PrioritySets.Entry>)
    requires ValidRay(ray)
    ensures AccelBvh.IsBvhAnswer(bvh.root, probe, ray, sampleCount, r, popped)
    ensures sampleCount >= 1 ==> r.Ok?
    ensures r.Ok? && r.value.Some? ==> probe(r.value.value.index) == Some(r.value.value.point)
  {
    r, popped := AccelBvh.QueueQuery(bvh.root, probe, ray, sampleCount);
  }
}
