/**
 * `core/octree.py`: the earlier octree. Its split, filter, build and
 * traversal are those of the later octree; only the default depth (2)
 * differs, and it has no query of its own.
 */
module LegacyOctree {
  import opened Geometry
  import opened Rays
  import opened Probes
  import AccelOctree

  class Octree {
    const grid: AccelOctree.Cell
    const overlaps: (nat, Box) -> bool

    /** `__init__`: builds the octree over every mesh index with `depth` levels. */
    constructor (meshCount: nat, overlaps: (nat, Box) -> bool, bbox: Box := AccelOctree.DefaultBox, depth: int := 2)
      requires depth >= 1
      ensures grid == AccelOctree.Build(Range(meshCount), bbox, depth, overlaps) && this.overlaps == overlaps
      ensures AccelOctree.Shaped(grid, bbox, depth)
    {
      this.overlaps := overlaps;
      var built := AccelOctree.RecursiveBuild(Range(meshCount), bbox, depth, overlaps);
      grid := built;
      AccelOctree.BuildShaped(Range(meshCount), bbox, depth, overlaps);
    }

    /** `find_intersections`: adds to `indices` what the ray collects from `myDict`. */
    method FindIntersections(myDict: AccelOctree.Cell, indices: set<nat>, ray: Ray) returns (result: set<nat>)
      requires ValidRay(ray) && myDict.Grid?
      ensures result == indices + AccelOctree.Collected(myDict, ray)
    {
      result := AccelOctree.FindIntersections(myDict, indices, ray);
    }
  }
}
