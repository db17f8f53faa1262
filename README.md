# GetClosestIntersection in Dafny

GetClosestIntersection is a Maya plugin. It answers one question: which mesh does a ray from the viewer hit first, and where? A query first narrows the scene's meshes to a few candidates with an acceleration structure. It then probes each candidate with Maya's exact `MFnMesh.closestIntersection`, and the nearest hit wins.

This project models the core of that plugin and proves properties of the model:

- the ray and its slab test against axis-aligned boxes (`core/ray.py`);
- the deduplicating priority queue (`util/priority_set.py`);
- the three acceleration structures of `core/acceleration_structures/`:
  - brute force;
  - a BVH built by median splits, queried through the priority queue with an early stop after `sample_count` hits;
  - a sparse octree built with an overlap test and queried by collecting candidates;
- the earlier BVH and octree of `core/bvh.py` and `core/octree.py`;
- the free query functions of `core/calculate_intersection.py`;
- the mesh list with its bounding-box cache (`util/mesh_list.py`).

Modules follow the source files:

| module | models |
|---|---|
| `Common` | `Option`, `Result`, and the witness lemma `NonEmptyHasMember` |
| `Geometry` | `MPoint`/`MVector` as `Vec3`, `MBoundingBox` as `Box`, `center`, `contains` and `expand`, an empty accumulator box as `None` |
| `Tuples` | Python's order on `(float, int)` tuples, and `sorted` |
| `Rays` | `Ray`, its constructor, `intersect_bbox` and `closest_bbox` |
| `PrioritySets` | `PrioritySet` |
| `Probes` | `range`, the exact probe as a parameter, the hits a query records, and `min` with a key |
| `AccelBruteForce`, `AccelBvh`, `AccelOctree` | `core/acceleration_structures/` |
| `LegacyBvh`, `LegacyOctree` | `core/bvh.py`, `core/octree.py` |
| `CalculateIntersection` | `core/calculate_intersection.py` |
| `MeshLists` | `util/mesh_list.py` |

What the host supplies becomes a parameter:

- The exact probe of mesh `i` is `probe(i)`. It gives the hit point, or `None` for a miss.
- The world bounding box of mesh `i` is `boxOf(i)`. This is the box `get_bbox_at_index` returns; `MeshLists` proves that its cache gives back what it would compute.
- The octree's `_does_overlap` test is `overlaps(i, box)`.

Distances are compared squared (`DistSq`). The square root of a non-negative real is monotone, so every `<`, `min` and `==` the source applies to `distanceTo` has the same outcome. A BVH priority is therefore `-DistSq` from the origin to a leaf box's centre.

A query answers with the mesh index and the hit point. The name the source returns is `MeshLists.MeshList.GetNameAtIndex` of that index.

One place where the code does less than its own comment says. The model follows the code:

- **BVH pop order.** The docstring of `find_intersections` (`core/acceleration_structures/bvh.py:99`) says the heap orders intersections "by minimal distance". But line 111 adds each index at priority `-distance`, and line 144 pops the least entry. So the code probes leaves from the farthest box centre to the nearest, and `AccelBvh.PopsComeFromHitLeaves` states that order.

## Model

| member | source | states |
|---|---|---|
| Rays.NewRay | GetClosestIntersection/core/ray.py:8-12 | succeeds exactly when both lists have three entries, and the ray's coordinates are those lists |
| Rays.IntersectsIffPointOnRay | GetClosestIntersection/core/ray.py:29-45 | the slab test reports a hit on a well-formed box exactly when some point of the ray at a non-negative parameter lies in the closed box |
| Rays.InSlabIff | GetClosestIntersection/core/ray.py:30-40 | the ray's point at `t` lies in the box exactly when `t` is inside every axis's slab interval |
| Rays.InSlabOnAxis | GetClosestIntersection/core/ray.py:30-40 | on one axis, the point at `t` lies between the faces exactly when `t` lies between that axis's entry and exit parameters |
| Rays.SlabAxis | GetClosestIntersection/core/ray.py:30-40 | for a non-zero direction component, `lo <= o + t*d <= hi` holds exactly when `t` lies between the min and max of the two face parameters |
| Rays.OriginInsideIsHit | GetClosestIntersection/core/ray.py:39-45 | a box that contains the ray origin is always reported as hit |
| Rays.BehindIsMiss | GetClosestIntersection/core/ray.py:39-43 | a box lying wholly behind the origin along an axis is a miss (`t_exit < 0`) |
| Rays.MirrorKeepsVerdict | GetClosestIntersection/core/ray.py:39-40 | flipping one direction component, and reflecting the box with it, does not change the verdict |
| Rays.ClosestBox | GetClosestIntersection/core/ray.py:47-60 | `None` exactly when no box is hit; otherwise a hit box with least centre distance, with every earlier hit box strictly farther (the first of equals wins) |
| Geometry.UnionContains | GetClosestIntersection/core/acceleration_structures/bvh.py:67-72 | expanding a box by another gives a well-formed box containing both |
| Geometry.UnionLeast | GetClosestIntersection/core/acceleration_structures/bvh.py:67-72 | every box containing both parts contains their expansion |
| Geometry.ExpandOverContains | GetClosestIntersection/core/acceleration_structures/bvh.py:67-79 | expanding an accumulator by every member's box yields a box exactly when the accumulator or the list was non-empty; the result is well formed and contains the accumulator and every member box |
| Geometry.ExpandOverLeast | GetClosestIntersection/core/acceleration_structures/bvh.py:67-79 | any box containing the accumulator and every member box contains the expanded box |
| Tuples.Insert | GetClosestIntersection/core/acceleration_structures/bvh.py:64 | inserting into a tuple-sorted list keeps it sorted and adds exactly that element |
| Tuples.Sorted | GetClosestIntersection/core/acceleration_structures/bvh.py:64 | `sorted` yields an ascending permutation of its input in Python tuple order |
| Tuples.InsertSeconds | GetClosestIntersection/core/acceleration_structures/bvh.py:64 | after an insertion, the second components are the old ones plus the inserted one |
| Tuples.SortedSeconds | GetClosestIntersection/core/acceleration_structures/bvh.py:64 | `[x for _, x in sorted(z)]` is a permutation of the second components of `z` |
| PrioritySets.PrioritySet.constructor | GetClosestIntersection/util/priority_set.py:9-11 | starts with an empty heap and an empty value set, which is consistent |
| PrioritySets.PrioritySet.Add | GetClosestIntersection/util/priority_set.py:13-16 | a no-op for an item already queued; otherwise the entry `(pri, d)` is queued and `d` joins the value set; items stay distinct |
| PrioritySets.PrioritySet.Pop | GetClosestIntersection/util/priority_set.py:18-21 | removes the entry least in tuple order, returns its item and drops that item from the value set |
| PrioritySets.PrioritySet.Len | GetClosestIntersection/util/priority_set.py:23-24 | the number of queued entries |
| PrioritySets.LeastIsUnique | GetClosestIntersection/util/priority_set.py:18-21 | with distinct items the least entry is unique, so the entry popped does not depend on the heap layout |
| PrioritySets.LexAntisymmetric | GetClosestIntersection/util/priority_set.py:18-21 | two tuples that are each `<=` the other are equal |
| PrioritySets.RemoveAtItems | GetClosestIntersection/util/priority_set.py:18-21 | removing an entry keeps items distinct and removes exactly its item |
| PrioritySets.EnqueueItems | GetClosestIntersection/util/priority_set.py:13-16 | any series of `add`s keeps items distinct, and the queued items are the old ones plus those added |
| PrioritySets.EnqueueExtends | GetClosestIntersection/util/priority_set.py:13-16 | `add` only appends: earlier entries keep their places |
| PrioritySets.EnqueueFrom | GetClosestIntersection/util/priority_set.py:13-16 | every queued entry was queued before or is one of those added |
| PrioritySets.EnqueueConcat | GetClosestIntersection/util/priority_set.py:13-16 | adding `a + b` is adding `a`, then `b` |
| Probes.Range | GetClosestIntersection/core/acceleration_structures/bvh.py:32 | `list(range(n))` has `n` entries, entry `k` being `k` |
| Probes.RecordedMembers | GetClosestIntersection/core/acceleration_structures/octree.py:145-154 | a recorded hit is exactly a probed index that is hit, paired with its squared hit distance; there are no more hits than probes |
| Probes.FirstMinIndex | GetClosestIntersection/core/acceleration_structures/bruteforce.py:48-49 | `min(range(len(ds)), key=...)` returns an index of least value with every earlier value strictly greater |
| Probes.FirstMinUnique | GetClosestIntersection/core/acceleration_structures/bruteforce.py:48-49 | that index is unique |
| Probes.FirstMinIsNearest | GetClosestIntersection/core/acceleration_structures/octree.py:156-162 | the first least recorded hit is a probed, hit index at its own distance, and no probed index is hit nearer |
| AccelBruteForce.GetClosestIntersection | GetClosestIntersection/core/acceleration_structures/bruteforce.py:17-59 | `None` for no meshes; otherwise mesh `k` holds the first least entry, and the answer is mesh `k`'s hit unless that entry is the sentinel |
| AccelBruteForce.AnswerIsNearestHit | GetClosestIntersection/core/acceleration_structures/bruteforce.py:48-59 | a found hit is that mesh's real hit, not at the sentinel, no farther than any hit and strictly nearer than every earlier hit |
| AccelBruteForce.NearHitIsFound | GetClosestIntersection/core/acceleration_structures/bruteforce.py:46-59 | if some mesh is hit nearer than the sentinel, the answer is a hit |
| AccelBruteForce.AllMissIsNone | GetClosestIntersection/core/acceleration_structures/bruteforce.py:46-59 | if no mesh is hit, the answer is `None` |
| AccelBruteForce.BruteForceDetermined | GetClosestIntersection/core/acceleration_structures/bruteforce.py:46-59 | any two answers meeting the promise are equal: the first least entry leaves no choice |
| AccelBruteForce.FindIntersections | GetClosestIntersection/core/acceleration_structures/bruteforce.py:14-15 | always fails (`NotImplementedError`) |
| AccelBvh.LongestAxis | GetClosestIntersection/core/acceleration_structures/bvh.py:34-40 | an axis of greatest extent; every earlier axis is strictly shorter (`list.index` of the max) |
| AccelBvh.SortKeys | GetClosestIntersection/core/acceleration_structures/bvh.py:58-62 | the loop collects `min[axis] + max[axis]` of each index's box, in order |
| AccelBvh.MedianOrderSorted | GetClosestIntersection/core/acceleration_structures/bvh.py:58-64 | the re-sorted indices are a permutation of the input, ascending by sort key |
| AccelBvh.KeyedPairs | GetClosestIntersection/core/acceleration_structures/bvh.py:64 | every pair of a permutation of `zip(positions, indices)` carries its index's own key |
| AccelBvh.KeysAscending | GetClosestIntersection/core/acceleration_structures/bvh.py:64 | sorted `(key, index)` pairs list their indices in ascending key order |
| AccelBvh.ExpandByMembers | GetClosestIntersection/core/acceleration_structures/bvh.py:67-79 | the `expand` loop ends with the accumulator expanded by every member's box, in order |
| AccelBvh.MedianSplit | GetClosestIntersection/core/acceleration_structures/bvh.py:57-79 | the halves are the sorted order cut at `len // 2`, both non-empty, and each half's box is the expansion of an empty box by its members |
| AccelBvh.BuildShape | GetClosestIntersection/core/acceleration_structures/bvh.py:42-84 | the root keeps the given box; a node is a leaf exactly when the depth ran out or at most four indices remain; all leaves are within those bounds; the leaves permute the input; a split has halves of `len // 2` and the rest |
| AccelBvh.SplitShape | GetClosestIntersection/core/acceleration_structures/bvh.py:64-84 | a split node over permuted halves permutes the input, keeps the leaf bounds and has the half sizes |
| AccelBvh.LeavesFrom | GetClosestIntersection/core/acceleration_structures/bvh.py:42-84 | every leaf index of a built tree is one of the input indices |
| AccelBvh.MedianSplitOrdered | GetClosestIntersection/core/acceleration_structures/bvh.py:57-75 | every left index sorts at or before every right index along the parent's longest axis |
| AccelBvh.KeysSplit | GetClosestIntersection/core/acceleration_structures/bvh.py:65-75 | cutting a key-ascending list leaves no key before the cut above a key after it |
| AccelBvh.HullIsUnion | GetClosestIntersection/core/acceleration_structures/bvh.py:67-79 | a half's box is the union of its members' boxes: it covers them, and every covering box contains it |
| AccelBvh.BuildChildBoxes | GetClosestIntersection/core/acceleration_structures/bvh.py:67-84 | below the root, every node's box is the union of the boxes of the meshes in its leaves |
| AccelBvh.FindIntersections | GetClosestIntersection/core/acceleration_structures/bvh.py:97-116 | one `add` per index of every leaf reached through hit boxes, at minus the leaf box centre's distance, left subtree first; a missed box adds nothing and returns the heap |
| AccelBvh.VisitsAreHitLeaves | GetClosestIntersection/core/acceleration_structures/bvh.py:97-116 | an entry is added exactly when it names an index of a leaf reached through boxes the ray hits, at that leaf's priority |
| AccelBvh.DistanceMapLatest | GetClosestIntersection/core/acceleration_structures/bvh.py:152-155 | `distances_stack` is empty exactly when nothing was hit; its keys are the recorded distances; each key names the latest hit at that distance |
| AccelBvh.DistanceMapKeys | GetClosestIntersection/core/acceleration_structures/bvh.py:152-155 | the keys of `distances_stack` are exactly the recorded distances |
| AccelBvh.DistanceMapEntries | GetClosestIntersection/core/acceleration_structures/bvh.py:152-155 | each key of `distances_stack` maps to the latest index recorded at that distance |
| AccelBvh.MinKey | GetClosestIntersection/core/acceleration_structures/bvh.py:159 | `min` of the keys: a key no greater than any other, or nothing when there is no key (where Python raises) |
| AccelBvh.LatestNearestAt | GetClosestIntersection/core/acceleration_structures/bvh.py:159 | the entry the least key points to is the latest of the nearest recorded hits |
| AccelBvh.Answer | GetClosestIntersection/core/acceleration_structures/bvh.py:159-165 | fails exactly when nothing was recorded; otherwise answers with the latest nearest recorded hit and its point |
| AccelBvh.PopKeeps | GetClosestIntersection/core/acceleration_structures/bvh.py:143-144 | popping the least entry keeps the pops ascending and no greater than anything left |
| AccelBvh.TallyStep | GetClosestIntersection/core/acceleration_structures/bvh.py:152-155 | a hit adds one to the count and records its distance and point; a miss records nothing |
| AccelBvh.NeverReachedSnoc | GetClosestIntersection/core/acceleration_structures/bvh.py:158 | the count stays off `sample_count` after every pop made so far |
| AccelBvh.FilledQueue | GetClosestIntersection/core/acceleration_structures/bvh.py:129-130 | a new priority set filled by `find_intersections` from the root |
| AccelBvh.ConcludeAnswer | GetClosestIntersection/core/acceleration_structures/bvh.py:143-169 | what the loop maintains, and how it left the loop, give the query's whole promise |
| AccelBvh.QueueQuery | GetClosestIntersection/core/acceleration_structures/bvh.py:129-169 | pops the queue's least entries in ascending order, at least once when anything was queued; stops early only with exactly `sample_count` hits; fails only when it stopped with none recorded; otherwise gives the latest nearest recorded hit, or `None` when nothing was hit; with `sample_count >= 1` it never fails |
| AccelBvh.EntriesOnce | GetClosestIntersection/util/priority_set.py:13-16 | a queue whose items are distinct holds each entry at most once |
| AccelBvh.OccursTwice | GetClosestIntersection/core/acceleration_structures/bvh.py:143-144 | an entry popped at two positions occurs twice among the pops |
| AccelBvh.PopBelow | GetClosestIntersection/core/acceleration_structures/bvh.py:143-144 | after equal first `i` pops, the next least-first pop of one run is no greater than that of another |
| AccelBvh.PopsAgree | GetClosestIntersection/core/acceleration_structures/bvh.py:143-144 | two least-first pop sequences over the same queue agree on their common length |
| AccelBvh.StopsTogether | GetClosestIntersection/core/acceleration_structures/bvh.py:143-158 | two pop sequences both stopped by the loop's rule are the same sequence |
| AccelBvh.LatestNearestUnique | GetClosestIntersection/core/acceleration_structures/bvh.py:159 | at most one recorded hit is the latest of the nearest |
| AccelBvh.AnswersAgree | GetClosestIntersection/core/acceleration_structures/bvh.py:159-165 | over the same recorded hits, two answers that both fail or both succeed are equal |
| AccelBvh.BvhAnswerDetermined | GetClosestIntersection/core/acceleration_structures/bvh.py:129-169 | for one tree, probe, ray and `sample_count`, any two answers meeting the query's promise pop the same entries and give the same result |
| AccelBvh.CountPasses | GetClosestIntersection/core/acceleration_structures/bvh.py:152-158 | a count that grows by at most one per pop passes through every smaller value |
| AccelBvh.AnswerFacts | GetClosestIntersection/core/acceleration_structures/bvh.py:143-169 | an answer never fails when `sample_count >= 1`, and a hit it gives is the mesh's own hit point |
| AccelBvh.HitBudget | GetClosestIntersection/core/acceleration_structures/bvh.py:143-169 | with `sample_count >= 1` the query never fails and never records more than `sample_count` hits |
| AccelBvh.PopsComeFromHitLeaves | GetClosestIntersection/core/acceleration_structures/bvh.py:108-111 | every probed mesh is in a leaf reached through hit boxes, and leaves are probed from the farthest box centre to the nearest |
| AccelBvh.BVH.constructor | GetClosestIntersection/core/acceleration_structures/bvh.py:22-32 | keeps the settings, builds the tree over every mesh index with `max_depth` levels, and sets `_depth` to the largest remaining depth budget at which a leaf was made, or 0 if that is smaller |
| AccelBvh.BVH.RecursiveBuild | GetClosestIntersection/core/acceleration_structures/bvh.py:42-84 | returns the tree `Build` describes and raises `_depth` to the largest remaining depth at which it made a leaf |
| AccelBvh.BVH.SplitBuild | GetClosestIntersection/core/acceleration_structures/bvh.py:57-84 | the split branch: the same tree and depth bookkeeping |
| AccelBvh.BVH.BuildChildren | GetClosestIntersection/core/acceleration_structures/bvh.py:81-84 | the inner node over both halves, each built one level down, left first for the depth bookkeeping |
| AccelBvh.BVH.GetClosestIntersection | GetClosestIntersection/core/acceleration_structures/bvh.py:118-169 | the queue query over the built tree with the stored `sample_count`: it never fails when `sample_count >= 1`, and a hit is that mesh's own hit point |
| AccelOctree.SplitHalves | GetClosestIntersection/core/acceleration_structures/octree.py:34-51 | on every axis each octant spans `[min, mid]` or `[mid, max]` as its code says, and the eight codes are distinct |
| AccelOctree.SplitInside | GetClosestIntersection/core/acceleration_structures/octree.py:34-51 | the octants of a well-formed box are well formed and lie inside it |
| AccelOctree.SplitCovers | GetClosestIntersection/core/acceleration_structures/octree.py:34-51 | every point of the parent lies in some octant |
| AccelOctree.PartHolding | GetClosestIntersection/core/acceleration_structures/octree.py:34-51 | some well-formed octant holds a given point of the parent |
| AccelOctree.BuildList | GetClosestIntersection/core/acceleration_structures/octree.py:53-58 | the loop keeps, in order, the indices that overlap the box |
| AccelOctree.FilterMembers | GetClosestIntersection/core/acceleration_structures/octree.py:53-58 | the filtered list holds exactly the overlapping indices and is no longer than its input |
| AccelOctree.FilterConcat | GetClosestIntersection/core/acceleration_structures/octree.py:53-58 | filtering keeps order: it distributes over concatenation |
| AccelOctree.RecursiveBuild | GetClosestIntersection/core/acceleration_structures/octree.py:60-102 | fills the eight octants (lists at the last level, sub-dicts above it), marks the empty ones and deletes them, giving the cell `Build` describes |
| AccelOctree.DropEmpty | GetClosestIntersection/core/acceleration_structures/octree.py:99-100 | deleting the marked keys leaves exactly the octants whose filtered list is non-empty, in dict order |
| AccelOctree.PrunedAre | GetClosestIntersection/core/acceleration_structures/octree.py:60-102 | an octant survives exactly when some index overlaps it, and a surviving octant is filled from its own filtered list |
| AccelOctree.BuildShaped | GetClosestIntersection/core/acceleration_structures/octree.py:60-102 | `depth` levels of dicts keyed by octants of their parent, with non-empty lists only at the last level |
| AccelOctree.BuildSound | GetClosestIntersection/core/acceleration_structures/octree.py:60-102 | every stored index comes from the input list |
| AccelOctree.FindIntersections | GetClosestIntersection/core/acceleration_structures/octree.py:104-123 | nothing is added when no key box is hit; otherwise every leaf list reached through hit boxes is added to the set |
| AccelOctree.CollectedStored | GetClosestIntersection/core/acceleration_structures/octree.py:104-123 | only stored indices are collected |
| AccelOctree.BuildFindsRayPoint | GetClosestIntersection/core/acceleration_structures/octree.py:60-123 | an input index whose mesh overlaps every box around a point the ray reaches in the root box is collected |
| AccelOctree.StepDown | GetClosestIntersection/core/acceleration_structures/octree.py:87-97 | the octant holding the ray's point keeps that index, survives deletion and is hit by the ray |
| AccelOctree.NearestOf | GetClosestIntersection/core/acceleration_structures/octree.py:141-162 | probes every candidate once in the set's iteration order; `None` exactly when no candidate is hit; otherwise a hit candidate with no candidate hit nearer, the first such in that order |
| AccelOctree.Octree.constructor | GetClosestIntersection/core/acceleration_structures/octree.py:18-22 | builds the octree over every mesh index with `depth` levels and stores that depth |
| AccelOctree.Octree.GetClosestIntersection | GetClosestIntersection/core/acceleration_structures/octree.py:125-162 | probes exactly the indices the ray collects; `None` exactly when none is hit; otherwise a collected, hit mesh with no collected mesh hit nearer |
| LegacyBvh.SplitHalves | GetClosestIntersection/core/bvh.py:29-49 | the halves meet at the centre of the longest axis and span the parent on the others; of a well-formed box they are well formed, inside it, and cover it |
| LegacyBvh.SidesPartition | GetClosestIntersection/core/bvh.py:51-70 | every index goes to exactly one side; the left side holds exactly the indices the rule sends left |
| LegacyBvh.SidesPermute | GetClosestIntersection/core/bvh.py:55-70 | the two side lists together permute the input |
| LegacyBvh.SideMembers | GetClosestIntersection/core/bvh.py:55-70 | a side holds exactly the input indices the rule sends to it |
| LegacyBvh.CentreLandsInside | GetClosestIntersection/core/bvh.py:57-60 | a mesh centred inside the parent goes to a half that holds its centre |
| LegacyBvh.Grown | GetClosestIntersection/core/bvh.py:72-80 | a half grown in place is the half expanded by each member's box, in order |
| LegacyBvh.GrownBounds | GetClosestIntersection/core/bvh.py:72-80 | a grown half is well formed, contains the half and every member box, and is the least such box |
| LegacyBvh.BuildHalves | GetClosestIntersection/core/bvh.py:51-82 | the loop gives each side its indices in order, and each half grown by its own members |
| LegacyBvh.RecursiveBuild | GetClosestIntersection/core/bvh.py:84-96 | returns the tree `Build` describes |
| LegacyBvh.BuildChildren | GetClosestIntersection/core/bvh.py:93-96 | the inner node over both sides, each built one level down |
| LegacyBvh.BuildShape | GetClosestIntersection/core/bvh.py:84-96 | the root keeps the given box; a node is a leaf exactly when the depth ran out or at most four indices remain; the leaves permute the input |
| LegacyBvh.BuildCovers | GetClosestIntersection/core/bvh.py:72-96 | each child box contains the half it was cut from and the box of every mesh in its leaves |
| LegacyBvh.LeavesCovered | GetClosestIntersection/core/bvh.py:72-80 | a box covering a list covers any permutation of it |
| LegacyBvh.BVH.constructor | GetClosestIntersection/core/bvh.py:19-22 | builds the tree over every mesh index, at most `max_depth` levels deep |
| LegacyBvh.BVH.FindIntersections | GetClosestIntersection/core/bvh.py:109-126 | the later BVH's traversal: the same entries queued; the heap comes back only from a missed box |
| LegacyOctree.Octree.constructor | GetClosestIntersection/core/octree.py:16-20 | builds the octree over every mesh index with `depth` levels (default 2), shaped as the later octree's |
| LegacyOctree.Octree.FindIntersections | GetClosestIntersection/core/octree.py:102-120 | adds to the set exactly what the ray collects |
| CalculateIntersection.GetClosestIntersection | GetClosestIntersection/core/calculate_intersection.py:36-78 | the brute-force answer over all meshes |
| CalculateIntersection.GetClosestIntersectionOctree | GetClosestIntersection/core/calculate_intersection.py:81-118 | probes exactly the indices the ray collects from the octree; `None` exactly when none is hit; otherwise a nearest hit among them |
| CalculateIntersection.GetClosestIntersectionBvh | GetClosestIntersection/core/calculate_intersection.py:121-173 | the BVH queue query with `sample_count` passed in: it never fails when `sample_count >= 1`, and a hit is that mesh's own hit point |
| MeshLists.Slot | GetClosestIntersection/util/mesh_list.py:42-46 | Python list indexing: valid exactly for `-len <= index < len`, a negative index counting from the end |
| MeshLists.BuiltMembers | GetClosestIntersection/util/mesh_list.py:24-33 | the built meshes are exactly the input names whose mesh can be built, no more of them than inputs |
| MeshLists.AllBuiltAligned | GetClosestIntersection/util/mesh_list.py:24-33 | when every mesh can be built, the mesh list is the input list and indices agree |
| MeshLists.MeshList.constructor | GetClosestIntersection/util/mesh_list.py:13-36 | with no names nothing is set, so `bbox` is absent; otherwise the scene box as `bbox`, a dag path per name, a mesh and a name for each buildable one, and an empty cache slot per name |
| MeshLists.MeshList.GetBboxAtIndex | GetClosestIntersection/util/mesh_list.py:38-52 | a cached box when the slot holds one; otherwise the mesh's world box, which is then cached in the slot; a mesh index out of range fails; with every mesh built the answer is the world box of mesh `index` |
| MeshLists.MeshList.GetNameAtIndex | GetClosestIntersection/util/mesh_list.py:54-64 | the name at `index` (negative from the end) or `None` when out of range |
| MeshLists.MeshList.Len | GetClosestIntersection/util/mesh_list.py:66-67 | the number of built meshes |
| MeshLists.MeshList.Eq | GetClosestIntersection/util/mesh_list.py:69-75 | order-sensitive equality of the built names with another list's or with a list of names; no verdict for any other operand |

## Left out

- Maya itself is not modelled: `MFnMesh`, `MDagPath`, `MSelectionList`, `exactWorldBoundingBox`, the inclusive matrices, `MBoundingBox.intersects`, `closestIntersection`. These become the parameters `probe`, `boxOf`, `overlaps`, `builds`, `worldBox` and `sceneBox`.
- Floating point is modelled as exact reals, and `distanceTo` by its square. Rounding, infinities and NaN are not modelled.
- `max_param` is passed to `closestIntersection` as its range bound. The model keeps it only as the brute-force sentinel.
- Rays.ValidRay: a direction with a zero component is excluded, because the slab test divides by it and Python raises `ZeroDivisionError`.
- `project_to_3d` is not part of this model. It is screen-to-world projection through the active 3-D view.
- These are not part of this model: the tool contexts, the plugin entry points, debug cubes and rays, `constants.DEBUG`, timers, `pprint` and `__str__`. The same goes for the abstract `AccelerationStructure` base class and the log messages (`displayError`, `displayWarning`, `displayInfo`). A reported error is modelled only where it changes the result.
- PrioritySets.PrioritySet: the heap is kept in insertion order, not in `heapq`'s binary-heap layout. `Pop` scans for the least entry. Items are distinct, so this entry is the one `heappop` returns (`LeastIsUnique`).
- AccelOctree.NearestOf: the iteration order of a Python `set` is not specified. The model takes it as a ghost out-parameter `order` and proves the answer for any order.
- AccelOctree.Build: requires `depth >= 1`. With a smaller depth, `_recursive_build` skips its level-zero branch and recurses as long as some octant keeps an overlapping index. Python then stops with `RecursionError`. If every filtered list becomes empty (zero meshes, say), it returns an empty dict instead. The model leaves both cases out. They cannot arise at the call sites: the `Octree` default depth is 3 (`core/acceleration_structures/octree.py:19`), and the tool context passes no depth (`context/closest_intersection_ctx.py:39,62`).
- LegacyBvh.Build: requires `max_depth >= 0`. A negative depth never reaches zero.
- AccelOctree.Shaped: an interior octant is an empty dict when `overlaps` accepts the octant but none of its eight sub-octants. `overlaps` (`_does_overlap`) is left unconstrained here, so the model allows such a cell and promises non-empty lists only at the last level. A box test that accepts some sub-octant of every octant it accepts would rule these cells out, but that property of the test is not modelled.
- AccelOctree.Cell: octant boxes are dict keys. The model keeps the eight octants as distinct slots. `MBoundingBox` hashing is not modelled, so neither is the collapse of equal keys, say of a degenerate box.
- AccelOctree.FindIntersections: the source adds to the caller's set in place and returns nothing. The model takes the set in and gives the enlarged set back.
- AccelBvh.BVH.constructor: a `max_depth` or `sample_count` below one is only reported, as in the source. A negative `max_depth` is built like an unlimited one.
- MeshLists.MeshList: when a mesh cannot be built, `mfn_meshes` is shorter than `mfn_dagpaths` and the cache. An index then pairs a mesh with another mesh's dag path. The model keeps this misalignment as written, and `GetBboxAtIndex` states the aligned case separately.
- The queries return the mesh index and the hit point. The name is found through `MeshLists.MeshList.GetNameAtIndex`.
- LegacyBvh: the earlier `_find_longest_axis` is the same function as the later one, so it is modelled once, as `AccelBvh.LongestAxis`.
- LegacyOctree: `core/octree.py` repeats the later octree's split, filter, build and traversal. The model reuses `AccelOctree` for them.
- AccelBruteForce.IsBruteForceAnswer: a hit farther than the sentinel distance loses to a miss, as written. `NearHitIsFound` states what is guaranteed.
