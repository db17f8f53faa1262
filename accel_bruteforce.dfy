/**
 * `core/acceleration_structures/bruteforce.py`: every mesh is probed in
 * order; a miss is entered with the sentinel distance `max_param + 1`, the
 * first least entry wins, and a winning sentinel means no hit.
 */
module AccelBruteForce {
  import opened Common
  import opened Geometry
  import opened Probes

  /** `max_param`, the probe's parameter bound. */
  const MaxParam: real := 9999999.0

  /** The sentinel `max_param + 1`, squared like every other distance. */
  const SentinelSq: real := (MaxParam + 1.0) * (MaxParam + 1.0)

  /** The entry `distances_list` gets for mesh `i`. */
  function Distance(i: nat, probe: nat -> Option<Vec3>, origin: Vec3): real
  {
    if probe(i).Some? then DistSq(origin, probe(i).value) else SentinelSq
  }

  /** `distances_list` after the loop: one entry per mesh, in mesh order. */
  function BruteDistances(meshCount: nat, probe: nat -> Option<Vec3>, origin: Vec3): (ds: seq<real>)
    ensures |ds| == meshCount && forall i :: 0 <= i < meshCount ==> ds[i] == Distance(i, probe, origin)
  {
    seq(meshCount, i requires 0 <= i < meshCount => Distance(i, probe, origin))
  }

  /** The answer when mesh `k` holds the first least entry: its hit, unless that is the sentinel. */
  function AnswerAt(k: nat, probe: nat -> Option<Vec3>, origin: Vec3): Option<Hit>
  {
    if probe(k).Some? && Distance(k, probe, origin) != SentinelSq then Some(Hit(k, probe(k).value)) else None
  }

  /**
   * What the query answers: `None` for no meshes; otherwise, with `k` the
   * first index of least distance, `None` if that distance is the
   * sentinel and mesh `k`'s hit otherwise.
   */
  ghost predicate IsBruteForceAnswer(meshCount: nat, probe: nat -> Option<Vec3>, origin: Vec3, r: Option<Hit>)
  {
    var ds := BruteDistances(meshCount, probe, origin);
    if meshCount == 0 then r.None?
    else exists k: nat :: IsFirstMin(ds, k) && r == AnswerAt(k, probe, origin)
  }

  /** `get_closest_intersection`. */
  method GetClosestIntersection(meshCount: nat, probe: nat -> Option<Vec3>, origin: Vec3) returns (r: Option<Hit>)
    ensures IsBruteForceAnswer(meshCount, probe, origin, r)
  {
    var intersectionList: seq<Option<Vec3>> := [];
    var distancesList: seq<real> := [];
    for i := 0 to meshCount
      invariant |intersectionList| == i && forall j :: 0 <= j < i ==> intersectionList[j] == probe(j)
      invariant distancesList == BruteDistances(i, probe, origin)
    {
      var intersectionPoint := probe(i);
      intersectionList := intersectionList + [intersectionPoint];
      if intersectionList[i].Some? {
        distancesList := distancesList + [DistSq(origin, intersectionPoint.value)];
      } else {
        distancesList := distancesList + [SentinelSq];
      }
    }
    if |distancesList| == 0 {
      return None;
    }
    var minIndex := FirstMinIndex(distancesList);
    if distancesList[minIndex] == SentinelSq {
      r := None;
    } else {
      r := Some(Hit(minIndex, intersectionList[minIndex].value));
    }
  }

  /**
   * A found hit is mesh `k`'s real hit, no farther than any other hit,
   * strictly nearer than every earlier one, and not at the sentinel.
   */
  lemma AnswerIsNearestHit(meshCount: nat, probe: nat -> Option<Vec3>, origin: Vec3, r: Option<Hit>)
    requires IsBruteForceAnswer(meshCount, probe, origin, r) && r.Some?
    ensures var k := r.value.index;
      && k < meshCount && probe(k) == Some(r.value.point)
      && DistSq(origin, r.value.point) != SentinelSq
      && (forall i :: 0 <= i < meshCount && probe(i).Some? ==> DistSq(origin, r.value.point) <= DistSq(origin, probe(i).value))
      && (forall i :: 0 <= i < k && probe(i).Some? ==> DistSq(origin, r.value.point) < DistSq(origin, probe(i).value))
  {
    var ds := BruteDistances(meshCount, probe, origin);
    var k: nat :| IsFirstMin(ds, k) && r == AnswerAt(k, probe, origin);
    forall i | 0 <= i < meshCount && probe(i).Some?
      ensures DistSq(origin, r.value.point) <= DistSq(origin, probe(i).value)
    {
      assert ds[k] <= ds[i];
    }
    forall i | 0 <= i < k && probe(i).Some?
      ensures DistSq(origin, r.value.point) < DistSq(origin, probe(i).value)
    {
      assert ds[i] > ds[k];
    }
  }

  /** A hit nearer than the sentinel is never lost: the answer is then a hit. */
  lemma NearHitIsFound(meshCount: nat, probe: nat -> Option<Vec3>, origin: Vec3, r: Option<Hit>, i: nat)
    requires IsBruteForceAnswer(meshCount, probe, origin, r)
    requires i < meshCount && probe(i).Some? && DistSq(origin, probe(i).value) < SentinelSq
    ensures r.Some?
  {
    var ds := BruteDistances(meshCount, probe, origin);
    var k: nat :| IsFirstMin(ds, k) && r == AnswerAt(k, probe, origin);
    assert ds[k] <= ds[i] < SentinelSq;
  }

  /** With no mesh hit, every entry is the sentinel and the answer is `None`. */
  lemma AllMissIsNone(meshCount: nat, probe: nat -> Option<Vec3>, origin: Vec3, r: Option<Hit>)
    requires IsBruteForceAnswer(meshCount, probe, origin, r)
    requires forall i :: 0 <= i < meshCount ==> probe(i).None?
    ensures r.None?
  {
    if meshCount > 0 {
      var ds := BruteDistances(meshCount, probe, origin);
      var k: nat :| IsFirstMin(ds, k) && r == AnswerAt(k, probe, origin);
      assert probe(k).None?;
    }
  }

  /** The answer is determined: `min` and `list.index` leave no choice. */
  lemma BruteForceDetermined(meshCount: nat, probe: nat -> Option<Vec3>, origin: Vec3, r1: Option<Hit>, r2: Option<Hit>)
    requires IsBruteForceAnswer(meshCount, probe, origin, r1) && IsBruteForceAnswer(meshCount, probe, origin, r2)
    ensures r1 == r2
  {
    if meshCount > 0 {
      var ds := BruteDistances(meshCount, probe, origin);
      var k1: nat :| IsFirstMin(ds, k1) && r1 == AnswerAt(k1, probe, origin);
      var k2: nat :| IsFirstMin(ds, k2) && r2 == AnswerAt(k2, probe, origin);
      FirstMinUnique(ds, k1, k2);
    }
  }

  datatype BruteForceError = NotImplemented

  /** `find_intersections`: brute force has no boxes to test and always fails. */
  function FindIntersections(): (r: Result<(), BruteForceError>)
    ensures r.Err?
  {
    Err(NotImplemented)
  }
}
