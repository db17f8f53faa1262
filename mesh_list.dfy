/**
 * `util/mesh_list.py`: the scene's meshes by name, with a dag path per
 * input name, the meshes that could be built, their names, and a per-slot
 * cache of world bounding boxes filled on demand.
 *
 * A Maya mesh or dag path is identified here by the name it was made
 * from. Whether `MFnMesh` can be built for a name is the parameter
 * `builds`; a mesh's world box (its local box through the dag path's
 * inclusive matrix) is `worldBox(mesh, dagPath)`; the scene box from
 * `exactWorldBoundingBox` is `sceneBox`.
 */
module MeshLists {
  import opened Common
  import opened Geometry

  /**
   * Python's `s[index]` position for a list of length `len`: a negative
   * index counts from the end; `None` is an `IndexError`.
   */
  function Slot(index: int, len: nat): (s: Option<nat>)
    ensures s.Some? <==> -(len as int) <= index < len
    ensures s.Some? ==> s.value < len && (s.value == index || s.value == index + len)
  {
    if 0 <= index < len then Some(index)
    else if -(len as int) <= index < 0 then Some(index + len)
    else None
  }

  /** The names, in order, for which a mesh can be built. */
  function Built(names: seq<string>, builds: string -> bool): seq<string>
  {
    if names == [] then []
    else
      var last := names[|names| - 1];
      Built(names[..|names| - 1], builds) + (if builds(last) then [last] else [])
  }

  /** The built names are the buildable input names, no more of them than inputs. */
  lemma {:induction false} BuiltMembers(names: seq<string>, builds: string -> bool)
    ensures forall m :: m in Built(names, builds) <==> m in names && builds(m)
    ensures |Built(names, builds)| <= |names|
  {
    if names != [] {
      var init, last := names[..|names| - 1], names[|names| - 1];
      BuiltMembers(init, builds);
      assert names == init + [last];
    }
  }

  /** When every mesh can be built, the built lists are the input list itself. */
  lemma {:induction false} AllBuiltAligned(names: seq<string>, builds: string -> bool)
    requires forall k :: 0 <= k < |names| ==> builds(names[k])
    ensures Built(names, builds) == names
  {
    if names != [] {
      var init := names[..|names| - 1];
      AllBuiltAligned(init, builds);
      assert names == init + [names[|names| - 1]];
    }
  }

  datatype MeshListError = NotInitialised | IndexOutOfRange

  /** The right-hand side of `==`: another mesh list, a list of names, or anything else. */
  datatype Comparand = AnotherMeshList(list: MeshList) | NameList(names: seq<string>) | Unsupported

  class MeshList {
    /** `false` when the input was empty and `__init__` returned before setting any list. */
    const initialised: bool
    /** `mfn_dagpaths`: one per input name. */
    const mfnDagPaths: seq<string>
    /** `mfn_meshes`: one per mesh that could be built. */
    const mfnMeshes: seq<string>
    /** `_mesh_list`: the names of the built meshes. */
    const meshList: seq<string>
    /** `bbox`: the scene box, or `None` when `__init__` returned before setting it (reading it then raises). */
    const bbox: Option<Box>
    const worldBox: (string, string) -> Box
    /** `_bbox_cache`: one slot per input name. */
    const bboxCache: array<Option<Box>>

    /**
     * The box a cache slot `j` can hold: the world box of the mesh that
     * `get_bbox_at_index` finds at `j` or at the negative index that
     * reaches `j`, through the dag path at `j`. The two agree when every
     * mesh was built.
     */
    ghost predicate CachedFrom(j: nat, b: Box)
      reads this
      requires j < |mfnDagPaths|
    {
      var m := j + |mfnMeshes| - |mfnDagPaths|;
      (j < |mfnMeshes| && b == worldBox(mfnMeshes[j], mfnDagPaths[j]))
      || (0 <= m < |mfnMeshes| && b == worldBox(mfnMeshes[m], mfnDagPaths[j]))
    }

    ghost predicate Valid()
      reads this, bboxCache
    {
      && bboxCache.Length == |mfnDagPaths|
      && |mfnMeshes| == |meshList| <= |mfnDagPaths|
      && forall j :: 0 <= j < bboxCache.Length && bboxCache[j].Some? ==> CachedFrom(j, bboxCache[j].value)
    }

    /**
     * `__init__`: with no names only the error is reported and no
     * attribute is set, not even `bbox`. Otherwise every
     * name gets a dag path, and each name whose mesh can be built gets its
     * mesh and its name appended; the cache starts empty.
     */
    constructor (meshes: seq<string>, builds: string -> bool, worldBox: (string, string) -> Box, sceneBox: Box)
      ensures Valid() && fresh(bboxCache) && this.worldBox == worldBox
      ensures initialised <==> |meshes| > 0
      ensures !initialised ==> mfnDagPaths == [] && mfnMeshes == [] && meshList == []
      ensures initialised ==> mfnDagPaths == meshes && mfnMeshes == Built(meshes, builds) && meshList == Built(meshes, builds)
      ensures bbox == if initialised then Some(sceneBox) else None
      ensures forall j :: 0 <= j < bboxCache.Length ==> bboxCache[j].None?
    {
      this.worldBox := worldBox;
      if |meshes| == 0 {
        initialised := false;
        bbox := None;
        mfnDagPaths, mfnMeshes, meshList := [], [], [];
        bboxCache := new Option<Box>[0];
      } else {
        var dagPaths: seq<string> := [];
        var built: seq<string> := [];
        var names: seq<string> := [];
        for i := 0 to |meshes|
          invariant dagPaths == meshes[..i] && built == Built(meshes[..i], builds) && names == built
        {
          assert meshes[..i + 1][..i] == meshes[..i];
          dagPaths := dagPaths + [meshes[i]];
          if builds(meshes[i]) {
            built := built + [meshes[i]];
            names := names + [meshes[i]];
          }
        }
        assert meshes[..|meshes|] == meshes;
        BuiltMembers(meshes, builds);
        initialised := true;
        bbox := Some(sceneBox);
        mfnDagPaths, mfnMeshes, meshList := dagPaths, built, names;
        bboxCache := new Option<Box>[|meshes|](_ => None);
      }
    }

    /**
     * `get_bbox_at_index`: the cached box when the slot holds one;
     * otherwise the world box of the mesh at `index` through the dag path
     * at `index`, stored in that slot. A cache index out of range is only
     * reported, a mesh index out of range fails.
     */
    method GetBboxAtIndex(index: int) returns (r: Result<Box, MeshListError>)
      requires Valid()
      modifies bboxCache
      ensures Valid()
      ensures !initialised ==> r == Err(NotInitialised) && unchanged(bboxCache)
      ensures initialised ==>
        var cs, ms := Slot(index, bboxCache.Length), Slot(index, |mfnMeshes|);
        if cs.Some? && old(bboxCache[cs.value]).Some? then
          r == Ok(old(bboxCache[cs.value]).value) && unchanged(bboxCache)
        else if ms.None? then
          r == Err(IndexOutOfRange) && unchanged(bboxCache)
        else
          cs.Some? && r == Ok(worldBox(mfnMeshes[ms.value], mfnDagPaths[cs.value]))
          && bboxCache[..] == old(bboxCache[..])[cs.value := Some(r.value)]
      ensures r.Ok? ==> var cs := Slot(index, bboxCache.Length); cs.Some? && bboxCache[cs.value] == Some(r.value)
      ensures r.Ok? && |mfnMeshes| == |mfnDagPaths| && 0 <= index ==>
                index < |mfnMeshes| && r.value == worldBox(mfnMeshes[index], mfnDagPaths[index])
    {
      if !initialised {
        return Err(NotInitialised);
      }
      var cs := Slot(index, bboxCache.Length);
      if cs.Some? && bboxCache[cs.value].Some? {
        return Ok(bboxCache[cs.value].value);
      }
      var ms := Slot(index, |mfnMeshes|);
      if ms.None? {
        return Err(IndexOutOfRange);
      }
      var box := worldBox(mfnMeshes[ms.value], mfnDagPaths[cs.value]);
      bboxCache[cs.value] := Some(box);
      r := Ok(box);
    }

    /** `get_name_at_index`: the name at `index`, or `None` when it is out of range. */
    method GetNameAtIndex(index: int) returns (r: Result<Option<string>, MeshListError>)
      ensures !initialised <==> r.Err?
      ensures initialised ==> (r.value.Some? <==> -|meshList| <= index < |meshList|)
      ensures initialised && 0 <= index < |meshList| ==> r == Ok(Some(meshList[index]))
      ensures initialised && -|meshList| <= index < 0 ==> r == Ok(Some(meshList[index + |meshList|]))
    {
      if !initialised {
        return Err(NotInitialised);
      }
      var s := Slot(index, |meshList|);
      if s.None? {
        return Ok(None);
      }
      r := Ok(Some(meshList[s.value]));
    }

    /** `__len__`: the number of meshes built. */
    method Len() returns (r: Result<nat, MeshListError>)
      ensures !initialised <==> r.Err?
      ensures initialised ==> r == Ok(|mfnMeshes|)
    {
      if !initialised {
        return Err(NotInitialised);
      }
      r := Ok(|mfnMeshes|);
    }

    /**
     * `__eq__`: order-sensitive equality of the built names with another
     * mesh list's or with a list of names; any other operand is reported
     * and yields no boolean.
     */
    method Eq(other: Comparand) returns (r: Result<Option<bool>, MeshListError>)
      ensures other.Unsupported? ==> r == Ok(None)
      ensures other.NameList? ==> r == (if initialised then Ok(Some(meshList == other.names)) else Err(NotInitialised))
      ensures other.AnotherMeshList? ==>
                r == (if initialised && other.list.initialised then Ok(Some(meshList == other.list.meshList))
                      else Err(NotInitialised))
    {
      match other
      case Unsupported =>
        r := Ok(None);
      case NameList(names) =>
        if !initialised {
          return Err(NotInitialised);
        }
        r := Ok(Some(meshList == names));
      case AnotherMeshList(list) =>
        if !initialised || !list.initialised {
          return Err(NotInitialised);
        }
        r := Ok(Some(meshList == list.meshList));
    }
  }
}
