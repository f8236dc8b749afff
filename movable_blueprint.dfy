/**
 * The blueprint catalogue of a movable machina: the list of its modules,
 * built once from the shape definitions and never changed afterwards, with a
 * lookup into one module's rotated offsets and the two operations that
 * flatten a chosen list of modules into one block array and one offset array.
 */
module MachinaCore {
  import opened BlueprintModules
  import opened Unification

  class MovableBlueprint {
    /** One module per shape definition, in definition order; fixed at construction. */
    const modules: seq<BlueprintModule>

    /** Every module keeps the module invariant. */
    predicate Valid() {
      AllValid(modules)
    }

    /** Builds one module per shape definition, appending them in order. */
    constructor (blueprintsSouth: seq<BlueprintFactory>)
      requires forall k :: 0 <= k < |blueprintsSouth| ==> blueprintsSouth[k].WellFormed()
      ensures Valid()
      ensures |modules| == |blueprintsSouth|
      ensures forall k :: 0 <= k < |blueprintsSouth| ==> modules[k] == BuildModule(blueprintsSouth[k])
    {
      var built: seq<BlueprintModule> := [];
      for k := 0 to |blueprintsSouth|
        invariant |built| == k
        invariant forall q :: 0 <= q < k ==> built[q] == BuildModule(blueprintsSouth[q])
      {
        built := built + [BuildModule(blueprintsSouth[k])];
      }
      modules := built;
    }

    /** The precomputed rotated offset of block `index` of module `moduleIndex` for `yaw`. */
    function GetByIndex(index: int, yaw: BlockRotation, moduleIndex: int): (v: BlockVector)
      requires Valid() && 0 <= moduleIndex < |modules| && 0 <= index < modules[moduleIndex].size
      ensures v == modules[moduleIndex].blueprintVectors[yaw][index]
    {
      modules[moduleIndex].GetByIndex(index, yaw)
    }

    /**
     * Position i of unifying `moduleIndices` for `yaw` is what GetByIndex
     * returns for the module and in-module position that Locate assigns to i.
     */
    lemma GetByIndexAligned(moduleIndices: seq<int>, yaw: BlockRotation, i: nat)
      requires Valid() && ValidIndices(modules, moduleIndices) && i < TotalSize(modules, moduleIndices)
      ensures var (j, p) := Locate(modules, moduleIndices, i);
              |UnifiedVectors(modules, moduleIndices, yaw)| == TotalSize(modules, moduleIndices) &&
              UnifiedVectors(modules, moduleIndices, yaw)[i] == GetByIndex(p, yaw, moduleIndices[j])
    {
      UnifiedAlignment(modules, moduleIndices, yaw, i);
    }

    /**
     * A new array holding the reference blocks of the named modules, module
     * after module in the order of `moduleIndices`, each in its own order.
     */
    method UnifyBlueprint(moduleIndices: seq<int>) returns (result: array<BlueprintBlock>)
      requires Valid() && ValidIndices(modules, moduleIndices)
      ensures fresh(result)
      ensures result.Length == TotalSize(modules, moduleIndices)
      ensures moduleIndices == [] ==> result.Length == 0
      ensures result[..] == UnifiedBlocks(modules, moduleIndices)
    {
      var size := 0;
      for j := 0 to |moduleIndices|
        invariant ValidIndices(modules, moduleIndices[..j])
        invariant size == TotalSize(modules, moduleIndices[..j])
      {
        ExtendBlocks(modules, moduleIndices, j);
        size := size + modules[moduleIndices[j]].size;
      }
      assert moduleIndices[..|moduleIndices|] == moduleIndices;
      result := new BlueprintBlock[size];
      var i := 0;
      for j := 0 to |moduleIndices|
        invariant ValidIndices(modules, moduleIndices[..j])
        invariant i == TotalSize(modules, moduleIndices[..j]) <= size
        invariant result[..i] == UnifiedBlocks(modules, moduleIndices[..j])
      {
        var current := modules[moduleIndices[j]];
        ExtendBlocks(modules, moduleIndices, j);
        TotalSizePrefix(modules, moduleIndices, j);
        for p := 0 to |current.blueprint|
          invariant i == TotalSize(modules, moduleIndices[..j]) + p
          invariant result[..i] == UnifiedBlocks(modules, moduleIndices[..j]) + current.blueprint[..p]
        {
          result[i] := current.blueprint[p];
          i := i + 1;
        }
      }
      assert result[..] == result[..i];
    }

    /**
     * Writes the rotated offsets for `yaw` of the named modules into the front
     * of `vectors`, module after module in the order of `moduleIndices`; the
     * entries past the summed size keep their old values.
     */
    method UnifyVectors(moduleIndices: seq<int>, yaw: BlockRotation, vectors: array<BlockVector>)
      requires Valid() && ValidIndices(modules, moduleIndices)
      requires TotalSize(modules, moduleIndices) <= vectors.Length
      modifies vectors
      ensures vectors[..TotalSize(modules, moduleIndices)] == UnifiedVectors(modules, moduleIndices, yaw)
      ensures vectors[TotalSize(modules, moduleIndices)..] == old(vectors[TotalSize(modules, moduleIndices)..])
    {
      var i := 0;
      for j := 0 to |moduleIndices|
        invariant ValidIndices(modules, moduleIndices[..j])
        invariant i == TotalSize(modules, moduleIndices[..j]) <= TotalSize(modules, moduleIndices)
        invariant vectors[..i] == UnifiedVectors(modules, moduleIndices[..j], yaw)
        invariant vectors[TotalSize(modules, moduleIndices)..] == old(vectors[TotalSize(modules, moduleIndices)..])
      {
        var current := modules[moduleIndices[j]];
        var rotated := current.blueprintVectors[yaw];
        ExtendBlocks(modules, moduleIndices, j);
        ExtendVectors(modules, moduleIndices, j, yaw);
        TotalSizePrefix(modules, moduleIndices, j);
        for p := 0 to |rotated|
          invariant i == TotalSize(modules, moduleIndices[..j]) + p
          invariant vectors[..i] == UnifiedVectors(modules, moduleIndices[..j], yaw) + rotated[..p]
          invariant vectors[TotalSize(modules, moduleIndices)..] == old(vectors[TotalSize(modules, moduleIndices)..])
        {
          vectors[i] := rotated[p];
          i := i + 1;
        }
      }
      assert moduleIndices[..|moduleIndices|] == moduleIndices;
    }
  }
}
