/**
 * What unifying a list of module indices means: the summed size of the named
 * modules, the concatenation of their reference blocks, and the concatenation
 * of their rotated offsets for one yaw, always in the order the indices are
 * given (a repeated index contributes its module again). The lemmas show that
 * the two concatenations are index-aligned block by block.
 */
module Unification {
  import opened BlueprintModules

  /** Every index names a module of the catalogue. */
  predicate ValidIndices(modules: seq<BlueprintModule>, moduleIndices: seq<int>) {
    forall j :: 0 <= j < |moduleIndices| ==> 0 <= moduleIndices[j] < |modules|
  }

  /** Every module of the catalogue satisfies the module invariant. */
  predicate AllValid(modules: seq<BlueprintModule>) {
    forall k :: 0 <= k < |modules| ==> modules[k].Valid()
  }

  /** The sum of `size` over the named modules, in index order. */
  function TotalSize(modules: seq<BlueprintModule>, moduleIndices: seq<int>): nat
    requires ValidIndices(modules, moduleIndices)
  {
    if moduleIndices == [] then 0
    else
      var n := |moduleIndices| - 1;
      TotalSize(modules, moduleIndices[..n]) + modules[moduleIndices[n]].size
  }

  /** The reference blocks of the named modules, concatenated in index order. */
  function UnifiedBlocks(modules: seq<BlueprintModule>, moduleIndices: seq<int>): seq<BlueprintBlock>
    requires ValidIndices(modules, moduleIndices)
  {
    if moduleIndices == [] then []
    else
      var n := |moduleIndices| - 1;
      UnifiedBlocks(modules, moduleIndices[..n]) + modules[moduleIndices[n]].blueprint
  }

  /** The rotated offsets for `yaw` of the named modules, concatenated in index order. */
  function UnifiedVectors(modules: seq<BlueprintModule>, moduleIndices: seq<int>, yaw: BlockRotation): seq<BlockVector>
    requires AllValid(modules) && ValidIndices(modules, moduleIndices)
  {
    if moduleIndices == [] then []
    else
      var n := |moduleIndices| - 1;
      UnifiedVectors(modules, moduleIndices[..n], yaw) + modules[moduleIndices[n]].blueprintVectors[yaw]
  }

  /** Adding one more index to a prefix adds that module's size and blocks at the end. */
  lemma ExtendBlocks(modules: seq<BlueprintModule>, moduleIndices: seq<int>, j: nat)
    requires ValidIndices(modules, moduleIndices) && j < |moduleIndices|
    ensures ValidIndices(modules, moduleIndices[..j]) && ValidIndices(modules, moduleIndices[..j + 1])
    ensures TotalSize(modules, moduleIndices[..j + 1])
         == TotalSize(modules, moduleIndices[..j]) + modules[moduleIndices[j]].size
    ensures UnifiedBlocks(modules, moduleIndices[..j + 1])
         == UnifiedBlocks(modules, moduleIndices[..j]) + modules[moduleIndices[j]].blueprint
  {
    assert moduleIndices[..j + 1][..j] == moduleIndices[..j];
  }

  /** Adding one more index to a prefix adds that module's rotated offsets at the end. */
  lemma ExtendVectors(modules: seq<BlueprintModule>, moduleIndices: seq<int>, j: nat, yaw: BlockRotation)
    requires AllValid(modules) && ValidIndices(modules, moduleIndices) && j < |moduleIndices|
    ensures ValidIndices(modules, moduleIndices[..j]) && ValidIndices(modules, moduleIndices[..j + 1])
    ensures UnifiedVectors(modules, moduleIndices[..j + 1], yaw)
         == UnifiedVectors(modules, moduleIndices[..j], yaw) + modules[moduleIndices[j]].blueprintVectors[yaw]
  {
    assert moduleIndices[..j + 1][..j] == moduleIndices[..j];
  }

  /** Unifying a concatenation of index lists sums their sizes. */
  lemma {:induction false} TotalSizeAppend(modules: seq<BlueprintModule>, a: seq<int>, b: seq<int>)
    requires ValidIndices(modules, a) && ValidIndices(modules, b)
    ensures ValidIndices(modules, a + b)
    ensures TotalSize(modules, a + b) == TotalSize(modules, a) + TotalSize(modules, b)
  {
    if b == [] {
      assert a + b == a;
    } else {
      var n := |b| - 1;
      assert (a + b)[..|a| + n] == a + b[..n];
      TotalSizeAppend(modules, a, b[..n]);
    }
  }

  /** Unifying a concatenation of index lists concatenates their block lists. */
  lemma {:induction false} UnifiedBlocksAppend(modules: seq<BlueprintModule>, a: seq<int>, b: seq<int>)
    requires ValidIndices(modules, a) && ValidIndices(modules, b)
    ensures ValidIndices(modules, a + b)
    ensures UnifiedBlocks(modules, a + b) == UnifiedBlocks(modules, a) + UnifiedBlocks(modules, b)
  {
    if b == [] {
      assert a + b == a;
    } else {
      var n := |b| - 1;
      assert (a + b)[..|a| + n] == a + b[..n];
      UnifiedBlocksAppend(modules, a, b[..n]);
    }
  }

  /** Unifying a concatenation of index lists concatenates their vector lists. */
  lemma {:induction false} UnifiedVectorsAppend(modules: seq<BlueprintModule>, a: seq<int>, b: seq<int>, yaw: BlockRotation)
    requires AllValid(modules) && ValidIndices(modules, a) && ValidIndices(modules, b)
    ensures ValidIndices(modules, a + b)
    ensures UnifiedVectors(modules, a + b, yaw) == UnifiedVectors(modules, a, yaw) + UnifiedVectors(modules, b, yaw)
  {
    if b == [] {
      assert a + b == a;
    } else {
      var n := |b| - 1;
      assert (a + b)[..|a| + n] == a + b[..n];
      UnifiedVectorsAppend(modules, a, b[..n], yaw);
    }
  }

  /** Under the module invariant the unified block list has exactly the summed size. */
  lemma {:induction false} UnifiedBlocksLength(modules: seq<BlueprintModule>, moduleIndices: seq<int>)
    requires AllValid(modules) && ValidIndices(modules, moduleIndices)
    ensures |UnifiedBlocks(modules, moduleIndices)| == TotalSize(modules, moduleIndices)
  {
    if moduleIndices != [] {
      UnifiedBlocksLength(modules, moduleIndices[..|moduleIndices| - 1]);
    }
  }

  /** Under the module invariant the unified vector list has exactly the summed
      size, whatever the yaw. */
  lemma {:induction false} UnifiedVectorsLength(modules: seq<BlueprintModule>, moduleIndices: seq<int>, yaw: BlockRotation)
    requires AllValid(modules) && ValidIndices(modules, moduleIndices)
    ensures |UnifiedVectors(modules, moduleIndices, yaw)| == TotalSize(modules, moduleIndices)
  {
    if moduleIndices != [] {
      UnifiedVectorsLength(modules, moduleIndices[..|moduleIndices| - 1], yaw);
    }
  }

  /** The modules named up to and including position j fit within the summed size of all of them. */
  lemma TotalSizePrefix(modules: seq<BlueprintModule>, moduleIndices: seq<int>, j: nat)
    requires ValidIndices(modules, moduleIndices) && j < |moduleIndices|
    ensures ValidIndices(modules, moduleIndices[..j])
    ensures TotalSize(modules, moduleIndices[..j]) + modules[moduleIndices[j]].size <= TotalSize(modules, moduleIndices)
  {
    assert moduleIndices == moduleIndices[..j + 1] + moduleIndices[j + 1..];
    ExtendBlocks(modules, moduleIndices, j);
    TotalSizeAppend(modules, moduleIndices[..j + 1], moduleIndices[j + 1..]);
  }

  /**
   * The j-th named module occupies the positions from the summed size of the
   * indices before it, for its own size, in both unified lists, and there it
   * contributes exactly its reference blocks and its rotated offsets.
   */
  lemma UnifiedSegment(modules: seq<BlueprintModule>, moduleIndices: seq<int>, j: nat, yaw: BlockRotation)
    requires AllValid(modules) && ValidIndices(modules, moduleIndices) && j < |moduleIndices|
    ensures ValidIndices(modules, moduleIndices[..j])
    ensures TotalSize(modules, moduleIndices[..j]) + modules[moduleIndices[j]].size <= TotalSize(modules, moduleIndices)
    ensures |UnifiedBlocks(modules, moduleIndices)| == TotalSize(modules, moduleIndices)
    ensures |UnifiedVectors(modules, moduleIndices, yaw)| == TotalSize(modules, moduleIndices)
    ensures var lo := TotalSize(modules, moduleIndices[..j]);
            var hi := lo + modules[moduleIndices[j]].size;
            UnifiedBlocks(modules, moduleIndices)[lo..hi] == modules[moduleIndices[j]].blueprint &&
            UnifiedVectors(modules, moduleIndices, yaw)[lo..hi] == modules[moduleIndices[j]].blueprintVectors[yaw]
  {
    var front, rest := moduleIndices[..j + 1], moduleIndices[j + 1..];
    assert moduleIndices == front + rest;
    ExtendBlocks(modules, moduleIndices, j);
    ExtendVectors(modules, moduleIndices, j, yaw);
    TotalSizeAppend(modules, front, rest);
    UnifiedBlocksAppend(modules, front, rest);
    UnifiedVectorsAppend(modules, front, rest, yaw);
    UnifiedBlocksLength(modules, moduleIndices[..j]);
    UnifiedVectorsLength(modules, moduleIndices[..j], yaw);
    UnifiedBlocksLength(modules, moduleIndices);
    UnifiedVectorsLength(modules, moduleIndices, yaw);
  }

  /**
   * The block index behind position i of a unification: which of the named
   * modules (its position in `moduleIndices`) and which block inside it.
   */
  function Locate(modules: seq<BlueprintModule>, moduleIndices: seq<int>, i: nat): (loc: (nat, nat))
    requires ValidIndices(modules, moduleIndices) && i < TotalSize(modules, moduleIndices)
    ensures loc.0 < |moduleIndices| && loc.1 < modules[moduleIndices[loc.0]].size
    ensures ValidIndices(modules, moduleIndices[..loc.0])
    ensures i == TotalSize(modules, moduleIndices[..loc.0]) + loc.1
  {
    var n := |moduleIndices| - 1;
    var front := moduleIndices[..n];
    if i < TotalSize(modules, front) then
      var loc := Locate(modules, front, i);
      assert moduleIndices[..loc.0] == front[..loc.0];
      loc
    else
      (n, i - TotalSize(modules, front))
  }

  /**
   * Index alignment: for the same module indices and any yaw, the unified
   * block list and the unified vector list have the same length, and position
   * i of both comes from the same module and the same block inside it.
   */
  lemma UnifiedAlignment(modules: seq<BlueprintModule>, moduleIndices: seq<int>, yaw: BlockRotation, i: nat)
    requires AllValid(modules) && ValidIndices(modules, moduleIndices)
    requires i < TotalSize(modules, moduleIndices)
    ensures |UnifiedBlocks(modules, moduleIndices)| == |UnifiedVectors(modules, moduleIndices, yaw)|
         == TotalSize(modules, moduleIndices)
    ensures var (j, p) := Locate(modules, moduleIndices, i);
            UnifiedBlocks(modules, moduleIndices)[i] == modules[moduleIndices[j]].blueprint[p] &&
            UnifiedVectors(modules, moduleIndices, yaw)[i] == modules[moduleIndices[j]].blueprintVectors[yaw][p]
  {
    var (j, p) := Locate(modules, moduleIndices, i);
    UnifiedSegment(modules, moduleIndices, j, yaw);
    var lo := TotalSize(modules, moduleIndices[..j]);
    var hi := lo + modules[moduleIndices[j]].size;
    assert UnifiedBlocks(modules, moduleIndices)[lo..hi][p] == UnifiedBlocks(modules, moduleIndices)[i];
    assert UnifiedVectors(modules, moduleIndices, yaw)[lo..hi][p] == UnifiedVectors(modules, moduleIndices, yaw)[i];
  }
}
