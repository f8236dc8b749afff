/**
 * The per-module data a movable blueprint is assembled from: the reference
 * ("south-facing") block descriptors of one sub-shape and, for each of the
 * four yaw steps, the rotated offsets of those blocks, precomputed once.
 */
module BlueprintModules {

  /** One of the four cardinal yaw steps a blueprint can be matched in. */
  datatype BlockRotation = North | East | South | West

  /** A relative block offset. Its coordinates and the rotation arithmetic
      that produces it are outside this model. */
  type BlockVector(0)

  /** One block descriptor in the unrotated reference frame. */
  type BlueprintBlock(0)

  /**
   * The shape definition a module is built from: its reference-frame blocks
   * and, per yaw, the rotated offset of every block in the same order.
   */
  datatype BlueprintFactory = BlueprintFactory(
    blocks: seq<BlueprintBlock>,
    rotated: map<BlockRotation, seq<BlockVector>>)
  {
    /** Every yaw has a rotated list, index-aligned with the blocks. */
    predicate WellFormed() {
      forall yaw: BlockRotation :: yaw in rotated && |rotated[yaw]| == |blocks|
    }
  }

  /**
   * One independently composable sub-shape: `size` blocks in the reference
   * frame and the rotated offset list for every yaw.
   */
  datatype BlueprintModule = BlueprintModule(
    size: nat,
    blueprint: seq<BlueprintBlock>,
    blueprintVectors: map<BlockRotation, seq<BlockVector>>)
  {
    /** The module invariant: the reference list and every rotated list have
        exactly `size` entries, so index i names the same block in all five. */
    predicate Valid() {
      |blueprint| == size &&
      forall yaw: BlockRotation :: yaw in blueprintVectors && |blueprintVectors[yaw]| == size
    }

    /** The precomputed rotated offset of block `index` for `yaw`. */
    function GetByIndex(index: nat, yaw: BlockRotation): (v: BlockVector)
      requires Valid() && index < size
    {
      blueprintVectors[yaw][index]
    }
  }

  /**
   * The module built from a shape definition: it keeps the blocks in factory
   * order, its size is their number, and it satisfies the module invariant.
   */
  function BuildModule(factory: BlueprintFactory): (m: BlueprintModule)
    requires factory.WellFormed()
    ensures m.Valid()
    ensures m.size == |factory.blocks| && m.blueprint == factory.blocks
    ensures forall yaw: BlockRotation :: m.blueprintVectors[yaw] == factory.rotated[yaw]
  {
    BlueprintModule(|factory.blocks|, factory.blocks, factory.rotated)
  }
}
