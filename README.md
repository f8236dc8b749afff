# MovableBlueprint: the module catalogue of a movable machina

A movable machina (a multi-block machine in a Minecraft server plugin) has a
blueprint made of modules. Each module is an independently composable
sub-shape. It holds `size` block descriptors in the unrotated reference
frame (`blueprint`). It also holds, for each of the four yaw steps, the
precomputed rotated offsets of those blocks in the same order
(`blueprintVectors`).

`MovableBlueprint` builds one module per shape definition and keeps that list
fixed. It answers lookups into a module's rotated offsets. It also flattens a
chosen list of module indices into one block array (`unifyBlueprint`) and one
offset array for a yaw (`unifyVectors`). Callers zip those two arrays
together, so position i of both must name the same block.

The model has three modules:

- `BlueprintModules` (`blueprint_module.dfy`): the four-valued `BlockRotation`,
  abstract `BlockVector` and `BlueprintBlock` types, the `BlueprintModule`
  record with its invariant (the reference list and every rotated list have
  `size` entries), and the shape definition a module is built from.
- `Unification` (`unification.dfy`): what unifying means, as functions
  (`TotalSize`, `UnifiedBlocks`, `UnifiedVectors`, and `Locate`, the block
  index behind a position), with the lemmas that the two unified lists are
  index-aligned.
- `MachinaCore` (`movable_blueprint.dfy`): the `MovableBlueprint` class. Its
  `modules` field is a `const` set by the constructor's loop. `UnifyBlueprint`
  and `UnifyVectors` are loops over arrays, proved against the `Unification`
  functions.

## Model

| member | source | states |
|---|---|---|
| `BlueprintModules.BuildModule` | MachinaCore/src/me/lyneira/MachinaCore/MovableBlueprint.java:27 | a module built from a well-formed shape definition keeps its blocks in definition order, has their number as `size`, and satisfies the module invariant |
| `MachinaCore.MovableBlueprint.constructor` | MachinaCore/src/me/lyneira/MachinaCore/MovableBlueprint.java:23-29 | there are as many modules as shape definitions, module k is the one built from definition k, and every module satisfies the module invariant |
| `MachinaCore.MovableBlueprint.GetByIndex` | MachinaCore/src/me/lyneira/MachinaCore/MovableBlueprint.java:56-58 | returns element `index` of module `moduleIndex`'s rotated list for `yaw`; both indices must be in range; it is a function, so it changes nothing |
| `MachinaCore.MovableBlueprint.GetByIndexAligned` | MachinaCore/src/me/lyneira/MachinaCore/MovableBlueprint.java:56-58 | position i of the unified vectors is exactly what `GetByIndex` returns for the module and in-module position that `Locate` assigns to i |
| `MachinaCore.MovableBlueprint.UnifyBlueprint` | MachinaCore/src/me/lyneira/MachinaCore/MovableBlueprint.java:134-149 | returns a fresh array whose length is the summed size of the named modules (0 for an empty list) and whose contents are their reference blocks concatenated in index order |
| `MachinaCore.MovableBlueprint.UnifyVectors` | MachinaCore/src/me/lyneira/MachinaCore/MovableBlueprint.java:163-172 | given an array at least as long as the summed size, its first summed-size entries become the named modules' rotated lists for `yaw` concatenated in index order, and every later entry is unchanged |
| `Unification.ExtendBlocks` | MachinaCore/src/me/lyneira/MachinaCore/MovableBlueprint.java:136-146 | one more loop step over the indices adds that module's size to the running total and its blocks after the blocks already copied |
| `Unification.ExtendVectors` | MachinaCore/src/me/lyneira/MachinaCore/MovableBlueprint.java:165-170 | one more loop step over the indices appends that module's rotated list for `yaw` after the vectors already written |
| `Unification.TotalSizeAppend` | MachinaCore/src/me/lyneira/MachinaCore/MovableBlueprint.java:135-138 | the summed size of two concatenated index lists is the sum of their sizes, so a repeated index is counted each time |
| `Unification.TotalSizePrefix` | MachinaCore/src/me/lyneira/MachinaCore/MovableBlueprint.java:139-146 | the modules named up to and including position j fit within the summed size, so the copy loop stays inside the allocated array |
| `Unification.UnifiedBlocksAppend` | MachinaCore/src/me/lyneira/MachinaCore/MovableBlueprint.java:140-147 | unifying a concatenation of index lists concatenates their unified blocks |
| `Unification.UnifiedVectorsAppend` | MachinaCore/src/me/lyneira/MachinaCore/MovableBlueprint.java:164-171 | unifying a concatenation of index lists concatenates their unified vectors |
| `Unification.UnifiedBlocksLength` | MachinaCore/src/me/lyneira/MachinaCore/MovableBlueprint.java:135-148 | under the module invariant the unified blocks have exactly the summed size |
| `Unification.UnifiedVectorsLength` | MachinaCore/src/me/lyneira/MachinaCore/MovableBlueprint.java:163-172 | under the module invariant the unified vectors have exactly the summed size, for every yaw |
| `Unification.UnifiedSegment` | MachinaCore/src/me/lyneira/MachinaCore/MovableBlueprint.java:140-147 | the j-th named module fills the positions from the summed size of the indices before it, for its own size, with exactly its reference blocks in the block list and its rotated list in the vector list |
| `Unification.Locate` | MachinaCore/src/me/lyneira/MachinaCore/MovableBlueprint.java:140-146 | every position below the summed size has a block index (j, p): p is a block of the j-th named module and the position is the summed size of the indices before j plus p |
| `Unification.UnifiedAlignment` | MachinaCore/src/me/lyneira/MachinaCore/MovableBlueprint.java:134-172 | for the same indices and any yaw, both unified lists have the summed size, and position i of both is block p of the j-th named module, where (j, p) is the block index of i |

## Left out

- `detectOther`, `getBlockData`, `setBlockData`, `getBlockInventories` and `setBlockInventories` (MovableBlueprint.java:43-124) only forward to `BlueprintModule` methods. Those read and change the game world through its own API. `BlueprintModule`'s code is not part of this model, so these five are not modelled.
- The rotation arithmetic that fills `blueprintVectors` lives inside `BlueprintModule` and `BlockVector`, which are not part of this model. A shape definition (`BlueprintFactory`) therefore already carries the rotated lists. `BuildModule` takes them as given, and the constructor requires each definition to have a list of the right length for every yaw.
- `BlockVector` and `BlueprintBlock` are abstract types: nothing here depends on their coordinates or roles.
- `BlockRotation`'s four values are named after the four cardinal directions. Nothing depends on the names.
- `UnifyBlueprint`: Java's `int` sum of sizes could overflow past 2^31 - 1; the model's sizes are unbounded. Catalogues hold tens of blocks.
- An index outside the module list, an index outside a module, or a `vectors` array shorter than the summed size makes the Java code throw. These are preconditions in the model, not error results. The writes `unifyVectors` makes before it throws on a short array are not modelled.
- The singleton intent and the `MachinaBlueprint` interface are lifecycle and typing concerns with no behaviour of their own.
