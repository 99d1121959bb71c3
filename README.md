# Control-flow-graph core of the type checker, in Dafny

This project models the control-flow graph (CFG) of one method body, as `cfg/CFG.cc` builds and checks it. The model has three parts:

- **Graph construction.** A CFG owns an append-only arena of basic blocks. `freshBlock` gives each new block the next id, the old `maxBasicBlockId`. Starting from the constructor, the ids stay dense: block `k` has id `k` (`Cfg.CFG.Dense`). The constructor allocates the entry block 0 and the dead block 1, and makes the dead block jump to itself with no condition variable.
- **Reads/writes pass** (`findAllReadsAndWrites`). It scans each block's bindings in order and fills three bit tables indexed `[blockId][variableId]`: `reads`, `writes` and `dead`. It also fills an auxiliary `readsAndWrites` table. A whole-graph pass then counts, for each variable, how many blocks touch it, and clears the write bit of any variable touched by exactly one block.
- **Structural validator** (`sanityCheck`). With debug mode on, it requires every exit to be set. For every block except the dead one it also requires:
  - a condition variable exactly when the two successors differ;
  - exactly one occurrence of the block in each successor's back-edge list.

## Layout

- `wrappers.dfy`: module `Wrappers`, the `Option` type used for branch targets that may be unset.
- `instructions.dfy`: module `Instructions`. It holds the instruction kinds as a closed datatype: `Ident`, `Send`, `TAbsurd`, `Return`, `BlockReturn`, `Cast`, `LoadSelf`, `SolveConstraint`, `Alias`, and `Other` for every kind that reads nothing. It also holds bindings and `Operands`, the variables each kind reads.
- `blocks.dfy`: module `Blocks`. It holds block exits, basic blocks and freshly allocated blocks. `IndexOf` resolves a block id to its position in the arena, which replaces following a raw reference to the block.
- `dataflow.dfy`: module `Dataflow`. It gives the meaning of every bit (`Reads`, `Writes`, `Dead`, `Touches`, `Private`) and the result `Analysis` as a function of the block contents. It also holds the scans the pass performs, proved equal to those meanings, and lemmas about the tables.
- `sanity.dfy`: module `Sanity`, with the predicate `GraphSane` that the validator decides and lemmas about it.
- `cfg.dfy`: module `Cfg`, with class `CFG`. Its fields `basicBlocks`, `maxBasicBlockId` and `maxVariableId` are those of the C++ class. Its methods are `FreshBlock`, the constructor, `FindAllReadsAndWrites` and `SanityCheck`.

## Modelling decisions

- `cfg/CFG.h` is not part of this model. The fields are inferred from their uses in `cfg/CFG.cc`.
- Blocks are values in `basicBlocks: seq<BasicBlock>`. Branch targets (`thenb`, `elseb`) and `backEdges` hold block ids. A target that is not set yet (null in the C++ code) is `None`.
- The class invariant (`IdsValid`) says block ids are pairwise distinct and below `maxBasicBlockId`. The invariant does not require dense ids. A graph built only by the constructor and `freshBlock` is dense (`Dense`), but the pass also handles arenas with gaps: a row of the tables whose id no block carries stays empty, as the `resize` calls of the C++ code leave it. `Valid` adds that the dead block, at position 1 of the arena, exists. That is what `deadBlock()` reads.
- The exit condition is `Unset`, `NoVariable` or `Var(v)`:
  - `isCondSet()` holds unless it is `Unset`;
  - `exists()` holds only for `Var(v)`.
- `LocalRef::isAliasForGlobal` is not part of this model. It is passed in as the set `aliases` of variables that alias a global. `debug_mode` is the parameter `debugMode`.
- A failed `ENFORCE` is the validator returning `false`.
- The pass indexes `vector<bool>` rows by block and variable id, so its precondition (`VarsValid`) is that every variable a block mentions is below `maxVariableId`.
- `FindAllReadsAndWrites` has no `modifies` clause and its result equals `Analysis` of the unchanged blocks. So running it twice on an unchanged graph gives identical tables (`AnalysisIsRepeatable`).

### Behaviour worth knowing

- The dead bit of a binding is decided at cfg/CFG.cc:93-96. That is after the binding's operands are marked at cfg/CFG.cc:63-91. So `x := copy(x)` is not dead (`Dataflow.SelfReadingWritesNotDead`).
- A dead mark is never cleared. So in `x := copy(y); z := copy(x)`, both `x` and `z` are dead (`Dataflow.TwoCopiesExample`, `Dataflow.DeadNotRetracted`).
- The else count at cfg/CFG.cc:149 is taken even when `elseb == thenb`. It then equals the then count.

## Model

| member | source | states |
|---|---|---|
| `Cfg.CFG.FreshBlock` | cfg/CFG.cc:16-23 | The new block's id is the old `maxBasicBlockId`, which grows by exactly 1. The block is appended last with the given `outerLoops` and `rubyBlockId`, no bindings, no exit and no back-edges. Earlier blocks and `maxVariableId` are unchanged. Ids stay distinct and below the bound. If block `k` had id `k` for every `k` before the call, that still holds after it (`Dense`). |
| `Cfg.CFG.constructor` | cfg/CFG.cc:25-31 | A new CFG has exactly two blocks, ids 0 and 1, and `maxBasicBlockId == 2`. Block 1 has both `thenb` and `elseb` equal to block 1 and no condition variable. Block 0 is a fresh block with its exit unset. Block `k` has id `k` for every `k` (`Dense`). |
| `Cfg.FreshIdsFollowEntryAndDead` | cfg/CFG.cc:16-31 | After construction, successive allocations return ids 2 and then 3. |
| `Cfg.AllocationsStayDense` | cfg/CFG.cc:16-31 | After construction and any number `n` of allocations, the arena holds `n + 2` blocks and block `k` has id `k`. |
| `Cfg.CFG.FindAllReadsAndWrites` | cfg/CFG.cc:33-134 | The returned tables equal `Analysis` of the blocks, the set of global aliases and the two bounds. The CFG is not modified. |
| `Cfg.AnalysisIsRepeatable` | cfg/CFG.cc:33-134 | Running the pass twice on an unchanged CFG gives identical tables. |
| `Cfg.CFG.SanityCheck` | cfg/CFG.cc:136-158 | With debug mode off it succeeds without inspecting anything. With it on it succeeds iff `GraphSane`: every exit is set, and every block but the dead one is recorded exactly once in the back-edges of `thenb` and of `elseb`, with a condition variable iff `thenb != elseb`. |
| `Dataflow.ScanBlocks` | cfg/CFG.cc:35-102 | Builds `maxBasicBlockId` rows per table. The rows at each block's id are that block's reads, pre-suppression writes, dead and touched rows. Every row whose id no block carries is empty. |
| `Dataflow.ScanBlock` | cfg/CFG.cc:41-102 | One block's four rows, each of `maxVariableId` bits. `reads` is `Reads`. `writes` is `Writes`: destinations only, never operands or the condition. `dead` is `Dead`. `readsAndWrites` is `Touches`. |
| `Dataflow.MarkOperands` | cfg/CFG.cc:63-91 | Sets the read and touched bits of exactly the operands of the instruction, per kind. `Alias` and every other kind set nothing. |
| `Dataflow.MarkReads` | cfg/CFG.cc:69-72 | Sets the read and touched bits of exactly the listed send arguments. |
| `Dataflow.ReadBeforeMeaning` | cfg/CFG.cc:50-91 | After scanning `k` bindings, a read bit is set iff one of those bindings reads the variable as an operand or as a self-read global alias. |
| `Dataflow.DeadBeforeMeaning` | cfg/CFG.cc:93-96 | After scanning `k` bindings, a dead bit is set iff some binding among them writes the variable while no binding up to and including it has read it. |
| `Dataflow.CountUsages` | cfg/CFG.cc:103-121 | For each variable, the number of rows with its bit set and the first such row (0 when there is none). |
| `Dataflow.ClearPrivateWrites` | cfg/CFG.cc:122-131 | Clears write bit `[b][v]` exactly when `v` is counted once with first block `b`. Every other bit and every row length are unchanged. |
| `Dataflow.NoTouch` | cfg/CFG.cc:109-121 | A count of zero means no row below the bound has the bit set. |
| `Dataflow.SoleTouch` | cfg/CFG.cc:109-131 | A count of one with first block `b` holds iff row `b` is the only row with the bit set. |
| `Dataflow.PrivateIffCountedOnce` | cfg/CFG.cc:103-131 | On the scanned `readsAndWrites` table, "counted once with first block the id of block `k`" is exactly `Private`: block `k` touches `v` and no other block does. |
| `Dataflow.SuppressedIsAnalysis` | cfg/CFG.cc:103-133 | The scanned tables with the counted-once write bits cleared are exactly `Analysis`. |
| `Dataflow.AnalysisShapes` | cfg/CFG.cc:35-49 | The tables have `maxBasicBlockId` rows. The row of every existing block has `maxVariableId` bits. Rows of ids with no block are empty. |
| `Dataflow.ReadsContents` | cfg/CFG.cc:59-101 | `reads[b][v]` holds iff one of three things holds: `v` is an operand of some binding of `b`; `v` is `b`'s existing exit condition; or `v` is the global-alias destination of a non-`Alias` binding of `b`. |
| `Dataflow.DeadContents` | cfg/CFG.cc:63-96 | `dead[b][v]` holds iff some binding of `b` writes `v` while no binding up to and including it reads `v`. |
| `Dataflow.WritesAfterSuppression` | cfg/CFG.cc:103-131 | A final write bit implies a write in the block. It is false if `v` is private to the block. It equals the block's write bit when `v` is not private, in particular when another block touches `v`. |
| `Dataflow.ReadElsewhereKeepsWrite` | cfg/CFG.cc:103-131 | A variable written in block `k` and read in a different block keeps its write bit in `k`. |
| `Dataflow.DeadIsWritten` | cfg/CFG.cc:93-96 | A dead bit is only set on a variable the block writes. |
| `Dataflow.DeadNotRetracted` | cfg/CFG.cc:93-96 | Appending bindings to a block never clears a dead bit, even if they read the variable. |
| `Dataflow.SelfReadingWritesNotDead` | cfg/CFG.cc:59-96 | A variable is never dead if each of its writes also reads it. Examples are `x := copy(x)` and a non-`Alias` write to a global alias. |
| `Dataflow.SingleCopyExample` | cfg/CFG.cc:50-101 | The block `x := copy(y)` with an unconditional exit reads exactly `{y}`, writes exactly `{x}`, and marks `x` dead. |
| `Dataflow.TwoCopiesExample` | cfg/CFG.cc:50-96 | In `x := copy(y); z := copy(x)`, both `x` and `z` are dead. The later read of `x` does not retract its mark. |
| `Blocks.IndexOf` | cfg/CFG.cc:148-149 | Resolving a branch target: the result is a position whose block has the id, or `None` when no block has it. |
| `Sanity.Count` | cfg/CFG.cc:148-149 | The back-edge count is at most the list length, and is zero iff the block is absent from the list. |
| `Sanity.CountIsMultiplicity` | cfg/CFG.cc:148-149 | The count equals the multiplicity of the id in the multiset of the back-edge list. |
| `Sanity.SaneBackEdges` | cfg/CFG.cc:148-151 | In a sane graph, every block but the dead one has both targets set and resolvable, and occurs exactly once in each target's back-edges. |
| `Sanity.FreshBlockNotSane` | cfg/CFG.cc:142 | A graph holding a just-allocated block is never sane: its exit is unset. |
| `Sanity.MissingBackEdgeNotSane` | cfg/CFG.cc:148-151 | A non-dead block missing from a successor's back-edges makes the graph fail the check. |
| `Sanity.WiredEntrySane` | cfg/CFG.cc:136-158 | Take the constructor's graph with the entry block jumping unconditionally to the dead block. It is sane iff the dead block lists the entry exactly once among its back-edges. |

## Left out

- `CFG::toString`, `CFG::showRaw`, `BasicBlock::toString` and `BasicBlock::showRaw` (cfg/CFG.cc:160-267) are left out. They are text rendering through formatting and symbol-name lookup, and the per-instruction printers are not part of this model.
- Timer and tracer instrumentation and the `core::Context` argument are left out. They are profiling and foreign state.
- The body of `LocalRef::isAliasForGlobal` is replaced by the parameter `aliases`. It depends on the symbol table.
- Ownership of blocks through `unique_ptr`, the explicit template instantiations (cfg/CFG.cc:8-10) and the `Binding` constructor (cfg/CFG.cc:269-270) are left out. So are the binding's source location and the block arguments, which only the renderers use. The id arena replaces the references between blocks.
- `ENFORCE` messages are left out. A failed check is `SanityCheck` returning `false`.
- `Cfg.CFG.SanityCheck`: when a non-dead block's target is unset, or names an id outside the arena, the model returns `false`. The C++ code would follow a null or dangling reference there.
- `Cfg.CFG.FreshBlock`: does not model 32-bit overflow of `maxBasicBlockId` or the `int` parameters; integers are unbounded, and the C++ code never approaches the limit.
- `Dataflow.CountUsages`: does not model 32-bit overflow of the `int` counters; a count is at most the number of blocks.
- `Cfg.CFG.constructor`: the initial value of `maxVariableId` comes from the header, which is not part of this model. The model sets it to 0; the builder sets the real bound before the pass runs.
- Removal or merging of blocks happens in passes outside this file and is not modelled. The model accepts arenas with gaps in their ids, since the pass handles them.
