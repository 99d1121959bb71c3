/**
 * Basic blocks and their exits. Blocks live in an arena (a sequence owned by
 * the CFG); branch targets and back-edges are block ids, not references to blocks.
 */
module Blocks {
  import opened Wrappers
  import opened Instructions

  type BlockId = nat

  /** Position of the dead block in the arena (the CFG constructor allocates it second). */
  const DeadBlockIndex: nat := 1

  /**
   * The exit condition: `Unset` until the builder decides the exit,
   * `NoVariable` for an unconditional jump, `Var(v)` for a branch on `v`.
   */
  datatype Condition = Unset | NoVariable | Var(id: VarId)

  datatype BlockExit = BlockExit(cond: Condition, thenb: Option<BlockId>, elseb: Option<BlockId>)

  datatype BasicBlock = BasicBlock(
    id: BlockId,
    outerLoops: int,
    rubyBlockId: int,
    exprs: seq<Binding>,
    bexit: BlockExit,
    backEdges: seq<BlockId>)

  predicate IsCondSet(e: BlockExit)
  {
    !e.cond.Unset?
  }

  predicate CondExists(e: BlockExit)
  {
    e.cond.Var?
  }

  /** A block as freshly allocated: no bindings, no exit, no back-edges. */
  function NewBlock(id: BlockId, outerLoops: int, rubyBlockId: int): BasicBlock
  {
    BasicBlock(id, outerLoops, rubyBlockId, [], BlockExit(Unset, None, None), [])
  }

  ghost predicate DistinctIds(blocks: seq<BasicBlock>)
  {
    forall j, k | 0 <= j < k < |blocks| :: blocks[j].id != blocks[k].id
  }

  ghost predicate IdsBelow(blocks: seq<BasicBlock>, bound: nat)
  {
    forall k | 0 <= k < |blocks| :: blocks[k].id < bound
  }

  /** Every variable a block mentions (destinations, operands, condition) is below `n`. */
  ghost predicate VarsBelow(bb: BasicBlock, n: nat)
  {
    && (forall i | 0 <= i < |bb.exprs| :: bb.exprs[i].bind < n)
    && (forall i, u | 0 <= i < |bb.exprs| && u in Operands(bb.exprs[i].value) :: u < n)
    && (bb.bexit.cond.Var? ==> bb.bexit.cond.id < n)
  }

  /** Resolves a block id to the block's position in the arena. */
  function IndexOf(blocks: seq<BasicBlock>, id: BlockId): (r: Option<nat>)
    ensures r.Some? ==> r.value < |blocks| && blocks[r.value].id == id
    ensures r.None? ==> forall k | 0 <= k < |blocks| :: blocks[k].id != id
  {
    if |blocks| == 0 then None
    else if blocks[0].id == id then Some(0)
    else match IndexOf(blocks[1..], id)
      case None => None
      case Some(k) => Some(k + 1)
  }

  lemma IndexOfDistinct(blocks: seq<BasicBlock>, k: nat)
    requires DistinctIds(blocks) && k < |blocks|
    ensures IndexOf(blocks, blocks[k].id) == Some(k)
  {
  }
}
