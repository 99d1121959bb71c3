/**
 * The structural invariants the sanity checker enforces: every exit is
 * decided, and every block but the dead one branches on a condition exactly
 * when its two successors differ and is recorded exactly once among the
 * back-edges of each successor.
 */
module Sanity {
  import opened Wrappers
  import opened Blocks

  /** Number of occurrences of `x` in `s` (`absl::c_count`). */
  function Count(s: seq<BlockId>, x: BlockId): (c: nat)
    ensures c <= |s|
    ensures c == 0 <==> x !in s
  {
    if s == [] then 0 else Count(s[..|s| - 1], x) + (if s[|s| - 1] == x then 1 else 0)
  }

  lemma {:induction false} CountIsMultiplicity(s: seq<BlockId>, x: BlockId)
    ensures Count(s, x) == multiset(s)[x]
  {
    if s != [] {
      CountIsMultiplicity(s[..|s| - 1], x);
      assert s == s[..|s| - 1] + [s[|s| - 1]];
    }
  }

  /** `target` resolves to a block of the arena whose back-edges list `pred` exactly once. */
  ghost predicate RecordedOnce(blocks: seq<BasicBlock>, target: Option<BlockId>, pred: BlockId)
  {
    match target
    case None => false
    case Some(t) =>
      match IndexOf(blocks, t)
      case None => false
      case Some(ti) => Count(blocks[ti].backEdges, pred) == 1
  }

  /** A branch exists exactly when the two successors differ. */
  ghost predicate ExitConsistent(e: BlockExit)
  {
    CondExists(e) <==> e.thenb != e.elseb
  }

  ghost predicate BlockSane(blocks: seq<BasicBlock>, k: nat)
    requires k < |blocks|
  {
    var bb := blocks[k];
    && RecordedOnce(blocks, bb.bexit.thenb, bb.id)
    && RecordedOnce(blocks, bb.bexit.elseb, bb.id)
    && ExitConsistent(bb.bexit)
  }

  /** What the checker accepts: every exit set, and every block but the dead one sane. */
  ghost predicate GraphSane(blocks: seq<BasicBlock>)
  {
    forall k | 0 <= k < |blocks| :: IsCondSet(blocks[k].bexit) && (k != DeadBlockIndex ==> BlockSane(blocks, k))
  }

  /**
   * In a sane graph, each block but the dead one occurs exactly once in the
   * back-edge list of each of its successors.
   */
  lemma SaneBackEdges(blocks: seq<BasicBlock>, k: nat)
    requires GraphSane(blocks) && k < |blocks| && k != DeadBlockIndex
    ensures blocks[k].bexit.thenb.Some? && blocks[k].bexit.elseb.Some?
    ensures var t := IndexOf(blocks, blocks[k].bexit.thenb.value);
      t.Some? && multiset(blocks[t.value].backEdges)[blocks[k].id] == 1
    ensures var e := IndexOf(blocks, blocks[k].bexit.elseb.value);
      e.Some? && multiset(blocks[e.value].backEdges)[blocks[k].id] == 1
  {
    assert BlockSane(blocks, k);
    var t := IndexOf(blocks, blocks[k].bexit.thenb.value).value;
    var e := IndexOf(blocks, blocks[k].bexit.elseb.value).value;
    CountIsMultiplicity(blocks[t].backEdges, blocks[k].id);
    CountIsMultiplicity(blocks[e].backEdges, blocks[k].id);
  }

  /** A block just allocated has no exit yet, so no graph holding it is sane. */
  lemma FreshBlockNotSane(blocks: seq<BasicBlock>, id: BlockId, outerLoops: int, rubyBlockId: int)
    ensures !GraphSane(blocks + [NewBlock(id, outerLoops, rubyBlockId)])
  {
    var all := blocks + [NewBlock(id, outerLoops, rubyBlockId)];
    assert !IsCondSet(all[|blocks|].bexit);
  }

  /**
   * A non-dead block whose id is missing from a successor's back-edges makes
   * the graph fail the check, whatever the rest of the graph looks like.
   */
  lemma {:induction false} MissingBackEdgeNotSane(blocks: seq<BasicBlock>, k: nat, t: nat)
    requires k < |blocks| && k != DeadBlockIndex && t < |blocks|
    requires blocks[k].bexit.thenb == Some(blocks[t].id) || blocks[k].bexit.elseb == Some(blocks[t].id)
    requires DistinctIds(blocks) && blocks[k].id !in blocks[t].backEdges
    ensures !GraphSane(blocks)
  {
    IndexOfDistinct(blocks, t);
    assert !BlockSane(blocks, k);
  }

  /**
   * The graph the constructor leaves, once the entry block is given an
   * unconditional jump to the dead block and the dead block records the entry
   * among its back-edges, is sane; without that back-edge it is not.
   */
  lemma {:induction false} WiredEntrySane(entry: BasicBlock, dead: BasicBlock)
    requires entry == BasicBlock(0, 0, 0, [], BlockExit(NoVariable, Some(1), Some(1)), [])
    requires dead.id == 1 && IsCondSet(dead.bexit)
    ensures GraphSane([entry, dead]) <==> Count(dead.backEdges, 0) == 1
  {
    var blocks := [entry, dead];
    assert blocks[1..] == [dead];
    assert IndexOf(blocks, 1) == Some(1);
    assert GraphSane(blocks) <==> BlockSane(blocks, 0);
  }
}
