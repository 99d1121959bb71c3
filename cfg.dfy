/**
 * The control-flow graph of one method: an append-only arena of basic blocks
 * with block 0 as entry and block 1 as the dead block, the counters for the
 * next block id and variable id, and the two passes over it.
 */
module Cfg {
  import opened Wrappers
  import opened Instructions
  import opened Blocks
  import opened Dataflow
  import opened Sanity

  class CFG {
    /** The arena, in allocation order. */
    var basicBlocks: seq<BasicBlock>
    /** The id the next allocated block receives. */
    var maxBasicBlockId: nat
    /** Every variable id of the method is below this bound. */
    var maxVariableId: nat

    /** Block ids are unique and below the next id to allocate. */
    ghost predicate IdsValid()
      reads this
    {
      DistinctIds(basicBlocks) && IdsBelow(basicBlocks, maxBasicBlockId)
    }

    /** The object invariant: valid ids, and the entry and dead blocks exist. */
    ghost predicate Valid()
      reads this
    {
      IdsValid() && DeadBlockIndex < |basicBlocks|
    }

    /** Block `k` has id `k`, and the next id is the arena's length. */
    ghost predicate Dense()
      reads this
    {
      && maxBasicBlockId == |basicBlocks|
      && forall k | 0 <= k < |basicBlocks| :: basicBlocks[k].id == k
    }

    /** Every variable the blocks mention has an id below `maxVariableId`. */
    ghost predicate VarsValid()
      reads this
    {
      forall k | 0 <= k < |basicBlocks| :: VarsBelow(basicBlocks[k], maxVariableId)
    }

    /** Appends a block with the next id and the given loop depth and closure id. */
    method FreshBlock(outerLoops: int, rubyBlockId: int) returns (id: BlockId)
      requires IdsValid()
      modifies this
      ensures IdsValid()
      ensures id == old(maxBasicBlockId) && maxBasicBlockId == old(maxBasicBlockId) + 1
      ensures basicBlocks == old(basicBlocks) + [NewBlock(id, outerLoops, rubyBlockId)]
      ensures maxVariableId == old(maxVariableId)
      ensures old(Dense()) ==> Dense()
    {
      id := maxBasicBlockId;
      maxBasicBlockId := maxBasicBlockId + 1;
      basicBlocks := basicBlocks + [NewBlock(id, outerLoops, rubyBlockId)];
    }

    /** Allocates the entry block and the dead block, and makes the dead block jump to itself. */
    constructor ()
      ensures Valid() && Dense()
      ensures maxBasicBlockId == 2 && maxVariableId == 0
      ensures basicBlocks == [NewBlock(0, 0, 0), NewBlock(1, 0, 0).(bexit := BlockExit(NoVariable, Some(1), Some(1)))]
    {
      basicBlocks := [];
      maxBasicBlockId := 0;
      maxVariableId := 0;
      new;
      var entry := FreshBlock(0, 0);
      var deadCode := FreshBlock(0, 0);
      var d := basicBlocks[DeadBlockIndex];
      basicBlocks := basicBlocks[DeadBlockIndex := d.(bexit := d.bexit.(elseb := Some(d.id)))];
      d := basicBlocks[DeadBlockIndex];
      basicBlocks := basicBlocks[DeadBlockIndex := d.(bexit := d.bexit.(thenb := Some(d.id)))];
      d := basicBlocks[DeadBlockIndex];
      basicBlocks := basicBlocks[DeadBlockIndex := d.(bexit := d.bexit.(cond := NoVariable))];
    }

    /**
     * Computes the reads, writes and dead tables. `aliases` is the set of
     * variables that alias a global. The CFG is not changed, and the result is
     * a function of the blocks and the two bounds.
     */
    method FindAllReadsAndWrites(aliases: set<VarId>) returns (target: ReadsAndWrites)
      requires IdsValid() && VarsValid()
      ensures target == Analysis(basicBlocks, aliases, maxBasicBlockId, maxVariableId)
    {
      var scanned, readsAndWrites := ScanBlocks(basicBlocks, aliases, maxBasicBlockId, maxVariableId);
      ScannedRowLengths(basicBlocks, aliases, maxBasicBlockId, maxVariableId, scanned, readsAndWrites);
      var usageCounts := CountUsages(readsAndWrites, maxVariableId);
      CountedOnceInRange(readsAndWrites, scanned.writeBits, usageCounts, maxVariableId);
      var writeBits := ClearPrivateWrites(scanned.writeBits, usageCounts);
      target := ReadsAndWrites(scanned.readBits, writeBits, scanned.deadBits);
      SuppressedIsAnalysis(basicBlocks, aliases, maxBasicBlockId, maxVariableId, scanned, readsAndWrites, usageCounts, writeBits);
    }

    /**
     * The structural check. With `debugMode` off it accepts without looking;
     * with it on it accepts exactly the graphs `GraphSane` describes.
     */
    method SanityCheck(debugMode: bool) returns (ok: bool)
      requires Valid()
      ensures ok == (!debugMode || GraphSane(basicBlocks))
    {
      if !debugMode {
        return true;
      }
      var k := 0;
      while k < |basicBlocks|
        invariant 0 <= k <= |basicBlocks|
        invariant forall j | 0 <= j < k ::
          IsCondSet(basicBlocks[j].bexit) && (j != DeadBlockIndex ==> BlockSane(basicBlocks, j))
      {
        var bb := basicBlocks[k];
        if !IsCondSet(bb.bexit) {
          return false;
        }
        if k == DeadBlockIndex {
          k := k + 1;
          continue;
        }
        if bb.bexit.thenb.None? || bb.bexit.elseb.None? {
          return false;
        }
        var thenIndex := IndexOf(basicBlocks, bb.bexit.thenb.value);
        var elseIndex := IndexOf(basicBlocks, bb.bexit.elseb.value);
        if thenIndex.None? || elseIndex.None? {
          return false;
        }
        var thenCount := Count(basicBlocks[thenIndex.value].backEdges, bb.id);
        var elseCount := Count(basicBlocks[elseIndex.value].backEdges, bb.id);
        if thenCount != 1 || elseCount != 1 {
          return false;
        }
        if bb.bexit.thenb == bb.bexit.elseb {
          if CondExists(bb.bexit) {
            return false;
          }
        } else {
          if !CondExists(bb.bexit) {
            return false;
          }
        }
        k := k + 1;
      }
      return true;
    }
  }

  /** Blocks allocated after construction get the ids 2, 3, ... in order. */
  method FreshIdsFollowEntryAndDead() returns (first: BlockId, second: BlockId)
    ensures first == 2 && second == 3
  {
    var cfg := new CFG();
    first := cfg.FreshBlock(0, 0);
    second := cfg.FreshBlock(1, 0);
  }

  /** Any number of allocations after construction keeps block `k` at id `k`. */
  method AllocationsStayDense(n: nat) returns (cfg: CFG)
    ensures cfg.Valid() && cfg.Dense() && |cfg.basicBlocks| == n + 2
  {
    cfg := new CFG();
    var i := 0;
    while i < n
      invariant 0 <= i <= n
      invariant cfg.Valid() && cfg.Dense() && |cfg.basicBlocks| == i + 2
    {
      var id := cfg.FreshBlock(0, 0);
      i := i + 1;
    }
  }

  /** Running the pass twice on an unchanged graph gives identical tables. */
  method AnalysisIsRepeatable(cfg: CFG, aliases: set<VarId>) returns (first: ReadsAndWrites, second: ReadsAndWrites)
    requires cfg.IdsValid() && cfg.VarsValid()
    ensures first == second
  {
    first := cfg.FindAllReadsAndWrites(aliases);
    second := cfg.FindAllReadsAndWrites(aliases);
  }
}
