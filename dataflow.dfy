/**
 * The per-block reads/writes/dead-store pass and the whole-graph
 * suppression of write bits for variables confined to one block.
 *
 * The first half states what each bit means, declaratively, in terms of a
 * block's bindings; the second half gives the scans the pass performs and
 * proves them equal to those meanings.
 */
module Dataflow {
  import opened Wrappers
  import opened Instructions
  import opened Blocks

  /** The three tables the pass returns, indexed `[blockId][variableId]`. */
  datatype ReadsAndWrites = ReadsAndWrites(readBits: seq<seq<bool>>, writeBits: seq<seq<bool>>, deadBits: seq<seq<bool>>)

  /** For one variable: in how many blocks it occurs, and the first such block. */
  datatype Usage = Usage(count: nat, firstBlock: nat)

  // ---------------------------------------------------------------------
  // What the bits mean
  // ---------------------------------------------------------------------

  /**
   * A write to a global alias by anything but an `Alias` instruction is also
   * a read of that variable: its type reaches other blocks only through the
   * read channel.
   */
  ghost predicate SelfRead(b: Binding, aliases: set<VarId>, v: VarId)
  {
    v == b.bind && v in aliases && !b.value.Alias?
  }

  /** The variables one binding marks as read. */
  ghost predicate BindingReads(b: Binding, aliases: set<VarId>, v: VarId)
  {
    v in Operands(b.value) || SelfRead(b, aliases, v)
  }

  /** `reads[b][v]`: an operand of some binding, the exit condition, or a self-read global alias. */
  ghost predicate Reads(bb: BasicBlock, aliases: set<VarId>, v: VarId)
  {
    || (exists i | 0 <= i < |bb.exprs| :: v in Operands(bb.exprs[i].value))
    || bb.bexit.cond == Var(v)
    || (exists i | 0 <= i < |bb.exprs| :: SelfRead(bb.exprs[i], aliases, v))
  }

  /** `v` is the destination of some binding of the block. */
  ghost predicate Writes(bb: BasicBlock, v: VarId)
  {
    exists i | 0 <= i < |bb.exprs| :: bb.exprs[i].bind == v
  }

  /**
   * `dead[b][v]`: some binding writes `v` while no binding up to and including
   * it (its own operands count) has read `v`. Later reads do not retract it.
   */
  ghost predicate Dead(bb: BasicBlock, aliases: set<VarId>, v: VarId)
  {
    exists i | 0 <= i < |bb.exprs| ::
      bb.exprs[i].bind == v && forall j | 0 <= j <= i :: !BindingReads(bb.exprs[j], aliases, v)
  }

  /** The block reads or writes `v` (the auxiliary `readsAndWrites` bit). */
  ghost predicate Touches(bb: BasicBlock, v: VarId)
  {
    || Writes(bb, v)
    || (exists i | 0 <= i < |bb.exprs| :: v in Operands(bb.exprs[i].value))
    || bb.bexit.cond == Var(v)
  }

  /** `v` is private to block `k`: that block touches it and no other block does. */
  ghost predicate Private(blocks: seq<BasicBlock>, k: nat, v: VarId)
    requires k < |blocks|
  {
    Touches(blocks[k], v) && forall j | 0 <= j < |blocks| && j != k :: !Touches(blocks[j], v)
  }

  ghost function ReadsRow(bb: BasicBlock, aliases: set<VarId>, n: nat): seq<bool>
  {
    seq(n, v requires 0 <= v < n => Reads(bb, aliases, v))
  }

  ghost function WritesRow(bb: BasicBlock, n: nat): seq<bool>
  {
    seq(n, v requires 0 <= v < n => Writes(bb, v))
  }

  ghost function DeadRow(bb: BasicBlock, aliases: set<VarId>, n: nat): seq<bool>
  {
    seq(n, v requires 0 <= v < n => Dead(bb, aliases, v))
  }

  ghost function TouchesRow(bb: BasicBlock, n: nat): seq<bool>
  {
    seq(n, v requires 0 <= v < n => Touches(bb, v))
  }

  /** The final write row of block `k`: its writes, less those of variables private to it. */
  ghost function FinalWritesRow(blocks: seq<BasicBlock>, k: nat, n: nat): seq<bool>
    requires k < |blocks|
  {
    seq(n, v requires 0 <= v < n => Writes(blocks[k], v) && !Private(blocks, k, v))
  }

  /**
   * The result of the pass as a function of the block contents: one row per
   * id below `nb`; a row of `nv` bits for the id of each block, an empty row
   * for an id no block carries.
   */
  ghost function Analysis(blocks: seq<BasicBlock>, aliases: set<VarId>, nb: nat, nv: nat): ReadsAndWrites
  {
    ReadsAndWrites(
      seq(nb, b requires 0 <= b < nb => match IndexOf(blocks, b) case Some(k) => ReadsRow(blocks[k], aliases, nv) case None => []),
      seq(nb, b requires 0 <= b < nb => match IndexOf(blocks, b) case Some(k) => FinalWritesRow(blocks, k, nv) case None => []),
      seq(nb, b requires 0 <= b < nb => match IndexOf(blocks, b) case Some(k) => DeadRow(blocks[k], aliases, nv) case None => []))
  }

  // ---------------------------------------------------------------------
  // The forward scan over a block's bindings
  // ---------------------------------------------------------------------

  /** The read bit of `v` after the first `k` bindings have been scanned. */
  ghost predicate ReadBefore(es: seq<Binding>, k: nat, aliases: set<VarId>, v: VarId)
    requires k <= |es|
  {
    k > 0 && (ReadBefore(es, k - 1, aliases, v) || BindingReads(es[k - 1], aliases, v))
  }

  ghost predicate WrittenBefore(es: seq<Binding>, k: nat, v: VarId)
    requires k <= |es|
  {
    k > 0 && (WrittenBefore(es, k - 1, v) || es[k - 1].bind == v)
  }

  ghost predicate OperandBefore(es: seq<Binding>, k: nat, v: VarId)
    requires k <= |es|
  {
    k > 0 && (OperandBefore(es, k - 1, v) || v in Operands(es[k - 1].value))
  }

  /** The dead bit of `v` after `k` bindings: set when a write finds the read bit still clear. */
  ghost predicate DeadBefore(es: seq<Binding>, k: nat, aliases: set<VarId>, v: VarId)
    requires k <= |es|
  {
    k > 0 && (DeadBefore(es, k - 1, aliases, v) || (es[k - 1].bind == v && !ReadBefore(es, k, aliases, v)))
  }

  lemma {:induction false} ReadBeforeMeaning(es: seq<Binding>, k: nat, aliases: set<VarId>, v: VarId)
    requires k <= |es|
    ensures ReadBefore(es, k, aliases, v) <==> exists i | 0 <= i < k :: BindingReads(es[i], aliases, v)
  {
    if k > 0 {
      ReadBeforeMeaning(es, k - 1, aliases, v);
    }
  }

  lemma {:induction false} WrittenBeforeMeaning(es: seq<Binding>, k: nat, v: VarId)
    requires k <= |es|
    ensures WrittenBefore(es, k, v) <==> exists i | 0 <= i < k :: es[i].bind == v
  {
    if k > 0 {
      WrittenBeforeMeaning(es, k - 1, v);
    }
  }

  lemma {:induction false} OperandBeforeMeaning(es: seq<Binding>, k: nat, v: VarId)
    requires k <= |es|
    ensures OperandBefore(es, k, v) <==> exists i | 0 <= i < k :: v in Operands(es[i].value)
  {
    if k > 0 {
      OperandBeforeMeaning(es, k - 1, v);
      if v in Operands(es[k - 1].value) {
        assert exists i | 0 <= i < k :: v in Operands(es[i].value);
      } else if exists i | 0 <= i < k :: v in Operands(es[i].value) {
        var i :| 0 <= i < k && v in Operands(es[i].value);
        assert i < k - 1;
      }
    }
  }

  lemma {:induction false} DeadBeforeMeaning(es: seq<Binding>, k: nat, aliases: set<VarId>, v: VarId)
    requires k <= |es|
    ensures DeadBefore(es, k, aliases, v) <==>
      exists i | 0 <= i < k :: es[i].bind == v && forall j | 0 <= j <= i :: !BindingReads(es[j], aliases, v)
  {
    if k > 0 {
      DeadBeforeMeaning(es, k - 1, aliases, v);
      ReadBeforeMeaning(es, k, aliases, v);
      if DeadBefore(es, k, aliases, v) && !DeadBefore(es, k - 1, aliases, v) {
        assert es[k - 1].bind == v && forall j | 0 <= j <= k - 1 :: !BindingReads(es[j], aliases, v);
      }
    }
  }

  /** After the whole block is scanned, the read bits (with the exit condition) are `Reads`. */
  lemma ScanReadsMeaning(bb: BasicBlock, aliases: set<VarId>, v: VarId)
    ensures Reads(bb, aliases, v) <==> ReadBefore(bb.exprs, |bb.exprs|, aliases, v) || bb.bexit.cond == Var(v)
  {
    ReadBeforeMeaning(bb.exprs, |bb.exprs|, aliases, v);
  }

  lemma ScanTouchesMeaning(bb: BasicBlock, v: VarId)
    ensures Touches(bb, v) <==>
      WrittenBefore(bb.exprs, |bb.exprs|, v) || OperandBefore(bb.exprs, |bb.exprs|, v) || bb.bexit.cond == Var(v)
  {
    WrittenBeforeMeaning(bb.exprs, |bb.exprs|, v);
    OperandBeforeMeaning(bb.exprs, |bb.exprs|, v);
  }

  /** Marks every variable of `vs` as read (the loop over a send's arguments). */
  method MarkReads(blockReads: seq<bool>, blockReadsAndWrites: seq<bool>, vs: seq<VarId>) returns (blockReads': seq<bool>, blockReadsAndWrites': seq<bool>)
    requires |blockReadsAndWrites| == |blockReads|
    requires forall k | 0 <= k < |vs| :: vs[k] < |blockReads|
    ensures |blockReads'| == |blockReads| && |blockReadsAndWrites'| == |blockReads|
    ensures forall v | 0 <= v < |blockReads| :: blockReads'[v] == (blockReads[v] || v in vs)
    ensures forall v | 0 <= v < |blockReads| :: blockReadsAndWrites'[v] == (blockReadsAndWrites[v] || v in vs)
  {
    blockReads', blockReadsAndWrites' := blockReads, blockReadsAndWrites;
    var k := 0;
    while k < |vs|
      invariant 0 <= k <= |vs|
      invariant |blockReads'| == |blockReads| && |blockReadsAndWrites'| == |blockReads|
      invariant forall v | 0 <= v < |blockReads| :: blockReads'[v] == (blockReads[v] || v in vs[..k])
      invariant forall v | 0 <= v < |blockReads| :: blockReadsAndWrites'[v] == (blockReadsAndWrites[v] || v in vs[..k])
    {
      assert vs[..k + 1] == vs[..k] + [vs[k]];
      blockReads' := blockReads'[vs[k] := true];
      blockReadsAndWrites' := blockReadsAndWrites'[vs[k] := true];
      k := k + 1;
    }
    assert vs[..k] == vs;
  }

  /**
   * Marks the read operands of one instruction: the copied variable, a send's
   * receiver and arguments, the checked, returned or cast value, the fallback
   * of a self load, the send of a constraint; nothing for the other kinds.
   */
  method MarkOperands(blockReads: seq<bool>, blockReadsAndWrites: seq<bool>, ins: Instruction)
    returns (blockReads': seq<bool>, blockReadsAndWrites': seq<bool>)
    requires |blockReadsAndWrites| == |blockReads|
    requires forall u | u in Operands(ins) :: u < |blockReads|
    ensures |blockReads'| == |blockReads| && |blockReadsAndWrites'| == |blockReads|
    ensures forall v | 0 <= v < |blockReads| :: blockReads'[v] == (blockReads[v] || v in Operands(ins))
    ensures forall v | 0 <= v < |blockReads| :: blockReadsAndWrites'[v] == (blockReadsAndWrites[v] || v in Operands(ins))
  {
    match ins {
      case Ident(what) =>
        assert what in Operands(ins);
        blockReads', blockReadsAndWrites' := blockReads[what := true], blockReadsAndWrites[what := true];
      case Send(recv, args) =>
        assert recv in Operands(ins);
        blockReads', blockReadsAndWrites' := blockReads[recv := true], blockReadsAndWrites[recv := true];
        assert forall k | 0 <= k < |args| :: args[k] in Operands(ins);
        blockReads', blockReadsAndWrites' := MarkReads(blockReads', blockReadsAndWrites', args);
      case TAbsurd(what) =>
        assert what in Operands(ins);
        blockReads', blockReadsAndWrites' := blockReads[what := true], blockReadsAndWrites[what := true];
      case Return(what) =>
        assert what in Operands(ins);
        blockReads', blockReadsAndWrites' := blockReads[what := true], blockReadsAndWrites[what := true];
      case BlockReturn(what) =>
        assert what in Operands(ins);
        blockReads', blockReadsAndWrites' := blockReads[what := true], blockReadsAndWrites[what := true];
      case Cast(value) =>
        assert value in Operands(ins);
        blockReads', blockReadsAndWrites' := blockReads[value := true], blockReadsAndWrites[value := true];
      case LoadSelf(fallback) =>
        assert fallback in Operands(ins);
        blockReads', blockReadsAndWrites' := blockReads[fallback := true], blockReadsAndWrites[fallback := true];
      case SolveConstraint(send) =>
        assert send in Operands(ins);
        blockReads', blockReadsAndWrites' := blockReads[send := true], blockReadsAndWrites[send := true];
      case Alias(_) =>
        blockReads', blockReadsAndWrites' := blockReads, blockReadsAndWrites;
      case Other =>
        blockReads', blockReadsAndWrites' := blockReads, blockReadsAndWrites;
    }
  }

  /**
   * The scan of one block: for each binding in order, set the write bit of its
   * destination, the read bit of a self-read global alias, the read bits of its
   * operands, and then the dead bit of the destination if its read bit is still
   * clear; finally the read bit of an existing exit condition.
   */
  method ScanBlock(bb: BasicBlock, aliases: set<VarId>, n: nat)
    returns (blockReads: seq<bool>, blockWrites: seq<bool>, blockDead: seq<bool>, blockReadsAndWrites: seq<bool>)
    requires VarsBelow(bb, n)
    ensures blockReads == ReadsRow(bb, aliases, n)
    ensures blockWrites == WritesRow(bb, n)
    ensures blockDead == DeadRow(bb, aliases, n)
    ensures blockReadsAndWrites == TouchesRow(bb, n)
  {
    var es := bb.exprs;
    blockReads, blockWrites, blockDead, blockReadsAndWrites := seq(n, _ => false), seq(n, _ => false), seq(n, _ => false), seq(n, _ => false);
    var i := 0;
    while i < |es|
      invariant 0 <= i <= |es|
      invariant |blockReads| == n && |blockWrites| == n && |blockDead| == n && |blockReadsAndWrites| == n
      invariant forall v | 0 <= v < n :: blockReads[v] == ReadBefore(es, i, aliases, v)
      invariant forall v | 0 <= v < n :: blockWrites[v] == WrittenBefore(es, i, v)
      invariant forall v | 0 <= v < n :: blockDead[v] == DeadBefore(es, i, aliases, v)
      invariant forall v | 0 <= v < n :: blockReadsAndWrites[v] == (WrittenBefore(es, i, v) || OperandBefore(es, i, v))
    {
      var bind := es[i];
      var dst := bind.bind;
      blockWrites := blockWrites[dst := true];
      blockReadsAndWrites := blockReadsAndWrites[dst := true];
      if dst in aliases && !bind.value.Alias? {
        blockReads := blockReads[dst := true];
      }
      blockReads, blockReadsAndWrites := MarkOperands(blockReads, blockReadsAndWrites, bind.value);
      if !blockReads[dst] {
        blockDead := blockDead[dst := true];
      }
      i := i + 1;
    }
    if bb.bexit.cond.Var? {
      var c := bb.bexit.cond.id;
      blockReads, blockReadsAndWrites := blockReads[c := true], blockReadsAndWrites[c := true];
    }
    forall v | 0 <= v < n
      ensures blockReads[v] == Reads(bb, aliases, v) && blockReadsAndWrites[v] == Touches(bb, v)
      ensures blockWrites[v] == Writes(bb, v) && blockDead[v] == Dead(bb, aliases, v)
    {
      ScanReadsMeaning(bb, aliases, v);
      ScanTouchesMeaning(bb, v);
      WrittenBeforeMeaning(es, |es|, v);
      DeadBeforeMeaning(es, |es|, aliases, v);
    }
  }

  // ---------------------------------------------------------------------
  // Counting, across all blocks, the blocks that touch each variable
  // ---------------------------------------------------------------------

  /** Row `b` of the `readsAndWrites` table has bit `v` set. */
  ghost predicate Touched(rw: seq<seq<bool>>, b: nat, v: VarId)
  {
    b < |rw| && v < |rw[b]| && rw[b][v]
  }

  /** Number of rows below `k` with bit `v` set. */
  ghost function TouchCount(rw: seq<seq<bool>>, v: VarId, k: nat): nat
    requires k <= |rw|
  {
    if k == 0 then 0 else TouchCount(rw, v, k - 1) + (if Touched(rw, k - 1, v) then 1 else 0)
  }

  /** The first row below `k` with bit `v` set, or 0 when there is none. */
  ghost function FirstTouch(rw: seq<seq<bool>>, v: VarId, k: nat): nat
    requires k <= |rw|
  {
    if k == 0 then 0
    else if TouchCount(rw, v, k - 1) == 0 && Touched(rw, k - 1, v) then k - 1
    else FirstTouch(rw, v, k - 1)
  }

  lemma {:induction false} NoTouch(rw: seq<seq<bool>>, v: VarId, k: nat)
    requires k <= |rw|
    ensures TouchCount(rw, v, k) == 0 <==> forall c | 0 <= c < k :: !Touched(rw, c, v)
  {
    if k > 0 {
      NoTouch(rw, v, k - 1);
    }
  }

  /** A count of one with first row `b` means exactly: row `b` is the only row below `k` with bit `v` set. */
  lemma {:induction false} SoleTouch(rw: seq<seq<bool>>, v: VarId, k: nat, b: nat)
    requires k <= |rw|
    ensures (TouchCount(rw, v, k) == 1 && FirstTouch(rw, v, k) == b) <==>
      (b < k && Touched(rw, b, v) && forall c | 0 <= c < k && c != b :: !Touched(rw, c, v))
  {
    if k > 0 {
      SoleTouch(rw, v, k - 1, b);
      NoTouch(rw, v, k - 1);
      if Touched(rw, k - 1, v) && b != k - 1 {
        assert !(forall c | 0 <= c < k && c != b :: !Touched(rw, c, v));
      }
    }
  }

  /**
   * The first private-variable loop: for each row, for each set bit, record
   * the row as first block if the count is still zero, and add one to the count.
   */
  method CountUsages(rw: seq<seq<bool>>, n: nat) returns (usage: seq<Usage>)
    requires forall b | 0 <= b < |rw| :: |rw[b]| <= n
    ensures |usage| == n
    ensures forall v | 0 <= v < n :: usage[v] == Usage(TouchCount(rw, v, |rw|), FirstTouch(rw, v, |rw|))
  {
    usage := seq(n, _ => Usage(0, 0));
    var blockId := 0;
    while blockId < |rw|
      invariant 0 <= blockId <= |rw| && |usage| == n
      invariant forall v | 0 <= v < n :: usage[v] == Usage(TouchCount(rw, v, blockId), FirstTouch(rw, v, blockId))
    {
      var row := rw[blockId];
      var local := 0;
      while local < |row|
        invariant 0 <= local <= |row| && |usage| == n
        invariant forall v | 0 <= v < local ::
          usage[v] == Usage(TouchCount(rw, v, blockId + 1), FirstTouch(rw, v, blockId + 1))
        invariant forall v | local <= v < n ::
          usage[v] == Usage(TouchCount(rw, v, blockId), FirstTouch(rw, v, blockId))
      {
        if row[local] {
          if usage[local].count == 0 {
            usage := usage[local := usage[local].(firstBlock := blockId)];
          }
          usage := usage[local := usage[local].(count := usage[local].count + 1)];
        }
        local := local + 1;
      }
      blockId := blockId + 1;
    }
  }

  /** Among the first `k` usage entries, variable `v` is counted once, with first block `b`. */
  ghost predicate CountedOnceIn(usage: seq<Usage>, k: nat, b: nat, v: VarId)
  {
    v < k && v < |usage| && usage[v].count == 1 && usage[v].firstBlock == b
  }

  /** The second private-variable loop: clear `writes[firstBlock][v]` for every `v` counted once. */
  method ClearPrivateWrites(writes: seq<seq<bool>>, usage: seq<Usage>) returns (writes': seq<seq<bool>>)
    requires forall v | 0 <= v < |usage| && usage[v].count == 1 ::
      usage[v].firstBlock < |writes| && v < |writes[usage[v].firstBlock]|
    ensures |writes'| == |writes|
    ensures forall b | 0 <= b < |writes| :: |writes'[b]| == |writes[b]|
    ensures forall b, v | 0 <= b < |writes| && 0 <= v < |writes[b]| ::
      writes'[b][v] == (writes[b][v] && !CountedOnceIn(usage, |usage|, b, v))
  {
    writes' := writes;
    var local := 0;
    while local < |usage|
      invariant 0 <= local <= |usage|
      invariant |writes'| == |writes|
      invariant forall b | 0 <= b < |writes| :: |writes'[b]| == |writes[b]|
      invariant forall b, v | 0 <= b < |writes| && 0 <= v < |writes[b]| ::
        writes'[b][v] == (writes[b][v] && !CountedOnceIn(usage, local, b, v))
    {
      if usage[local].count == 1 {
        var b := usage[local].firstBlock;
        writes' := writes'[b := writes'[b][local := false]];
      }
      local := local + 1;
    }
  }

  /**
   * Ties the count-based test to the meaning of `Private`, for a
   * `readsAndWrites` table whose row for each block's id is that block's
   * touch row and whose other rows are empty.
   */
  lemma PrivateIffCountedOnce(blocks: seq<BasicBlock>, rw: seq<seq<bool>>, n: nat, k: nat, v: VarId)
    requires DistinctIds(blocks) && IdsBelow(blocks, |rw|) && k < |blocks| && v < n
    requires forall j | 0 <= j < |blocks| :: rw[blocks[j].id] == TouchesRow(blocks[j], n)
    requires forall b | 0 <= b < |rw| && IndexOf(blocks, b).None? :: rw[b] == []
    ensures Private(blocks, k, v) <==> TouchCount(rw, v, |rw|) == 1 && FirstTouch(rw, v, |rw|) == blocks[k].id
  {
    var id := blocks[k].id;
    SoleTouch(rw, v, |rw|, id);
    if Private(blocks, k, v) {
      forall c | 0 <= c < |rw| && c != id
        ensures !Touched(rw, c, v)
      {
        match IndexOf(blocks, c)
        case None =>
        case Some(j) =>
          assert j != k && !Touches(blocks[j], v);
      }
    }
    if TouchCount(rw, v, |rw|) == 1 && FirstTouch(rw, v, |rw|) == id {
      forall j | 0 <= j < |blocks| && j != k
        ensures !Touches(blocks[j], v)
      {
        assert !Touched(rw, blocks[j].id, v);
      }
    }
  }

  // ---------------------------------------------------------------------
  // The whole-graph pass
  // ---------------------------------------------------------------------

  /**
   * The tables after the loop over blocks: each block's rows sit at its id,
   * read, write and dead rows as scanned (writes not yet suppressed), and
   * rows of ids no block carries are empty.
   */
  ghost predicate Scanned(blocks: seq<BasicBlock>, aliases: set<VarId>, nb: nat, n: nat,
                          scanned: ReadsAndWrites, readsAndWrites: seq<seq<bool>>)
  {
    && |scanned.readBits| == nb && |scanned.writeBits| == nb && |scanned.deadBits| == nb && |readsAndWrites| == nb
    && IdsBelow(blocks, nb)
    && (forall j | 0 <= j < |blocks| ::
         && scanned.readBits[blocks[j].id] == ReadsRow(blocks[j], aliases, n)
         && scanned.writeBits[blocks[j].id] == WritesRow(blocks[j], n)
         && scanned.deadBits[blocks[j].id] == DeadRow(blocks[j], aliases, n)
         && readsAndWrites[blocks[j].id] == TouchesRow(blocks[j], n))
    && (forall b | 0 <= b < nb && IndexOf(blocks, b).None? ::
         && scanned.readBits[b] == [] && scanned.writeBits[b] == [] && scanned.deadBits[b] == []
         && readsAndWrites[b] == [])
  }

  /** The loop over blocks: size the tables, then scan every block into the rows at its id. */
  method ScanBlocks(blocks: seq<BasicBlock>, aliases: set<VarId>, nb: nat, n: nat)
    returns (scanned: ReadsAndWrites, readsAndWrites: seq<seq<bool>>)
    requires DistinctIds(blocks) && IdsBelow(blocks, nb)
    requires forall k | 0 <= k < |blocks| :: VarsBelow(blocks[k], n)
    ensures Scanned(blocks, aliases, nb, n, scanned, readsAndWrites)
  {
    var readBits: seq<seq<bool>> := seq(nb, _ => []);
    var writeBits: seq<seq<bool>> := seq(nb, _ => []);
    var deadBits: seq<seq<bool>> := seq(nb, _ => []);
    readsAndWrites := seq(nb, _ => []);
    ghost var done: set<BlockId> := {};
    var k := 0;
    while k < |blocks|
      invariant 0 <= k <= |blocks|
      invariant |readBits| == nb && |writeBits| == nb && |deadBits| == nb && |readsAndWrites| == nb
      invariant done == set j | 0 <= j < k :: blocks[j].id
      invariant forall j | 0 <= j < k ::
        && readBits[blocks[j].id] == ReadsRow(blocks[j], aliases, n)
        && writeBits[blocks[j].id] == WritesRow(blocks[j], n)
        && deadBits[blocks[j].id] == DeadRow(blocks[j], aliases, n)
        && readsAndWrites[blocks[j].id] == TouchesRow(blocks[j], n)
      invariant forall b | 0 <= b < nb && b !in done ::
        readBits[b] == [] && writeBits[b] == [] && deadBits[b] == [] && readsAndWrites[b] == []
    {
      var bb := blocks[k];
      var blockReads, blockWrites, blockDead, blockReadsAndWrites := ScanBlock(bb, aliases, n);
      readBits := readBits[bb.id := blockReads];
      writeBits := writeBits[bb.id := blockWrites];
      deadBits := deadBits[bb.id := blockDead];
      readsAndWrites := readsAndWrites[bb.id := blockReadsAndWrites];
      done := done + {bb.id};
      k := k + 1;
    }
    scanned := ReadsAndWrites(readBits, writeBits, deadBits);
    forall b | 0 <= b < nb && IndexOf(blocks, b).None?
      ensures b !in done
    {
    }
  }

  /** Every row of a scanned `readsAndWrites` table has at most `n` bits, as many as the write row beside it. */
  lemma ScannedRowLengths(blocks: seq<BasicBlock>, aliases: set<VarId>, nb: nat, n: nat,
                          scanned: ReadsAndWrites, readsAndWrites: seq<seq<bool>>)
    requires Scanned(blocks, aliases, nb, n, scanned, readsAndWrites)
    ensures forall b | 0 <= b < nb :: |readsAndWrites[b]| <= n && |scanned.writeBits[b]| == |readsAndWrites[b]|
  {
    forall b | 0 <= b < nb
      ensures |readsAndWrites[b]| <= n && |scanned.writeBits[b]| == |readsAndWrites[b]|
    {
      match IndexOf(blocks, b)
      case None =>
      case Some(j) =>
    }
  }

  /** A variable counted once has its first block's write row long enough to clear its bit. */
  lemma CountedOnceInRange(rw: seq<seq<bool>>, writes: seq<seq<bool>>, usage: seq<Usage>, n: nat)
    requires |writes| == |rw| && forall b | 0 <= b < |rw| :: |writes[b]| == |rw[b]|
    requires |usage| == n
    requires forall v | 0 <= v < n :: usage[v] == Usage(TouchCount(rw, v, |rw|), FirstTouch(rw, v, |rw|))
    ensures forall v | 0 <= v < |usage| && usage[v].count == 1 ::
      usage[v].firstBlock < |writes| && v < |writes[usage[v].firstBlock]|
  {
    forall v | 0 <= v < |usage| && usage[v].count == 1
      ensures usage[v].firstBlock < |writes| && v < |writes[usage[v].firstBlock]|
    {
      SoleTouch(rw, v, |rw|, FirstTouch(rw, v, |rw|));
    }
  }

  /** The usage entries are the per-variable counts and first blocks of `rw`. */
  ghost predicate UsageOf(rw: seq<seq<bool>>, usage: seq<Usage>, n: nat)
  {
    |usage| == n && forall v | 0 <= v < n :: usage[v] == Usage(TouchCount(rw, v, |rw|), FirstTouch(rw, v, |rw|))
  }

  /** `writes` is `scanned` with the bits of variables counted once cleared in their first block. */
  ghost predicate ClearedOnce(scanned: seq<seq<bool>>, usage: seq<Usage>, writes: seq<seq<bool>>)
  {
    && |writes| == |scanned|
    && (forall b | 0 <= b < |scanned| :: |writes[b]| == |scanned[b]|)
    && (forall b, v | 0 <= b < |scanned| && 0 <= v < |scanned[b]| ::
         writes[b][v] == (scanned[b][v] && !CountedOnceIn(usage, |usage|, b, v)))
  }

  /** After suppression, the write row of block `j` is its final write row. */
  lemma SuppressedWritesRow(blocks: seq<BasicBlock>, aliases: set<VarId>, nb: nat, n: nat,
                            scanned: ReadsAndWrites, rw: seq<seq<bool>>, usage: seq<Usage>, writes: seq<seq<bool>>, j: nat)
    requires DistinctIds(blocks) && Scanned(blocks, aliases, nb, n, scanned, rw) && j < |blocks|
    requires UsageOf(rw, usage, n) && ClearedOnce(scanned.writeBits, usage, writes)
    ensures writes[blocks[j].id] == FinalWritesRow(blocks, j, n)
  {
    var b := blocks[j].id;
    forall v | 0 <= v < n
      ensures writes[b][v] == FinalWritesRow(blocks, j, n)[v]
    {
      PrivateIffCountedOnce(blocks, rw, n, j, v);
    }
  }

  /** Scanned tables with the write bits of variables counted once cleared are `Analysis`. */
  lemma SuppressedIsAnalysis(blocks: seq<BasicBlock>, aliases: set<VarId>, nb: nat, n: nat,
                             scanned: ReadsAndWrites, rw: seq<seq<bool>>, usage: seq<Usage>, writes: seq<seq<bool>>)
    requires DistinctIds(blocks) && Scanned(blocks, aliases, nb, n, scanned, rw)
    requires UsageOf(rw, usage, n) && ClearedOnce(scanned.writeBits, usage, writes)
    ensures ReadsAndWrites(scanned.readBits, writes, scanned.deadBits) == Analysis(blocks, aliases, nb, n)
  {
    var spec := Analysis(blocks, aliases, nb, n);
    forall b | 0 <= b < nb
      ensures scanned.readBits[b] == spec.readBits[b] && scanned.deadBits[b] == spec.deadBits[b]
    {
      match IndexOf(blocks, b)
      case None =>
      case Some(j) =>
    }
    forall b | 0 <= b < nb
      ensures writes[b] == spec.writeBits[b]
    {
      match IndexOf(blocks, b)
      case None =>
      case Some(j) =>
        SuppressedWritesRow(blocks, aliases, nb, n, scanned, rw, usage, writes, j);
    }
  }

  // ---------------------------------------------------------------------
  // Properties of the tables
  // ---------------------------------------------------------------------

  /** Row shapes: `nb` rows; `nv` bits for each block's row; an empty row for an id no block carries. */
  lemma AnalysisShapes(blocks: seq<BasicBlock>, aliases: set<VarId>, nb: nat, nv: nat)
    requires DistinctIds(blocks) && IdsBelow(blocks, nb)
    ensures var r := Analysis(blocks, aliases, nb, nv);
      && |r.readBits| == nb && |r.writeBits| == nb && |r.deadBits| == nb
      && (forall k | 0 <= k < |blocks| ::
           |r.readBits[blocks[k].id]| == nv && |r.writeBits[blocks[k].id]| == nv && |r.deadBits[blocks[k].id]| == nv)
      && (forall b | 0 <= b < nb && (forall k | 0 <= k < |blocks| :: blocks[k].id != b) ::
           r.readBits[b] == [] && r.writeBits[b] == [] && r.deadBits[b] == [])
  {
    forall k | 0 <= k < |blocks| {
      IndexOfDistinct(blocks, k);
    }
  }

  /** The read bit of `v` in block `k`: an operand, the exit condition, or a self-read global alias. */
  lemma ReadsContents(blocks: seq<BasicBlock>, aliases: set<VarId>, nb: nat, nv: nat, k: nat, v: VarId)
    requires DistinctIds(blocks) && IdsBelow(blocks, nb) && k < |blocks| && v < nv
    ensures Analysis(blocks, aliases, nb, nv).readBits[blocks[k].id][v] <==>
      || (exists i | 0 <= i < |blocks[k].exprs| :: v in Operands(blocks[k].exprs[i].value))
      || blocks[k].bexit.cond == Var(v)
      || (exists i | 0 <= i < |blocks[k].exprs| ::
            blocks[k].exprs[i].bind == v && v in aliases && !blocks[k].exprs[i].value.Alias?)
  {
    IndexOfDistinct(blocks, k);
  }

  /** The dead bit of `v` in block `k`: some write to `v` comes before any read of it, its own operands included. */
  lemma DeadContents(blocks: seq<BasicBlock>, aliases: set<VarId>, nb: nat, nv: nat, k: nat, v: VarId)
    requires DistinctIds(blocks) && IdsBelow(blocks, nb) && k < |blocks| && v < nv
    ensures Analysis(blocks, aliases, nb, nv).deadBits[blocks[k].id][v] <==>
      exists i | 0 <= i < |blocks[k].exprs| ::
        blocks[k].exprs[i].bind == v && forall j | 0 <= j <= i :: !BindingReads(blocks[k].exprs[j], aliases, v)
  {
    IndexOfDistinct(blocks, k);
  }

  /**
   * Suppression: the final write bit of `v` in block `k` is the block's write
   * bit, cleared exactly when `v` is private to the block. So a bit is never
   * set by suppression, a private variable loses it, and a variable touched by
   * another block keeps it.
   */
  lemma WritesAfterSuppression(blocks: seq<BasicBlock>, aliases: set<VarId>, nb: nat, nv: nat, k: nat, v: VarId)
    requires DistinctIds(blocks) && IdsBelow(blocks, nb) && k < |blocks| && v < nv
    ensures var w := Analysis(blocks, aliases, nb, nv).writeBits[blocks[k].id][v];
      && (w ==> Writes(blocks[k], v))
      && (Private(blocks, k, v) ==> !w)
      && (!Private(blocks, k, v) ==> (w <==> Writes(blocks[k], v)))
      && ((exists j | 0 <= j < |blocks| :: j != k && Touches(blocks[j], v)) ==> (w <==> Writes(blocks[k], v)))
  {
    IndexOfDistinct(blocks, k);
  }

  /** A variable written in one block and read in another keeps its write bit. */
  lemma {:induction false} ReadElsewhereKeepsWrite(blocks: seq<BasicBlock>, aliases: set<VarId>, nb: nat, nv: nat, k: nat, j: nat, v: VarId)
    requires DistinctIds(blocks) && IdsBelow(blocks, nb) && k < |blocks| && j < |blocks| && j != k && v < nv
    requires Writes(blocks[k], v) && Reads(blocks[j], aliases, v)
    ensures Analysis(blocks, aliases, nb, nv).writeBits[blocks[k].id][v]
  {
    IndexOfDistinct(blocks, k);
    if exists i | 0 <= i < |blocks[j].exprs| :: SelfRead(blocks[j].exprs[i], aliases, v) {
      var i :| 0 <= i < |blocks[j].exprs| && SelfRead(blocks[j].exprs[i], aliases, v);
      assert Writes(blocks[j], v);
    }
    assert Touches(blocks[j], v);
  }

  /** Every dead mark is on a written variable. */
  lemma DeadIsWritten(bb: BasicBlock, aliases: set<VarId>, v: VarId)
    ensures Dead(bb, aliases, v) ==> Writes(bb, v)
  {
  }

  /** A later binding never retracts a dead mark: appending bindings keeps every dead bit set. */
  lemma {:induction false} DeadNotRetracted(bb: BasicBlock, more: seq<Binding>, aliases: set<VarId>, v: VarId)
    requires Dead(bb, aliases, v)
    ensures Dead(bb.(exprs := bb.exprs + more), aliases, v)
  {
    var es := bb.exprs + more;
    var i :| 0 <= i < |bb.exprs| &&
      bb.exprs[i].bind == v && forall j | 0 <= j <= i :: !BindingReads(bb.exprs[j], aliases, v);
    assert es[i].bind == v;
    forall j | 0 <= j <= i
      ensures !BindingReads(es[j], aliases, v)
    {
      assert es[j] == bb.exprs[j];
    }
  }

  /**
   * A variable every one of whose writes also reads it (as `x := copy(x)`, or
   * a write to a global alias by anything but `Alias`) is never dead.
   */
  lemma {:induction false} SelfReadingWritesNotDead(bb: BasicBlock, aliases: set<VarId>, v: VarId)
    requires forall i | 0 <= i < |bb.exprs| && bb.exprs[i].bind == v :: BindingReads(bb.exprs[i], aliases, v)
    ensures !Dead(bb, aliases, v)
  {
    forall i | 0 <= i < |bb.exprs| && bb.exprs[i].bind == v
      ensures !forall j | 0 <= j <= i :: !BindingReads(bb.exprs[j], aliases, v)
    {
      assert BindingReads(bb.exprs[i], aliases, v);
    }
  }

  /** `x := copy(y)` alone: reads {y}, writes {x}, and the write to `x` is dead. */
  lemma SingleCopyExample(x: VarId, y: VarId, target: BlockId)
    requires x != y
    ensures var bb := BasicBlock(2, 0, 0, [Binding(x, Ident(y))], BlockExit(NoVariable, Some(target), Some(target)), []);
      && (forall v :: Reads(bb, {}, v) <==> v == y)
      && (forall v :: Writes(bb, v) <==> v == x)
      && Dead(bb, {}, x) && !Dead(bb, {}, y)
  {
    var bb := BasicBlock(2, 0, 0, [Binding(x, Ident(y))], BlockExit(NoVariable, Some(target), Some(target)), []);
    assert Operands(bb.exprs[0].value) == [y];
    assert bb.exprs[0].bind == x;
  }

  /**
   * `x := copy(y); z := copy(x)`: both writes are dead. The write to `x` is read
   * by the second binding, but the mark set by the first binding is not retracted.
   */
  lemma TwoCopiesExample(x: VarId, y: VarId, z: VarId)
    requires x != y && y != z && x != z
    ensures var bb := BasicBlock(2, 0, 0, [Binding(x, Ident(y)), Binding(z, Ident(x))], BlockExit(NoVariable, Some(1), Some(1)), []);
      Dead(bb, {}, z) && Dead(bb, {}, x)
  {
    var bb := BasicBlock(2, 0, 0, [Binding(x, Ident(y)), Binding(z, Ident(x))], BlockExit(NoVariable, Some(1), Some(1)), []);
    assert Operands(bb.exprs[0].value) == [y];
    assert Operands(bb.exprs[1].value) == [x];
    assert bb.exprs[1].bind == z && forall j | 0 <= j <= 1 :: !BindingReads(bb.exprs[j], {}, z);
    assert bb.exprs[0].bind == x && forall j | 0 <= j <= 0 :: !BindingReads(bb.exprs[j], {}, x);
  }
}
