/**
 * Instructions and bindings of a basic block.
 *
 * The instruction hierarchy of the type checker is open; here it is a closed
 * variant with one constructor per kind that the reads/writes pass inspects,
 * plus `Alias` (the kind excluded from the global-alias self read) and
 * `Other` for every remaining kind, which reads no variable.
 */
module Instructions {
  /** A local variable, identified by its dense integer id. */
  type VarId = nat

  datatype Instruction =
    | Ident(what: VarId)
    | Send(recv: VarId, args: seq<VarId>)
    | TAbsurd(what: VarId)
    | Return(what: VarId)
    | BlockReturn(what: VarId)
    | Cast(value: VarId)
    | LoadSelf(fallback: VarId)
    | SolveConstraint(send: VarId)
    | Alias(symbol: nat)
    | Other

  /** One assignment `bind := value`; the source location is not modelled. */
  datatype Binding = Binding(bind: VarId, value: Instruction)

  /** The variables an instruction reads, in the order the pass marks them. */
  function Operands(ins: Instruction): seq<VarId>
  {
    match ins
    case Ident(what) => [what]
    case Send(recv, args) => [recv] + args
    case TAbsurd(what) => [what]
    case Return(what) => [what]
    case BlockReturn(what) => [what]
    case Cast(value) => [value]
    case LoadSelf(fallback) => [fallback]
    case SolveConstraint(send) => [send]
    case Alias(_) => []
    case Other => []
  }
}
