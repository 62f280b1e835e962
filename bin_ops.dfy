/** Two-operand instructions: arithmetic/bitwise `BinaryOp` and `Cmp`. */
module BinOps {
  import opened Instructions

  /** `BinaryOp(kind, lhs, rhs)`: exactly the operands `[lhs, rhs]`, in that
      order, and the kind given. */
  function BinaryOp(id: Ident, kind: InstrKind, lhs: Value, rhs: Value): (r: Instruction)
    ensures IsBinaryOp(r) && r.kind == kind && r.id == id
    ensures r.operands[0] == lhs && r.operands[1] == rhs
  {
    Instruction(id, kind, [lhs, rhs], BinaryShape)
  }

  /** `Cmp(op, lhs, rhs)`: kind `Cmp`, two operands, and it keeps its operator. */
  function NewCmp(id: Ident, op: CmpOp, lhs: Value, rhs: Value): (r: Instruction)
    ensures r.kind == Cmp && r.operands == [lhs, rhs] && !IsBinaryOp(r)
    ensures r.shape.CmpShape? && r.shape.cmpOp == op
  {
    Instruction(id, Cmp, [lhs, rhs], CmpShape(op))
  }

  /** The mnemonic table of the comparison operators, indexed by the enum. */
  function CmpName(op: CmpOp): string {
    match op
    case Eq => "eq"
    case Ne => "ne"
    case Lt => "lt"
    case Le => "le"
    case Gt => "gt"
    case Ge => "ge"
  }

  /** Distinct operators are rendered with distinct mnemonics, each two letters. */
  lemma CmpNameInjective(a: CmpOp, b: CmpOp)
    ensures |CmpName(a)| == 2
    ensures CmpName(a) == CmpName(b) ==> a == b
  {
  }
}
