/** The instruction record shared by all passes of the Custom Unit Compiler.

    The C record keeps two parallel arrays per instruction, `opt[]` (what kind of
    operand) and `op[]` (its value).  Here the two are one `Operand` value, and the
    bit mask `type` is a set of flags.  Only the four operands any pass looks at
    are kept. */
module CucInsn {

  /** A 32-bit register value. */
  const WORD_LIMIT := 0x1_0000_0000
  type Word = w: int | 0 <= w < 0x1_0000_0000
  type Byte = b: int | 0 <= b < 0x100

  const MAX_INSNS := 0x10000
  const MAX_REGS := 34
  const FLAG_REG := MAX_REGS - 2
  const NO_REG := -1

  datatype Flag =
    | FBranch | FInDelay | FBbStart | FBbEnd | FOutput | FSigned
    | FMemory | FUnused | FFlag1 | FVolatile | FMemAdd | FCond

  datatype Opcode =
    | Add | Sub | And | Or | Xor | Mul | Srl | Sll | Sra
    | Lb | Lh | Lw | Sb | Sh | Sw
    | Sfeq | Sfne | Sfle | Sflt | Sfge | Sfgt
    | Bf | Lrbb | Cmov | Latch | Nop | Call

  /** `Dest(NO_REG)` is a result that is kept in no register: it can only be
      reached through a `Ref` to the instruction. */
  datatype Operand =
    | None
    | Const(w: Word)
    | Reg(r: int)
    | Dest(r: int)
    | Ref(i: int)
    | Jump(i: int)
    | Block(b: int)

  datatype Insn = Insn(
    ty: set<Flag>,
    index: Opcode,
    a0: Operand, a1: Operand, a2: Operand, a3: Operand,
    dep: seq<int>)

  const NOP_INSN := Insn({}, Nop, None, None, None, None, [])

  predicate IsLoad(op: Opcode) { op.Lb? || op.Lh? || op.Lw? }

  predicate IsStore(op: Opcode) { op.Sb? || op.Sh? || op.Sw? }

  predicate IsCompare(op: Opcode) {
    op.Sfeq? || op.Sfne? || op.Sfle? || op.Sflt? || op.Sfge? || op.Sfgt?
  }

  predicate IsArith(op: Opcode) {
    op.Add? || op.Sub? || op.And? || op.Or? || op.Xor? || op.Mul? || op.Srl? || op.Sll? || op.Sra?
  }

  /** Access width in bytes of a load or store. */
  function MemWidth(op: Opcode): nat
    requires IsLoad(op) || IsStore(op)
  {
    if op.Lb? || op.Sb? then 1 else if op.Lh? || op.Sh? then 2 else 4
  }

  /** Turning an instruction into a nop also clears its flags, operands and dependencies. */
  function ChangeType(ins: Insn, index: Opcode): Insn {
    if index.Nop? then NOP_INSN else ins.(index := index)
  }
}
