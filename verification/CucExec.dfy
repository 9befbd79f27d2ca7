/** What a loaded function does when it runs: registers, memory, and the value each
    instruction produced last (which is what an operand `Ref` reads).

    Two machines run the same instructions.  The delayed machine is the OpenRISC
    processor: a branch takes effect after the instruction that follows it.  The
    sequential machine is the one the compiler works for: a branch takes effect
    at once. */
module CucExec {
  import opened CucInsn

  datatype State = State(regs: map<int, Word>, vals: map<int, Word>, mem: map<Word, Byte>)

  /** A program counter and the machine state. */
  datatype Config = Config(pc: int, st: State)

  function Look(m: map<int, Word>, k: int): Word {
    if k in m then m[k] else 0
  }

  function Value(o: Operand, st: State): Word {
    match o
    case Const(w) => w
    case Reg(r) => Look(st.regs, r)
    case Ref(i) => Look(st.vals, i)
    case _ => 0
  }

  function Wrap(a: int): Word { a % WORD_LIMIT }

  function Power2(n: nat): (r: nat)
    ensures r > 0
  { if n == 0 then 1 else 2 * Power2(n - 1) }

  /** Bitwise operations, from the least significant bit up. */
  function Bitwise(op: Opcode, a: nat, b: nat): nat
    decreases a + b
  {
    if a + b == 0 then 0
    else
      var x, y := a % 2 == 1, b % 2 == 1;
      var bit := if op.And? then x && y else if op.Or? then x || y else x != y;
      2 * Bitwise(op, a / 2, b / 2) + if bit then 1 else 0
  }

  /** The two's complement reading of a word. */
  function SignedValue(a: Word): int { if a < 0x8000_0000 then a else a - WORD_LIMIT }

  /** Shift amounts are taken modulo 32. */
  function Arith(op: Opcode, a: Word, b: Word): Word {
    match op
    case Add => Wrap(a + b)
    case Sub => Wrap(a - b)
    case Mul => Wrap(a * b)
    case Srl => Wrap(a / Power2(b % 32))
    case Sll => Wrap(a * Power2(b % 32))
    case Sra => Wrap(SignedValue(a) / Power2(b % 32))
    case _ => Wrap(Bitwise(op, a, b))
  }

  predicate Less(signed: bool, a: Word, b: Word) {
    if signed then SignedValue(a) < SignedValue(b) else a < b
  }

  predicate Compare(op: Opcode, signed: bool, a: Word, b: Word) {
    match op
    case Sfeq => a == b
    case Sfne => a != b
    case Sflt => Less(signed, a, b)
    case Sfge => !Less(signed, a, b)
    case Sfgt => Less(signed, b, a)
    case Sfle => !Less(signed, b, a)
    case _ => false
  }

  function ByteAt(mem: map<Word, Byte>, a: int): Byte {
    if Wrap(a) in mem then mem[Wrap(a)] else 0
  }

  /** The big-endian number in the `n` bytes from `a` on. */
  function BytesAt(mem: map<Word, Byte>, a: int, n: nat): nat {
    if n == 0 then 0 else 0x100 * BytesAt(mem, a, n - 1) + ByteAt(mem, a + n - 1)
  }

  /** The memory after the low `n` bytes of `v` are written from `a` on, big-endian. */
  function PutBytes(mem: map<Word, Byte>, a: int, n: nat, v: nat): map<Word, Byte> {
    if n == 0 then mem else PutBytes(mem, a, n - 1, v / 0x100)[Wrap(a + n - 1) := v % 0x100]
  }

  function SignExtend(w: nat, width: nat): Word {
    if width == 1 && 0x80 <= w then Wrap(w - 0x100)
    else if width == 2 && 0x8000 <= w then Wrap(w - 0x1_0000)
    else Wrap(w)
  }

  function Load(op: Opcode, signed: bool, a: Word, mem: map<Word, Byte>): Word
    requires IsLoad(op)
  {
    var w := BytesAt(mem, a, MemWidth(op));
    if signed then SignExtend(w, MemWidth(op)) else Wrap(w)
  }

  function Store(op: Opcode, a: Word, v: Word, mem: map<Word, Byte>): map<Word, Byte>
    requires IsStore(op)
  {
    PutBytes(mem, a, MemWidth(op), v)
  }

  /** The result of instruction `k`: recorded for references to `k` and written to
      the destination register, if there is one. */
  function SetResult(st: State, k: int, dest: Operand, v: Word): State {
    st.(vals := st.vals[k := v],
        regs := if dest.Dest? && dest.r >= 0 then st.regs[dest.r := v] else st.regs)
  }

  /** A load reads at the sum of operands 1 and 2.  A store that still has three operands writes
      operand 2 at the sum of operands 0 and 1; one whose address has been split
      off writes operand 0 at operand 1. */
  function StoreAddress(ins: Insn, st: State): Word {
    if ins.a2.None? then Value(ins.a1, st) else Wrap(Value(ins.a0, st) + Value(ins.a1, st))
  }

  function StoreData(ins: Insn, st: State): Word {
    if ins.a2.None? then Value(ins.a0, st) else Value(ins.a2, st)
  }

  /** The value an instruction computes; stores, branches and nops compute none. */
  function Result(ins: Insn, st: State): Word {
    var a, b := Value(ins.a1, st), Value(ins.a2, st);
    if IsLoad(ins.index) then Load(ins.index, FSigned in ins.ty, Wrap(a + b), st.mem)
    else if IsCompare(ins.index) then
      if Compare(ins.index, FSigned in ins.ty, a, b) then 1 else 0
    else if ins.index.Cmov? then if Value(ins.a3, st) != 0 then a else b
    else Arith(ins.index, a, b)
  }

  predicate HasResult(op: Opcode) { IsLoad(op) || IsCompare(op) || IsArith(op) || op.Cmov? }

  /** One instruction other than a branch, at position `k`. */
  function Exec(ins: Insn, k: int, st: State): State {
    if IsStore(ins.index) then
      st.(mem := Store(ins.index, StoreAddress(ins, st), StoreData(ins, st), st.mem))
    else if HasResult(ins.index) then SetResult(st, k, ins.a0, Result(ins, st))
    else st
  }

  /** Two instructions that differ at most in where they stand and in how their operands are named. */
  predicate SameWork(ins: Insn, s: State, ins': Insn, t: State) {
    ins.index == ins'.index &&
    (FSigned in ins.ty <==> FSigned in ins'.ty) &&
    (ins.a0.Dest? || ins'.a0.Dest? ==> ins.a0 == ins'.a0) &&
    (ins.a2.None? <==> ins'.a2.None?) &&
    Value(ins.a0, s) == Value(ins'.a0, t) && Value(ins.a1, s) == Value(ins'.a1, t) &&
    Value(ins.a2, s) == Value(ins'.a2, t) && Value(ins.a3, s) == Value(ins'.a3, t)
  }

  lemma SameWorkSameResult(ins: Insn, s: State, ins': Insn, t: State)
    requires SameWork(ins, s, ins', t) && s.mem == t.mem
    ensures Result(ins, s) == Result(ins', t)
  {
    hide Arith, Load, Compare, Value;
  }

  lemma SameWorkSameState(ins: Insn, k: int, s: State, ins': Insn, k': int, t: State)
    requires SameWork(ins, s, ins', t) && s.mem == t.mem && s.regs == t.regs
    ensures Exec(ins, k, s).mem == Exec(ins', k', t).mem
    ensures Exec(ins, k, s).regs == Exec(ins', k', t).regs
  {
    hide Result, Value, Store;
    assert IsStore(ins.index) ==>
      StoreAddress(ins, s) == StoreAddress(ins', t) &&
      StoreData(ins, s) == StoreData(ins', t);
    assert Result(ins, s) == Result(ins', t) by { SameWorkSameResult(ins, s, ins', t); }
  }

  lemma SameWorkSameValue(ins: Insn, k: int, s: State, ins': Insn, k': int, t: State)
    requires SameWork(ins, s, ins', t) && s.mem == t.mem
    requires Look(s.vals, k) == Look(t.vals, k')
    ensures Look(Exec(ins, k, s).vals, k) == Look(Exec(ins', k', t).vals, k')
  {
    hide Result, Value, Store;
    assert Result(ins, s) == Result(ins', t) by { SameWorkSameResult(ins, s, ins', t); }
  }

  /** An instruction records no value but its own. */
  lemma ExecFrame(ins: Insn, k: int, st: State)
    ensures forall j :: j != k ==> Look(Exec(ins, k, st).vals, j) == Look(st.vals, j)
  {
  }

  predicate IsBranch(ins: Insn) { FBranch in ins.ty }

  /** A branch on the flag register is negated by FFlag1 (l.bnf); a branch on a
      constant or on a saved value is taken when that is not zero. */
  predicate Taken(ins: Insn, st: State) {
    if ins.a1.Reg? then (Look(st.regs, ins.a1.r) != 0) == (FFlag1 !in ins.ty)
    else Value(ins.a1, st) != 0
  }

  function Target(ins: Insn, next: int): int {
    if ins.a0.Jump? then ins.a0.i else next
  }

  predicate Halted(p: seq<Insn>, c: Config) { !(0 <= c.pc < |p|) }

  /** One step of the sequential machine; a halted machine stays as it is. */
  function StepSeq(p: seq<Insn>, c: Config): Config {
    if Halted(p, c) then c
    else if IsBranch(p[c.pc]) then
      Config(if Taken(p[c.pc], c.st) then Target(p[c.pc], c.pc + 1) else c.pc + 1, c.st)
    else Config(c.pc + 1, Exec(p[c.pc], c.pc, c.st))
  }

  /** One step of the delayed machine.  A branch and its delay slot are one step:
      the branch is decided first, then the slot is executed, then control moves. */
  function StepDelayed(p: seq<Insn>, c: Config): Config {
    if Halted(p, c) then c
    else if IsBranch(p[c.pc]) then
      var st := if c.pc + 1 < |p| then Exec(p[c.pc + 1], c.pc + 1, c.st) else c.st;
      Config(if Taken(p[c.pc], c.st) then Target(p[c.pc], c.pc + 2) else c.pc + 2, st)
    else Config(c.pc + 1, Exec(p[c.pc], c.pc, c.st))
  }

  function RunSeq(p: seq<Insn>, c: Config, n: nat): Config
    decreases n
  {
    if n == 0 then c else RunSeq(p, StepSeq(p, c), n - 1)
  }

  function RunDelayed(p: seq<Insn>, c: Config, n: nat): Config
    decreases n
  {
    if n == 0 then c else RunDelayed(p, StepDelayed(p, c), n - 1)
  }

  lemma {:induction false} RunSeqSplit(p: seq<Insn>, c: Config, m: nat, n: nat)
    ensures RunSeq(p, c, m + n) == RunSeq(p, RunSeq(p, c, m), n)
    decreases m
  {
    if m > 0 {
      RunSeqSplit(p, StepSeq(p, c), m - 1, n);
    }
  }

  lemma {:induction false} RunDelayedSplit(p: seq<Insn>, c: Config, m: nat, n: nat)
    ensures RunDelayed(p, c, m + n) == RunDelayed(p, RunDelayed(p, c, m), n)
    decreases m
  {
    if m > 0 {
      RunDelayedSplit(p, StepDelayed(p, c), m - 1, n);
    }
  }

  lemma {:induction false} HaltedStays(p: seq<Insn>, c: Config, n: nat)
    requires Halted(p, c)
    ensures RunSeq(p, c, n) == c && RunDelayed(p, c, n) == c
  {
    if n > 0 {
      HaltedStays(p, c, n - 1);
    }
  }

  /** Adding 2^31 to both sides turns the signed order into the unsigned one. */
  lemma BiasedCompare(op: Opcode, a: Word, b: Word)
    ensures Compare(op, true, a, b) ==
            Compare(op, false, Arith(Add, a, 0x8000_0000), Arith(Add, b, 0x8000_0000))
  {
    assert Arith(Add, a, 0x8000_0000) == SignedValue(a) + 0x8000_0000;
    assert Arith(Add, b, 0x8000_0000) == SignedValue(b) + 0x8000_0000;
  }
}
