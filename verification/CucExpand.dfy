/** Expanding some instructions into several and relocating every reference:
    the shape shared by expand_branch, expand_memory and expand_signed. */
module CucExpand {
  import opened CucInsn
  import opened CucExec

  datatype Pass = SplitBranch | SplitMemory | SplitSigned

  predicate SignedCompare(ins: Insn) { FSigned in ins.ty && FMemory !in ins.ty }

  /** Is the instruction replaced by several ones in this pass? */
  predicate Splits(pass: Pass, ins: Insn) {
    match pass
    case SplitBranch => IsBranch(ins)
    case SplitMemory => FMemory in ins.ty
    case SplitSigned => SignedCompare(ins)
  }

  function Width(pass: Pass, ins: Insn): nat {
    if !Splits(pass, ins) then 1 else if pass.SplitMemory? then 2 else 3
  }

  /** Where instruction `i` of `p` starts after the pass. */
  function Pos(pass: Pass, p: seq<Insn>, i: nat): nat
    requires i <= |p|
  {
    if i == 0 then 0 else Pos(pass, p, i - 1) + Width(pass, p[i - 1])
  }

  lemma {:induction false} PosIncreases(pass: Pass, p: seq<Insn>, i: nat, j: nat)
    requires i <= j <= |p|
    ensures j - i <= Pos(pass, p, j) - Pos(pass, p, i) <= 3 * (j - i)
    decreases j
  {
    if i < j {
      PosIncreases(pass, p, i, j - 1);
    }
  }

  /** The pieces of a branch at index `i`: save the condition (negated for l.bnf), leave room for the
      delay slot, branch on the saved value.  The reference is still to be relocated. */
  function BranchPieces(ins: Insn, i: int): (r: seq<Insn>)
    ensures |r| == 3
  {
    var negated := FFlag1 in ins.ty;
    [ ins.(ty := {FCond}, index := Cmov, a0 := Dest(NO_REG),
           a1 := Const(if negated then 0 else 1), a2 := Const(if negated then 1 else 0), a3 := Reg(FLAG_REG)),
      NOP_INSN,
      if ins.a1.Reg? then ins.(a1 := Ref(i)) else ins ]
  }

  /** The pieces of a load or store: an address addition, then the access through it. */
  function MemoryPieces(ins: Insn, d: int): (r: seq<Insn>)
    ensures |r| == 2
  {
    var ty := (ins.ty * {FInDelay, FBbStart}) + {FMemAdd};
    if IsStore(ins.index) then
      [ ins.(ty := ty, index := Add, a0 := Dest(NO_REG), a2 := ins.a0, a3 := None),
        ins.(ty := ins.ty - {FBbStart}, a0 := ins.a2, a1 := Ref(d), a2 := None) ]
    else
      [ ins.(ty := ty, index := Add, a0 := Dest(NO_REG)),
        ins.(ty := ins.ty - {FBbStart}, a1 := Ref(d), a2 := None, a3 := None) ]
  }

  /** The pieces of a signed comparison: bias both operands, compare the results. */
  function SignedPieces(ins: Insn, d: int): (r: seq<Insn>)
    ensures |r| == 3
  {
    var bias := ins.(ty := {}, index := Add, a0 := Dest(NO_REG), a2 := Const(0x8000_0000), a3 := None);
    [ bias, bias.(a1 := ins.a2), ins.(a1 := Ref(d), a2 := Ref(d + 1)) ]
  }

  function Pieces(pass: Pass, ins: Insn, i: int, d: int): (r: seq<Insn>)
    ensures |r| == Width(pass, ins)
  {
    if !Splits(pass, ins) then [ins]
    else match pass
      case SplitBranch => BranchPieces(ins, i)
      case SplitMemory => MemoryPieces(ins, d)
      case SplitSigned => SignedPieces(ins, d)
  }

  /** The pieces of the first `i` instructions, one after the other. */
  function Flat(pass: Pass, p: seq<Insn>, i: nat): (r: seq<Insn>)
    requires i <= |p|
    ensures |r| == Pos(pass, p, i)
  {
    if i == 0 then []
    else Flat(pass, p, i - 1) + Pieces(pass, p[i - 1], i - 1, Pos(pass, p, i - 1))
  }

  lemma {:induction false} FlatAt(pass: Pass, p: seq<Insn>, n: nat, i: nat, k: nat)
    requires i < n <= |p| && k < Width(pass, p[i])
    ensures Pos(pass, p, i) + k < Pos(pass, p, n)
    ensures Flat(pass, p, n)[Pos(pass, p, i) + k] == Pieces(pass, p[i], i, Pos(pass, p, i))[k]
    decreases n
  {
    hide Pieces, Width;
    if i < n - 1 {
      FlatAt(pass, p, n - 1, i, k);
    }
  }

  /** Relocation of one operand; an operand that points outside the program stays as it is. */
  function Relocate(pass: Pass, p: seq<Insn>, o: Operand): Operand {
    match o
    case Ref(k) => if 0 <= k < |p| then Ref(Pos(pass, p, k)) else o
    case Jump(k) => if 0 <= k < |p| then Jump(Pos(pass, p, k)) else o
    case _ => o
  }

  function RelocateInsn(pass: Pass, p: seq<Insn>, ins: Insn): Insn {
    ins.(a0 := Relocate(pass, p, ins.a0), a1 := Relocate(pass, p, ins.a1),
         a2 := Relocate(pass, p, ins.a2), a3 := Relocate(pass, p, ins.a3))
  }

  /** What the last loop of a pass does to each instruction of the expanded program. */
  function Settle(pass: Pass, p: seq<Insn>, ins: Insn): Insn {
    match pass
    case SplitBranch => RelocateInsn(pass, p, ins)
    case SplitMemory => if FMemory in ins.ty then ins else RelocateInsn(pass, p, ins)
    case SplitSigned => if SignedCompare(ins) then ins.(ty := ins.ty - {FSigned}) else RelocateInsn(pass, p, ins)
  }

  /** The program after the pass. */
  function Expand(pass: Pass, p: seq<Insn>): (q: seq<Insn>)
    ensures |q| == Pos(pass, p, |p|)
  {
    var flat := Flat(pass, p, |p|);
    seq(|flat|, k requires 0 <= k < |flat| => Settle(pass, p, flat[k]))
  }

  /** Piece `k` of instruction `i` is found where `Pos` says. */
  lemma PieceAt(pass: Pass, p: seq<Insn>, i: nat, k: nat)
    requires i < |p| && k < Width(pass, p[i])
    ensures Pos(pass, p, i + 1) == Pos(pass, p, i) + Width(pass, p[i]) <= |Expand(pass, p)|
    ensures Expand(pass, p)[Pos(pass, p, i) + k] == Settle(pass, p, Pieces(pass, p[i], i, Pos(pass, p, i))[k])
  {
    hide Pieces, Settle, Flat, Width;
    FlatAt(pass, p, |p|, i, k);
    PosIncreases(pass, p, i + 1, |p|);
  }

  /** Every position of the new program belongs to the pieces of exactly one instruction. */
  lemma {:induction false} SourceOf(pass: Pass, p: seq<Insn>, n: nat, j: nat) returns (i: nat)
    requires n <= |p| && j < Pos(pass, p, n)
    ensures i < n && Pos(pass, p, i) <= j < Pos(pass, p, i) + Width(pass, p[i])
    decreases n
  {
    if Pos(pass, p, n - 1) <= j {
      i := n - 1;
    } else {
      i := SourceOf(pass, p, n - 1, j);
    }
  }

  // ---- Simulation ----

  predicate InRange(o: Operand, n: nat) {
    (o.Ref? ==> 0 <= o.i < n) && (o.Jump? ==> 0 <= o.i < n)
  }

  /** Operands stay inside the program and references never name an instruction that is split. */
  predicate Closed(pass: Pass, p: seq<Insn>, o: Operand) {
    InRange(o, |p|) && (o.Ref? ==> !Splits(pass, p[o.i]))
  }

  predicate ClosedInsn(pass: Pass, p: seq<Insn>, ins: Insn) {
    Closed(pass, p, ins.a0) && Closed(pass, p, ins.a1) && Closed(pass, p, ins.a2) && Closed(pass, p, ins.a3)
  }

  /** The same registers and memory, and the same value for every instruction that is not split. */
  ghost predicate Related(pass: Pass, p: seq<Insn>, s: State, t: State) {
    s.regs == t.regs && s.mem == t.mem &&
    forall k :: 0 <= k < |p| && !Splits(pass, p[k]) ==> Look(s.vals, k) == Look(t.vals, Pos(pass, p, k))
  }

  lemma PosInjective(pass: Pass, p: seq<Insn>, i: nat, k: nat)
    requires i < |p| && k < |p| && i != k
    ensures Pos(pass, p, k) < Pos(pass, p, i) || Pos(pass, p, i) + Width(pass, p[i]) <= Pos(pass, p, k)
  {
    if k < i {
      PosIncreases(pass, p, k + 1, i);
    } else {
      PosIncreases(pass, p, i + 1, k);
    }
  }

  /** Instruction `i` may change its own result, and the new program any result in its pieces' places. */
  lemma RelatedAfter(pass: Pass, p: seq<Insn>, s: State, t: State, i: nat, s': State, t': State)
    requires Related(pass, p, s, t) && i < |p|
    requires s'.regs == t'.regs && s'.mem == t'.mem
    requires forall k :: k != i ==> Look(s'.vals, k) == Look(s.vals, k)
    requires forall k :: !(Pos(pass, p, i) <= k < Pos(pass, p, i) + Width(pass, p[i])) ==>
               Look(t'.vals, k) == Look(t.vals, k)
    requires Splits(pass, p[i]) || Look(s'.vals, i) == Look(t'.vals, Pos(pass, p, i))
    ensures Related(pass, p, s', t')
  {
    forall k | 0 <= k < |p| && !Splits(pass, p[k])
      ensures Look(s'.vals, k) == Look(t'.vals, Pos(pass, p, k))
    {
      if k != i {
        PosInjective(pass, p, i, k);
      }
    }
  }

  lemma RelocateKeepsValue(pass: Pass, p: seq<Insn>, o: Operand, s: State, t: State)
    requires Related(pass, p, s, t) && Closed(pass, p, o)
    ensures Value(Relocate(pass, p, o), t) == Value(o, s)
  {
  }

  /** An instruction that is only relocated does the same. */
  lemma RelocatedExec(pass: Pass, p: seq<Insn>, i: nat, s: State, t: State)
    requires Related(pass, p, s, t) && i < |p| && !Splits(pass, p[i])
    requires ClosedInsn(pass, p, p[i])
    ensures Related(pass, p, Exec(p[i], i, s), Exec(RelocateInsn(pass, p, p[i]), Pos(pass, p, i), t))
  {
    var ins := p[i];
    var r := RelocateInsn(pass, p, ins);
    RelocateKeepsValue(pass, p, ins.a0, s, t);
    RelocateKeepsValue(pass, p, ins.a1, s, t);
    RelocateKeepsValue(pass, p, ins.a2, s, t);
    RelocateKeepsValue(pass, p, ins.a3, s, t);
    var d := Pos(pass, p, i);
    SameWorkSameState(ins, i, s, r, d, t);
    SameWorkSameValue(ins, i, s, r, d, t);
    ExecFrame(ins, i, s);
    ExecFrame(r, d, t);
    RelatedAfter(pass, p, s, t, i, Exec(ins, i, s), Exec(r, d, t));
  }
}
