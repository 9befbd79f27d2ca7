/** The lowering passes of the compiler preserve what a function does.

    `Lower` is the whole chain: split branches, move each branch behind its delay slot,
    split memory accesses, split signed comparisons. */
module CucLower {
  import opened CucInsn
  import opened CucExec
  import opened CucExpand

  // ---- Decoded programs ----

  predicate Plain(o: Operand) { o.Reg? || o.Const? }

  /** No operand of the instruction points anywhere. */
  predicate NoPointer(o: Operand) { !o.Ref? && !o.Jump? }

  predicate MemoryForm(ins: Insn) {
    ins.a3.None? && Plain(ins.a1) && Plain(ins.a2) &&
    ((IsLoad(ins.index) && ins.a0.Dest?) || (IsStore(ins.index) && Plain(ins.a0)))
  }

  predicate SignedForm(ins: Insn) {
    IsCompare(ins.index) && ins.a0.Dest? && Plain(ins.a1) && Plain(ins.a2)
  }

  predicate BranchForm(ins: Insn) {
    ins.index.Bf? && FMemory !in ins.ty && FSigned !in ins.ty && ins.a0.Jump? && ins.a2.None? && ins.a3.None?
  }

  /** An instruction as the decoder leaves it. */
  predicate DecodedInsn(ins: Insn, n: nat) {
    FInDelay !in ins.ty && FBbStart !in ins.ty &&
    if IsBranch(ins) then
      BranchForm(ins) && InRange(ins.a0, n) && (ins.a1 == Reg(FLAG_REG) || ins.a1 == Const(1))
    else if FMemory in ins.ty then MemoryForm(ins)
    else if FSigned in ins.ty then SignedForm(ins) && ins.a3.None?
    else NoPointer(ins.a0) && NoPointer(ins.a1) && NoPointer(ins.a2) && NoPointer(ins.a3)
  }

  predicate IsSlot(p: seq<Insn>, i: int) { 0 < i <= |p| && IsBranch(p[i - 1]) }

  /** A function body the passes are made for: every branch is followed by a delay
      slot that is not itself a branch, and no branch targets a delay slot. */
  predicate Decoded(p: seq<Insn>) {
    (forall i :: 0 <= i < |p| ==> DecodedInsn(p[i], |p|)) &&
    (forall i :: 0 <= i < |p| && IsBranch(p[i]) ==> i + 1 < |p|) &&
    (forall i :: 0 <= i < |p| && IsSlot(p, i) ==> !IsBranch(p[i])) &&
    (forall i :: 0 <= i < |p| && IsBranch(p[i]) ==> !IsSlot(p, p[i].a0.i))
  }

  // ---- Pass 1: split branches ----

  lemma DecodedClosed(p: seq<Insn>, i: nat)
    requires Decoded(p) && i < |p|
    ensures ClosedInsn(SplitBranch, p, p[i])
  {
  }

  /** One step of the delayed machine, matched by one or three steps of the split program. */
  lemma SplitBranchStep(p: seq<Insn>, i: nat, s: State, t: State) returns (k: nat)
    requires Decoded(p) && i < |p| && Related(SplitBranch, p, s, t)
    ensures k > 0
    ensures
      var c := StepDelayed(p, Config(i, s));
      var c' := RunDelayed(Expand(SplitBranch, p), Config(Pos(SplitBranch, p, i), t), k);
      0 <= c.pc <= |p| && c'.pc == Pos(SplitBranch, p, c.pc) && Related(SplitBranch, p, c.st, c'.st)
  {
    var q := Expand(SplitBranch, p);
    var d := Pos(SplitBranch, p, i);
    if !IsBranch(p[i]) {
      k := 1;
      DecodedClosed(p, i);
      PieceAt(SplitBranch, p, i, 0);
      RelocatedExec(SplitBranch, p, i, s, t);
      assert RunDelayed(q, Config(d, t), 1) == StepDelayed(q, Config(d, t));
    } else {
      k := 3;
      SplitBranchTaken(p, i, s, t);
    }
  }

  lemma DecodedBranch(p: seq<Insn>, i: nat)
    requires Decoded(p) && i < |p| && IsBranch(p[i])
    ensures i + 1 < |p| && !IsBranch(p[i + 1]) && FInDelay !in p[i].ty
    ensures BranchForm(p[i]) && 0 <= p[i].a0.i < |p| && (p[i].a1 == Reg(FLAG_REG) || p[i].a1 == Const(1))
  {
    assert IsSlot(p, i + 1);
  }

  /** The branch of a split program. */
  function SplitBranchAt(p: seq<Insn>, i: nat): Insn
    requires i < |p| && p[i].a0.Jump? && 0 <= p[i].a0.i < |p|
  {
    p[i].(a0 := Jump(Pos(SplitBranch, p, p[i].a0.i)),
          a1 := if p[i].a1.Reg? then Ref(Pos(SplitBranch, p, i)) else p[i].a1)
  }

  /** What the three pieces of a branch look like in the split program. */
  lemma SplitBranchPieces(p: seq<Insn>, i: nat)
    requires i < |p| && IsBranch(p[i]) && BranchForm(p[i]) && 0 <= p[i].a0.i < |p|
    requires p[i].a1 == Reg(FLAG_REG) || p[i].a1 == Const(1)
    ensures Pos(SplitBranch, p, i + 1) == Pos(SplitBranch, p, i) + 3 <= |Expand(SplitBranch, p)|
    ensures Expand(SplitBranch, p)[Pos(SplitBranch, p, i)] == BranchPieces(p[i], i)[0]
    ensures Expand(SplitBranch, p)[Pos(SplitBranch, p, i) + 1] == NOP_INSN
    ensures Expand(SplitBranch, p)[Pos(SplitBranch, p, i) + 2] == SplitBranchAt(p, i)
  {
    hide Expand;
    PieceAt(SplitBranch, p, i, 0);
    PieceAt(SplitBranch, p, i, 1);
    PieceAt(SplitBranch, p, i, 2);
    assert RelocateInsn(SplitBranch, p, BranchPieces(p[i], i)[0]) == BranchPieces(p[i], i)[0];
    assert RelocateInsn(SplitBranch, p, BranchPieces(p[i], i)[2]) == SplitBranchAt(p, i);
  }

  /** The saved value decides the branch as the flag would have done. */
  lemma SavedFlag(ins: Insn, i: int, d: int, t: State)
    requires ins.a1 == Reg(FLAG_REG) || ins.a1 == Const(1)
    ensures
      var t' := Exec(BranchPieces(ins, i)[0], d, t);
      t'.regs == t.regs && t'.mem == t.mem &&
      (if ins.a1.Reg? then Look(t'.vals, d) != 0 else ins.a1.w != 0) == Taken(ins, t)
  {
  }

  lemma ThreeSteps(q: seq<Insn>, d: nat, t: State)
    requires d + 2 < |q| && !IsBranch(q[d]) && q[d + 1] == NOP_INSN
    ensures RunDelayed(q, Config(d, t), 3) == StepDelayed(q, Config(d + 2, Exec(q[d], d, t)))
  {
    var t1 := Exec(q[d], d, t);
    var c1, c2 := Config(d + 1, t1), Config(d + 2, t1);
    assert StepDelayed(q, c1) == c2;
    assert RunDelayed(q, Config(d, t), 3) == RunDelayed(q, c1, 2) == RunDelayed(q, c2, 1) == StepDelayed(q, c2);
  }

  lemma DelayedBranch(p: seq<Insn>, i: nat, s: State)
    requires i + 1 < |p| && IsBranch(p[i]) && p[i].a0.Jump?
    ensures StepDelayed(p, Config(i, s)) ==
            Config(if Taken(p[i], s) then p[i].a0.i else i + 2, Exec(p[i + 1], i + 1, s))
  {
  }

  /** Saving, the nop, the branch and its slot: control ends where the original branch would have gone. */
  lemma SplitBranchRun(q: seq<Insn>, d: nat, ins: Insn, i: int, target: int, t: State)
    requires d + 3 < |q| && IsBranch(ins) && (ins.a1 == Reg(FLAG_REG) || ins.a1 == Const(1))
    requires q[d] == BranchPieces(ins, i)[0] && q[d + 1] == NOP_INSN
    requires q[d + 2].ty == ins.ty && q[d + 2].a0 == Jump(target)
    requires q[d + 2].a1 == if ins.a1.Reg? then Ref(d) else ins.a1
    ensures RunDelayed(q, Config(d, t), 3) ==
            Config(if Taken(ins, t) then target else d + 4, Exec(q[d + 3], d + 3, Exec(q[d], d, t)))
  {
    ThreeSteps(q, d, t);
    DelayedBranch(q, d + 2, Exec(q[d], d, t));
    SavedFlag(ins, i, d, t);
  }

  /** Both machines decide the branch alike, execute the same slot, and go to the same place. */
  lemma SplitBranchTaken(p: seq<Insn>, i: nat, s: State, t: State)
    requires Decoded(p) && i < |p| && IsBranch(p[i]) && Related(SplitBranch, p, s, t)
    ensures
      var c := StepDelayed(p, Config(i, s));
      var c' := RunDelayed(Expand(SplitBranch, p), Config(Pos(SplitBranch, p, i), t), 3);
      0 <= c.pc <= |p| && c'.pc == Pos(SplitBranch, p, c.pc) && Related(SplitBranch, p, c.st, c'.st)
  {
    hide Exec, Related, Taken, StepDelayed, RunDelayed, Decoded, ClosedInsn, Expand, Relocate, BranchPieces;
    var q := Expand(SplitBranch, p);
    var d := Pos(SplitBranch, p, i);
    DecodedBranch(p, i);
    DecodedClosed(p, i + 1);
    DelayedBranch(p, i, s);
    SplitBranchPieces(p, i);
    PieceAt(SplitBranch, p, i + 1, 0);
    SplitBranchRun(q, d, p[i], i, Pos(SplitBranch, p, p[i].a0.i), t);
    SplitBranchRelated(p, i, s, t);
    SameTaken(p, i, s, t);
  }

  lemma SplitBranchRelated(p: seq<Insn>, i: nat, s: State, t: State)
    requires i + 1 < |p| && IsBranch(p[i]) && (p[i].a1 == Reg(FLAG_REG) || p[i].a1 == Const(1))
    requires !IsBranch(p[i + 1]) && ClosedInsn(SplitBranch, p, p[i + 1]) && Related(SplitBranch, p, s, t)
    ensures
      var d := Pos(SplitBranch, p, i);
      var t1 := Exec(BranchPieces(p[i], i)[0], d, t);
      var slot := RelocateInsn(SplitBranch, p, p[i + 1]);
      Related(SplitBranch, p, Exec(p[i + 1], i + 1, s), Exec(slot, d + 3, t1))
  {
    hide Exec, RelocateInsn, ClosedInsn, BranchPieces, Pieces, Related;
    var d := Pos(SplitBranch, p, i);
    var t1 := Exec(BranchPieces(p[i], i)[0], d, t);
    assert Related(SplitBranch, p, s, t1) by {
      SavedFlag(p[i], i, d, t);
      ExecFrame(BranchPieces(p[i], i)[0], d, t);
      RelatedAfterSave(p, i, s, t, t1);
    }
    assert Pos(SplitBranch, p, i + 1) == d + 3;
    RelocatedExec(SplitBranch, p, i + 1, s, t1);
  }

  lemma RelatedAfterSave(p: seq<Insn>, i: nat, s: State, t: State, t1: State)
    requires i < |p| && IsBranch(p[i]) && Related(SplitBranch, p, s, t)
    requires t1.regs == t.regs && t1.mem == t.mem
    requires forall j :: j != Pos(SplitBranch, p, i) ==> Look(t1.vals, j) == Look(t.vals, j)
    ensures Related(SplitBranch, p, s, t1)
  {
    RelatedAfter(SplitBranch, p, s, t, i, s, t1);
  }

  lemma SameTaken(p: seq<Insn>, i: nat, s: State, t: State)
    requires i < |p| && Plain(p[i].a1) && Related(SplitBranch, p, s, t)
    ensures Taken(p[i], s) == Taken(p[i], t)
  {
  }

  // ---- Pass 2: move each branch behind its delay slot ----

  predicate NoRef(ins: Insn) { !ins.a0.Ref? && !ins.a1.Ref? && !ins.a2.Ref? && !ins.a3.Ref? }

  /** The condition of a branch is a constant or the value of an instruction that stays in its place. */
  predicate SteadyCondition(q: seq<Insn>, o: Operand) {
    o.Const? || (o.Ref? && 0 <= o.i < |q| && !IsBranch(q[o.i]) && !IsSlot(q, o.i))
  }

  predicate SlottedAt(q: seq<Insn>, i: nat)
    requires i < |q|
  {
    if IsBranch(q[i]) then
      i + 1 < |q| && !IsBranch(q[i + 1]) && SteadyCondition(q, q[i].a1) &&
      q[i].a0.Jump? && 0 <= q[i].a0.i < |q| && !IsSlot(q, q[i].a0.i)
    else NoRef(q[i])
  }

  /** Branches decided before their delay slot, as `Expand(SplitBranch, ..)` leaves them. */
  predicate Slotted(q: seq<Insn>) {
    forall i :: 0 <= i < |q| ==> SlottedAt(q, i)
  }

  /** Every branch exchanged with the instruction after it. */
  function Swapped(q: seq<Insn>): (r: seq<Insn>)
    ensures |r| == |q|
  {
    seq(|q|, i requires 0 <= i < |q| =>
      if IsBranch(q[i]) && i + 1 < |q| then q[i + 1] else if IsSlot(q, i) then q[i - 1] else q[i])
  }

  ghost predicate RelatedSwap(q: seq<Insn>, s: State, t: State) {
    s.regs == t.regs && s.mem == t.mem &&
    forall k :: 0 <= k < |q| && !IsBranch(q[k]) && !IsSlot(q, k) ==> Look(s.vals, k) == Look(t.vals, k)
  }

  lemma NoRefSameWork(ins: Insn, s: State, t: State)
    requires NoRef(ins) && s.regs == t.regs
    ensures SameWork(ins, s, ins, t)
  {
  }

  /** The slot of the branch at `b` is executed at `b + 1` before the move and at `b` after it. */
  lemma SwappedSlot(q: seq<Insn>, b: nat, s: State, t: State)
    requires b + 1 < |q| && IsBranch(q[b]) && NoRef(q[b + 1]) && RelatedSwap(q, s, t)
    ensures RelatedSwap(q, Exec(q[b + 1], b + 1, s), Exec(q[b + 1], b, t))
  {
    hide Exec;
    NoRefSameWork(q[b + 1], s, t);
    SameWorkSameState(q[b + 1], b + 1, s, q[b + 1], b, t);
    ExecFrame(q[b + 1], b + 1, s);
    ExecFrame(q[b + 1], b, t);
    assert IsSlot(q, b + 1);
  }

  lemma SwappedPlain(q: seq<Insn>, i: nat, s: State, t: State)
    requires i < |q| && !IsBranch(q[i]) && !IsSlot(q, i) && NoRef(q[i]) && RelatedSwap(q, s, t)
    ensures RelatedSwap(q, Exec(q[i], i, s), Exec(q[i], i, t))
  {
    hide Exec;
    NoRefSameWork(q[i], s, t);
    SameWorkSameState(q[i], i, s, q[i], i, t);
    SameWorkSameValue(q[i], i, s, q[i], i, t);
    ExecFrame(q[i], i, s);
    ExecFrame(q[i], i, t);
  }

  /** The slot does not disturb the condition. */
  lemma ConditionKept(q: seq<Insn>, b: nat, s: State, t: State)
    requires b + 1 < |q| && SlottedAt(q, b) && IsBranch(q[b]) && RelatedSwap(q, s, t)
    ensures Taken(q[b], s) == Taken(q[b], Exec(q[b + 1], b, t))
  {
    hide Exec;
    ExecFrame(q[b + 1], b, t);
  }

  lemma SeqBranch(r: seq<Insn>, b: nat, t: State)
    requires b + 1 < |r| && !IsBranch(r[b]) && IsBranch(r[b + 1]) && r[b + 1].a0.Jump?
    ensures
      var t1 := Exec(r[b], b, t);
      RunSeq(r, Config(b, t), 2) == Config(if Taken(r[b + 1], t1) then r[b + 1].a0.i else b + 2, t1)
  {
    hide Exec, Taken;
    var c1 := Config(b + 1, Exec(r[b], b, t));
    assert StepSeq(r, Config(b, t)) == c1;
    assert RunSeq(r, Config(b, t), 2) == RunSeq(r, c1, 1) == StepSeq(r, c1);
  }

  /** One step of the delayed machine from an instruction that is not a slot, matched by one
      or two steps of the sequential machine on the swapped program. */
  lemma SwapStep(q: seq<Insn>, i: nat, s: State, t: State) returns (k: nat)
    requires Slotted(q) && i < |q| && !IsSlot(q, i) && RelatedSwap(q, s, t)
    ensures k > 0
    ensures
      var c := StepDelayed(q, Config(i, s));
      var c' := RunSeq(Swapped(q), Config(i, t), k);
      0 <= c.pc <= |q| && (c.pc < |q| ==> !IsSlot(q, c.pc)) && c'.pc == c.pc && RelatedSwap(q, c.st, c'.st)
  {
    hide Exec, Taken, RelatedSwap;
    var r := Swapped(q);
    assert SlottedAt(q, i);
    if IsBranch(q[i]) {
      assert SlottedAt(q, i + 1);
      k := 2;
      DelayedBranch(q, i, s);
      assert IsSlot(q, i + 1);
      assert r[i] == q[i + 1] && r[i + 1] == q[i];
      SeqBranch(r, i, t);
      ConditionKept(q, i, s, t);
      SwappedSlot(q, i, s, t);
    } else {
      k := 1;
      SwappedPlain(q, i, s, t);
      assert RunSeq(r, Config(i, t), 1) == StepSeq(r, Config(i, t));
    }
  }

  // ---- Passes 3 and 4: split memory accesses and signed comparisons ----

  /** What pass 3 expects: plain operands in memory accesses and signed comparisons, no reference
      to either, and branches on constants or saved values. */
  predicate Ready(pass: Pass, p: seq<Insn>, ins: Insn) {
    ClosedInsn(SplitSigned, p, ins) &&
    (pass.SplitMemory? ==> ClosedInsn(SplitMemory, p, ins)) &&
    (IsBranch(ins) ==> BranchForm(ins) && !ins.a1.Reg?) &&
    (pass.SplitMemory? && FMemory in ins.ty ==> MemoryForm(ins)) &&
    (SignedCompare(ins) ==> SignedForm(ins))
  }

  predicate AllReady(pass: Pass, p: seq<Insn>) {
    forall i :: 0 <= i < |p| ==> Ready(pass, p, p[i])
  }

  lemma RelatedState(pass: Pass, p: seq<Insn>, s: State, t: State)
    requires Related(pass, p, s, t)
    ensures s.regs == t.regs && s.mem == t.mem
  {
  }

  lemma PlainValue(o: Operand, s: State, t: State)
    requires Plain(o) && s.regs == t.regs
    ensures Value(o, s) == Value(o, t)
  {
  }

  /** The address addition followed by the access does what the access did in one go. */
  lemma SplitAccess(ins: Insn, k: int, s: State, d: int, t: State)
    requires MemoryForm(ins) && s.regs == t.regs && s.mem == t.mem
    ensures
      var t1 := Exec(MemoryPieces(ins, d)[0], d, t);
      var t2 := Exec(MemoryPieces(ins, d)[1], d + 1, t1);
      t2.regs == Exec(ins, k, s).regs && t2.mem == Exec(ins, k, s).mem
  {
    hide Load, Store, Compare;
    var add, access := MemoryPieces(ins, d)[0], MemoryPieces(ins, d)[1];
    var t1 := Exec(add, d, t);
    PlainValue(ins.a1, s, t);
    PlainValue(ins.a2, s, t);
    assert t1.regs == t.regs && t1.mem == t.mem;
    if IsStore(ins.index) {
      PlainValue(ins.a0, s, t);
      PlainValue(ins.a2, s, t1);
      assert Look(t1.vals, d) == StoreAddress(ins, s) == StoreAddress(access, t1);
      assert StoreData(ins, s) == StoreData(access, t1);
    } else {
      assert Look(t1.vals, d) == Wrap(Value(ins.a1, s) + Value(ins.a2, s));
      assert Value(access.a1, t1) == Look(t1.vals, d) && Value(access.a2, t1) == 0;
      assert Result(access, t1) == Result(ins, s);
    }
  }

  /** Biasing both operands and comparing without sign does what the signed comparison did. */
  lemma SplitComparison(ins: Insn, k: int, s: State, d: int, t: State)
    requires SignedForm(ins) && FSigned in ins.ty && s.regs == t.regs && s.mem == t.mem
    ensures
      var ps := SignedPieces(ins, d);
      var t2 := Exec(ps[1], d + 1, Exec(ps[0], d, t));
      var t3 := Exec(ps[2].(ty := ps[2].ty - {FSigned}), d + 2, t2);
      t3.regs == Exec(ins, k, s).regs && t3.mem == Exec(ins, k, s).mem
  {
    hide Load, Store, Compare, Arith;
    var ps := SignedPieces(ins, d);
    var t1 := Exec(ps[0], d, t);
    var t2 := Exec(ps[1], d + 1, t1);
    var cmp := ps[2].(ty := ps[2].ty - {FSigned});
    var a, b := Value(ins.a1, s), Value(ins.a2, s);
    PlainValue(ins.a1, s, t);
    PlainValue(ins.a2, s, t1);
    assert t1.regs == t.regs == t2.regs && t1.mem == t.mem == t2.mem;
    assert Look(t2.vals, d) == Look(t1.vals, d) == Arith(Add, a, 0x8000_0000);
    assert Look(t2.vals, d + 1) == Arith(Add, b, 0x8000_0000);
    BiasedCompare(ins.index, a, b);
    assert Result(cmp, t2) == Result(ins, s);
  }

  lemma SeqPlain(q: seq<Insn>, d: nat, t: State)
    requires d < |q| && !IsBranch(q[d])
    ensures RunSeq(q, Config(d, t), 1) == Config(d + 1, Exec(q[d], d, t))
  {
    hide Exec;
    assert RunSeq(q, Config(d, t), 1) == StepSeq(q, Config(d, t));
  }

  /** `n` instructions in a row, none of them a branch. */
  function ExecAll(q: seq<Insn>, d: nat, n: nat, t: State): State
    requires d + n <= |q|
  {
    if n == 0 then t else Exec(q[d + n - 1], d + n - 1, ExecAll(q, d, n - 1, t))
  }

  lemma {:induction false} SeqStraight(q: seq<Insn>, d: nat, n: nat, t: State)
    requires d + n <= |q| && forall k :: d <= k < d + n ==> !IsBranch(q[k])
    ensures RunSeq(q, Config(d, t), n) == Config(d + n, ExecAll(q, d, n, t))
    ensures forall j :: !(d <= j < d + n) ==> Look(ExecAll(q, d, n, t).vals, j) == Look(t.vals, j)
  {
    hide Exec;
    if n > 0 {
      SeqStraight(q, d, n - 1, t);
      RunSeqSplit(q, Config(d, t), n - 1, 1);
      SeqPlain(q, d + n - 1, ExecAll(q, d, n - 1, t));
      ExecFrame(q[d + n - 1], d + n - 1, ExecAll(q, d, n - 1, t));
    }
  }

  lemma MemoryPiecesAt(p: seq<Insn>, i: nat)
    requires i < |p| && FMemory in p[i].ty && !IsBranch(p[i]) && MemoryForm(p[i])
    ensures
      var q, d := Expand(SplitMemory, p), Pos(SplitMemory, p, i);
      Pos(SplitMemory, p, i + 1) == d + 2 <= |q| &&
      q[d] == MemoryPieces(p[i], d)[0] && q[d + 1] == MemoryPieces(p[i], d)[1] &&
      !IsBranch(q[d]) && !IsBranch(q[d + 1])
  {
    hide Expand;
    PieceAt(SplitMemory, p, i, 0);
    PieceAt(SplitMemory, p, i, 1);
    var add := MemoryPieces(p[i], Pos(SplitMemory, p, i))[0];
    assert RelocateInsn(SplitMemory, p, add) == add;
  }

  lemma SignedPiecesAt(p: seq<Insn>, i: nat)
    requires i < |p| && SignedCompare(p[i]) && !IsBranch(p[i]) && SignedForm(p[i])
    ensures
      var q, d := Expand(SplitSigned, p), Pos(SplitSigned, p, i);
      var ps := SignedPieces(p[i], d);
      Pos(SplitSigned, p, i + 1) == d + 3 <= |q| &&
      q[d] == ps[0] && q[d + 1] == ps[1] && q[d + 2] == ps[2].(ty := ps[2].ty - {FSigned}) &&
      !IsBranch(q[d]) && !IsBranch(q[d + 1]) && !IsBranch(q[d + 2])
  {
    hide Expand;
    var ps := SignedPieces(p[i], Pos(SplitSigned, p, i));
    PieceAt(SplitSigned, p, i, 0);
    PieceAt(SplitSigned, p, i, 1);
    PieceAt(SplitSigned, p, i, 2);
    assert RelocateInsn(SplitSigned, p, ps[0]) == ps[0];
    assert RelocateInsn(SplitSigned, p, ps[1]) == ps[1];
  }

  lemma SplitMemoryStep(p: seq<Insn>, i: nat, s: State, t: State)
    requires i < |p| && Ready(SplitMemory, p, p[i]) && FMemory in p[i].ty && Related(SplitMemory, p, s, t)
    ensures
      var c' := RunSeq(Expand(SplitMemory, p), Config(Pos(SplitMemory, p, i), t), 2);
      c'.pc == Pos(SplitMemory, p, i + 1) && Related(SplitMemory, p, Exec(p[i], i, s), c'.st)
  {
    hide Exec, MemoryPieces, Expand, ClosedInsn, Related, RunSeq, Look, MemoryForm, Pos;
    assert MemoryForm(p[i]) && !IsBranch(p[i]);
    var q, d := Expand(SplitMemory, p), Pos(SplitMemory, p, i);
    MemoryPiecesAt(p, i);
    SeqStraight(q, d, 2, t);
    assert ExecAll(q, d, 1, t) == Exec(q[d], d, t);
    assert ExecAll(q, d, 2, t) == Exec(q[d + 1], d + 1, ExecAll(q, d, 1, t));
    RelatedState(SplitMemory, p, s, t);
    SplitAccess(p[i], i, s, d, t);
    ExecFrame(p[i], i, s);
    RelatedAfter(SplitMemory, p, s, t, i, Exec(p[i], i, s), ExecAll(q, d, 2, t));
  }

  lemma SplitSignedStep(p: seq<Insn>, i: nat, s: State, t: State)
    requires i < |p| && Ready(SplitSigned, p, p[i]) && SignedCompare(p[i]) && Related(SplitSigned, p, s, t)
    ensures
      var c' := RunSeq(Expand(SplitSigned, p), Config(Pos(SplitSigned, p, i), t), 3);
      c'.pc == Pos(SplitSigned, p, i + 1) && Related(SplitSigned, p, Exec(p[i], i, s), c'.st)
  {
    hide Exec, SignedPieces, Expand, ClosedInsn, Related, RunSeq, Look, SignedForm, Pos;
    assert SignedForm(p[i]) && !IsBranch(p[i]);
    var q, d := Expand(SplitSigned, p), Pos(SplitSigned, p, i);
    var ps := SignedPieces(p[i], d);
    SignedPiecesAt(p, i);
    SeqStraight(q, d, 3, t);
    assert ExecAll(q, d, 1, t) == Exec(q[d], d, t);
    assert ExecAll(q, d, 2, t) == Exec(q[d + 1], d + 1, ExecAll(q, d, 1, t));
    RelatedState(SplitSigned, p, s, t);
    SplitComparison(p[i], i, s, d, t);
    ExecFrame(p[i], i, s);
    RelatedAfter(SplitSigned, p, s, t, i, Exec(p[i], i, s), ExecAll(q, d, 3, t));
  }

  lemma UnsplitAt(pass: Pass, p: seq<Insn>, i: nat)
    requires i < |p| && !Splits(pass, p[i])
    ensures Pos(pass, p, i + 1) == Pos(pass, p, i) + 1 <= |Expand(pass, p)|
    ensures Expand(pass, p)[Pos(pass, p, i)] == RelocateInsn(pass, p, p[i])
  {
    hide Expand;
    PieceAt(pass, p, i, 0);
  }

  lemma UnsplitBranch(pass: Pass, p: seq<Insn>, i: nat, s: State, t: State)
    requires !pass.SplitBranch? && i < |p| && Ready(pass, p, p[i]) && IsBranch(p[i]) && Related(pass, p, s, t)
    ensures
      var r := RelocateInsn(pass, p, p[i]);
      IsBranch(r) && 0 <= p[i].a0.i < |p| && r.a0 == Jump(Pos(pass, p, p[i].a0.i)) && Taken(r, t) == Taken(p[i], s)
  {
    hide Value;
    RelocateKeepsValue(pass, p, p[i].a1, s, t);
  }

  lemma UnsplitPlain(pass: Pass, p: seq<Insn>, i: nat, s: State, t: State)
    requires !pass.SplitBranch? && i < |p| && Ready(pass, p, p[i]) && !IsBranch(p[i]) && !Splits(pass, p[i])
    requires Related(pass, p, s, t)
    ensures
      var r := RelocateInsn(pass, p, p[i]);
      !IsBranch(r) && Related(pass, p, Exec(p[i], i, s), Exec(r, Pos(pass, p, i), t))
  {
    hide Exec, Related, Closed;
    RelocatedExec(pass, p, i, s, t);
  }

  /** An instruction that is not split: a branch goes to the new place of its target. */
  lemma UnsplitStep(pass: Pass, p: seq<Insn>, i: nat, s: State, t: State)
    requires !pass.SplitBranch? && i < |p| && Ready(pass, p, p[i]) && !Splits(pass, p[i]) && Related(pass, p, s, t)
    ensures
      var c := StepSeq(p, Config(i, s));
      var c' := StepSeq(Expand(pass, p), Config(Pos(pass, p, i), t));
      0 <= c.pc <= |p| && c'.pc == Pos(pass, p, c.pc) && Related(pass, p, c.st, c'.st)
  {
    hide Exec, Expand, Taken, Related, RelocateInsn, Pos, Splits, ClosedInsn;
    UnsplitAt(pass, p, i);
    if IsBranch(p[i]) {
      UnsplitBranch(pass, p, i, s, t);
    } else {
      UnsplitPlain(pass, p, i, s, t);
    }
  }

  /** One step of the sequential machine, matched by up to three after pass 3 or pass 4. */
  lemma SplitStep(pass: Pass, p: seq<Insn>, i: nat, s: State, t: State) returns (k: nat)
    requires !pass.SplitBranch? && i < |p| && Ready(pass, p, p[i]) && Related(pass, p, s, t)
    ensures k > 0
    ensures
      var c := StepSeq(p, Config(i, s));
      var c' := RunSeq(Expand(pass, p), Config(Pos(pass, p, i), t), k);
      0 <= c.pc <= |p| && c'.pc == Pos(pass, p, c.pc) && Related(pass, p, c.st, c'.st)
  {
    hide Exec, Expand, Related, ClosedInsn;
    k := Width(pass, p[i]);
    if !Splits(pass, p[i]) {
      UnsplitStep(pass, p, i, s, t);
      var c := Config(Pos(pass, p, i), t);
      assert RunSeq(Expand(pass, p), c, 1) == StepSeq(Expand(pass, p), c);
    } else if pass.SplitMemory? {
      SplitMemoryStep(p, i, s, t);
    } else {
      SplitSignedStep(p, i, s, t);
    }
  }

  // ---- What each pass leaves for the next ----

  /** Like `Slotted`, with the forms the later passes rely on; saved conditions are CMOVs. */
  predicate Prepared(q: seq<Insn>, ins: Insn) {
    FInDelay !in ins.ty &&
    if IsBranch(ins) then
      BranchForm(ins) && InRange(ins.a0, |q|) &&
      (ins.a1.Const? || (ins.a1.Ref? && 0 <= ins.a1.i < |q| && q[ins.a1.i].ty == {FCond} && !IsSlot(q, ins.a1.i)))
    else if FMemory in ins.ty then MemoryForm(ins)
    else if FSigned in ins.ty then SignedForm(ins) && ins.a3.None?
    else NoPointer(ins.a0) && NoPointer(ins.a1) && NoPointer(ins.a2) && NoPointer(ins.a3)
  }

  lemma PosBound(pass: Pass, p: seq<Insn>, i: nat)
    requires i <= |p|
    ensures i <= Pos(pass, p, i) <= |Expand(pass, p)|
    ensures i < |p| ==> Pos(pass, p, i) < |Expand(pass, p)|
  {
    PosIncreases(pass, p, 0, i);
    PosIncreases(pass, p, i, |p|);
  }

  /** The pieces of a slot follow a branch exactly when the slot does. */
  lemma SlotPos(p: seq<Insn>, i: nat)
    requires Decoded(p) && i <= |p|
    ensures Pos(SplitBranch, p, i) <= |Expand(SplitBranch, p)|
    ensures IsSlot(Expand(SplitBranch, p), Pos(SplitBranch, p, i)) == IsSlot(p, i)
  {
    hide Expand;
    PosBound(SplitBranch, p, i);
    if i > 0 {
      if IsBranch(p[i - 1]) {
        DecodedBranch(p, i - 1);
        SplitBranchPieces(p, i - 1);
      } else {
        UnsplitAt(SplitBranch, p, i - 1);
      }
    }
  }

  lemma SplitBranchPrepares(p: seq<Insn>, j: nat)
    requires Decoded(p) && j < |Expand(SplitBranch, p)|
    ensures
      var q := Expand(SplitBranch, p);
      Prepared(q, q[j]) &&
      (IsBranch(q[j]) ==> j + 1 < |q| && !IsBranch(q[j + 1]) && !IsSlot(q, q[j].a0.i))
  {
    hide Expand, Decoded, Pieces, Relocate, IsSlot;
    var q := Expand(SplitBranch, p);
    var i := SourceOf(SplitBranch, p, |p|, j);
    var d := Pos(SplitBranch, p, i);
    if IsBranch(p[i]) {
      DecodedBranch(p, i);
      SplitBranchPieces(p, i);
      if j == d + 2 {
        var target := p[i].a0.i;
        PosBound(SplitBranch, p, target);
        PosBound(SplitBranch, p, i);
        SlotPos(p, target);
        DecodedTarget(p, i);
        DecodedNotSlot(p, i);
        SlotPos(p, i);
        UnsplitAt(SplitBranch, p, i + 1);
      } else {
        assert j == d || j == d + 1;
      }
    } else {
      UnsplitAt(SplitBranch, p, i);
      DecodedPrepared(p, i);
    }
  }

  lemma DecodedTarget(p: seq<Insn>, i: nat)
    requires Decoded(p) && i < |p| && IsBranch(p[i])
    ensures p[i].a0.Jump? && 0 <= p[i].a0.i < |p| && !IsSlot(p, p[i].a0.i)
  {
  }

  lemma DecodedNotSlot(p: seq<Insn>, i: nat)
    requires Decoded(p) && i < |p| && IsBranch(p[i])
    ensures !IsSlot(p, i)
  {
  }

  lemma DecodedPrepared(p: seq<Insn>, i: nat)
    requires Decoded(p) && i < |p| && !IsBranch(p[i])
    ensures RelocateInsn(SplitBranch, p, p[i]) == p[i] && Prepared(Expand(SplitBranch, p), p[i])
  {
    hide Expand;
    assert DecodedInsn(p[i], |p|);
  }

  lemma SplitBranchSlotted(p: seq<Insn>)
    requires Decoded(p)
    ensures Slotted(Expand(SplitBranch, p))
  {
    hide Expand, Decoded;
    var q := Expand(SplitBranch, p);
    forall j | 0 <= j < |q|
      ensures SlottedAt(q, j)
    {
      SplitBranchPrepares(p, j);
    }
  }

  /** Moving the branches keeps every form; saved conditions stay where they are. */
  lemma SwapReady(p: seq<Insn>)
    requires Decoded(p)
    ensures AllReady(SplitMemory, Swapped(Expand(SplitBranch, p)))
  {
    hide Expand, Decoded, MemoryForm, SignedForm;
    var q := Expand(SplitBranch, p);
    var r := Swapped(q);
    forall j | 0 <= j < |r|
      ensures Ready(SplitMemory, r, r[j])
    {
      var j' := if IsBranch(q[j]) && j + 1 < |q| then j + 1 else if IsSlot(q, j) then j - 1 else j;
      SplitBranchPrepares(p, j');
      PreparedReady(q, q[j']);
    }
  }

  lemma PreparedReady(q: seq<Insn>, ins: Insn)
    requires Prepared(q, ins)
    ensures Ready(SplitMemory, Swapped(q), ins)
  {
    hide Swapped;
    var r := Swapped(q);
    if IsBranch(ins) && ins.a1.Ref? {
      SwappedStays(q, ins.a1.i);
    }
  }

  lemma SwappedStays(q: seq<Insn>, c: nat)
    requires c < |q| && !IsBranch(q[c]) && !IsSlot(q, c)
    ensures Swapped(q)[c] == q[c]
  {
  }

  lemma SwappedPair(q: seq<Insn>, b: nat)
    requires b + 1 < |q| && IsBranch(q[b]) && !IsBranch(q[b + 1])
    ensures Swapped(q)[b] == q[b + 1] && Swapped(q)[b + 1] == q[b]
  {
  }

  lemma RelocatedClosed(p: seq<Insn>, o: Operand)
    requires Closed(SplitMemory, p, o) && Closed(SplitSigned, p, o)
    ensures Closed(SplitSigned, Expand(SplitMemory, p), Relocate(SplitMemory, p, o))
  {
    hide Expand;
    if o.Ref? || o.Jump? {
      PosBound(SplitMemory, p, o.i);
    }
    if o.Ref? {
      UnsplitAt(SplitMemory, p, o.i);
    }
  }

  lemma RelocatedReady(p: seq<Insn>, i: nat)
    requires i < |p| && Ready(SplitMemory, p, p[i])
    requires FMemory !in p[i].ty
    ensures Ready(SplitSigned, Expand(SplitMemory, p), RelocateInsn(SplitMemory, p, p[i]))
  {
    hide Expand, Closed;
    var ins := p[i];
    RelocatedClosed(p, ins.a0);
    RelocatedClosed(p, ins.a1);
    RelocatedClosed(p, ins.a2);
    RelocatedClosed(p, ins.a3);
  }

  lemma MemoryPiecesReady(p: seq<Insn>, i: nat)
    requires i < |p| && Ready(SplitMemory, p, p[i])
    requires FMemory in p[i].ty
    ensures
      var u, d := Expand(SplitMemory, p), Pos(SplitMemory, p, i);
      Ready(SplitSigned, u, MemoryPieces(p[i], d)[0]) && Ready(SplitSigned, u, MemoryPieces(p[i], d)[1])
  {
    hide Expand;
    PosBound(SplitMemory, p, i);
    MemoryPiecesAt(p, i);
  }

  lemma SplitMemoryReady(p: seq<Insn>)
    requires AllReady(SplitMemory, p)
    ensures AllReady(SplitSigned, Expand(SplitMemory, p))
  {
    hide Expand, Ready;
    var u := Expand(SplitMemory, p);
    forall j | 0 <= j < |u|
      ensures Ready(SplitSigned, u, u[j])
    {
      var i := SourceOf(SplitMemory, p, |p|, j);
      assert Ready(SplitMemory, p, p[i]);
      if FMemory in p[i].ty {
        ReadyMemoryForm(p, i);
        MemoryPiecesAt(p, i);
        MemoryPiecesReady(p, i);
      } else {
        UnsplitAt(SplitMemory, p, i);
        RelocatedReady(p, i);
      }
    }
  }

  lemma ReadyMemoryForm(p: seq<Insn>, i: nat)
    requires i < |p| && Ready(SplitMemory, p, p[i]) && FMemory in p[i].ty
    ensures MemoryForm(p[i]) && !IsBranch(p[i])
  {
  }

  // ---- Whole runs ----

  /** Pass 1, for any number of steps. */
  lemma {:induction false} SplitBranchRuns(p: seq<Insn>, i: nat, s: State, t: State, n: nat) returns (m: nat)
    requires Decoded(p) && i <= |p| && Related(SplitBranch, p, s, t)
    ensures m >= n
    ensures
      var c := RunDelayed(p, Config(i, s), n);
      var c' := RunDelayed(Expand(SplitBranch, p), Config(Pos(SplitBranch, p, i), t), m);
      0 <= c.pc <= |p| && c'.pc == Pos(SplitBranch, p, c.pc) && Related(SplitBranch, p, c.st, c'.st)
    decreases n
  {
    hide Exec, Expand, Related, Decoded, StepDelayed, Pos;
    var q := Expand(SplitBranch, p);
    var c0, d0 := Config(i, s), Config(Pos(SplitBranch, p, i), t);
    if n == 0 {
      m := 0;
    } else if i == |p| {
      m := n;
      HaltedStays(p, c0, n);
      HaltedStays(q, d0, n);
    } else {
      var k := SplitBranchStep(p, i, s, t);
      var c1, d1 := StepDelayed(p, c0), RunDelayed(q, d0, k);
      var m' := SplitBranchRuns(p, c1.pc, c1.st, d1.st, n - 1);
      m := k + m';
      RunDelayedSplit(q, d0, k, m');
    }
  }

  /** Pass 2, for any number of steps from an instruction that is not a slot. */
  lemma {:induction false} SwapRuns(q: seq<Insn>, i: nat, s: State, t: State, n: nat) returns (m: nat)
    requires Slotted(q) && i <= |q| && (i < |q| ==> !IsSlot(q, i)) && RelatedSwap(q, s, t)
    ensures m >= n
    ensures
      var c := RunDelayed(q, Config(i, s), n);
      var c' := RunSeq(Swapped(q), Config(i, t), m);
      0 <= c.pc <= |q| && c'.pc == c.pc && c'.st.regs == c.st.regs && c'.st.mem == c.st.mem
    decreases n
  {
    hide Exec, StepDelayed, StepSeq, Slotted, IsSlot;
    var r := Swapped(q);
    var c0, d0 := Config(i, s), Config(i, t);
    if n == 0 {
      m := 0;
    } else if i == |q| {
      m := n;
      HaltedStays(q, c0, n);
      HaltedStays(r, d0, n);
    } else {
      var k := SwapStep(q, i, s, t);
      var c1, d1 := StepDelayed(q, c0), RunSeq(r, d0, k);
      var m' := SwapRuns(q, c1.pc, c1.st, d1.st, n - 1);
      m := k + m';
      RunSeqSplit(r, d0, k, m');
    }
  }

  /** Passes 3 and 4, for any number of steps. */
  lemma {:induction false} SplitRuns(pass: Pass, p: seq<Insn>, i: nat, s: State, t: State, n: nat) returns (m: nat)
    requires !pass.SplitBranch? && AllReady(pass, p) && i <= |p| && Related(pass, p, s, t)
    ensures m >= n
    ensures
      var c := RunSeq(p, Config(i, s), n);
      var c' := RunSeq(Expand(pass, p), Config(Pos(pass, p, i), t), m);
      0 <= c.pc <= |p| && c'.pc == Pos(pass, p, c.pc) && Related(pass, p, c.st, c'.st)
    decreases n
  {
    hide Exec, Expand, Related, Ready, StepSeq, Pos;
    var q := Expand(pass, p);
    var c0, d0 := Config(i, s), Config(Pos(pass, p, i), t);
    if n == 0 {
      m := 0;
    } else if i == |p| {
      m := n;
      HaltedStays(p, c0, n);
      HaltedStays(q, d0, n);
    } else {
      var k := SplitStep(pass, p, i, s, t);
      var c1, d1 := StepSeq(p, c0), RunSeq(q, d0, k);
      var m' := SplitRuns(pass, p, c1.pc, c1.st, d1.st, n - 1);
      m := k + m';
      RunSeqSplit(q, d0, k, m');
    }
  }

  /** All four passes, in the order cuc_load applies them. */
  function Lower(p: seq<Insn>): seq<Insn> {
    Expand(SplitSigned, Expand(SplitMemory, Swapped(Expand(SplitBranch, p))))
  }

  /** A function starts at its first instruction with no recorded values. */
  function Start(regs: map<int, Word>, mem: map<Word, Byte>): Config {
    Config(0, State(regs, map[], mem))
  }

  /** Where the machines have got to: same registers and memory, and both stopped or both not. */
  ghost predicate Agree(p: seq<Insn>, c: Config, q: seq<Insn>, c': Config) {
    c'.st.regs == c.st.regs && c'.st.mem == c.st.mem && (Halted(p, c) <==> Halted(q, c'))
  }

  lemma HaltedPos(pass: Pass, p: seq<Insn>, i: nat)
    requires i <= |p|
    ensures Pos(pass, p, i) <= |Expand(pass, p)| && (Pos(pass, p, i) == |Expand(pass, p)| <==> i == |p|)
  {
    hide Pos;
    PosBound(pass, p, i);
  }

  /** However far the processor runs the original function with delayed branches, the lowered function
      run in sequence gets at least as far, to the same registers, flag and memory. */
  lemma LowerSimulates(p: seq<Insn>, regs: map<int, Word>, mem: map<Word, Byte>, n: nat) returns (m: nat)
    requires Decoded(p)
    ensures m >= n
    ensures Agree(p, RunDelayed(p, Start(regs, mem), n), Lower(p), RunSeq(Lower(p), Start(regs, mem), m))
  {
    hide Exec, Expand, Decoded, Ready, Swapped, RunDelayed, RunSeq, Slotted;
    var start := Start(regs, mem);
    var q := Expand(SplitBranch, p);
    var r := Swapped(q);
    var u := Expand(SplitMemory, r);
    SplitBranchSlotted(p);
    SwapReady(p);
    SplitMemoryReady(r);
    var n1 := SplitBranchRuns(p, 0, start.st, start.st, n);
    var n2 := SwapRuns(q, 0, start.st, start.st, n1);
    var n3 := SplitRuns(SplitMemory, r, 0, start.st, start.st, n2);
    m := SplitRuns(SplitSigned, u, 0, start.st, start.st, n3);
    HaltedPos(SplitBranch, p, RunDelayed(p, start, n).pc);
    HaltedPos(SplitMemory, r, RunSeq(r, start, n2).pc);
    HaltedPos(SplitSigned, u, RunSeq(u, start, n3).pc);
  }

  /** The lowered function returns exactly when the original does, with the same registers and memory. */
  lemma LowerReturnsAlike(p: seq<Insn>, regs: map<int, Word>, mem: map<Word, Byte>, m: nat) returns (n: nat)
    requires Decoded(p) && Halted(Lower(p), RunSeq(Lower(p), Start(regs, mem), m))
    ensures Agree(p, RunDelayed(p, Start(regs, mem), n), Lower(p), RunSeq(Lower(p), Start(regs, mem), m))
  {
    hide Lower, Exec, Decoded, RunSeq, RunDelayed;
    var start := Start(regs, mem);
    n := m;
    var m' := LowerSimulates(p, regs, mem, n);
    RunSeqSplit(Lower(p), start, m, m' - m);
    HaltedStays(Lower(p), RunSeq(Lower(p), start, m), m' - m);
  }

  ghost predicate AgreeAt(p: seq<Insn>, q: seq<Insn>, regs: map<int, Word>, mem: map<Word, Byte>, n: nat, m: nat) {
    Agree(p, RunDelayed(p, Start(regs, mem), n), q, RunSeq(q, Start(regs, mem), m))
  }

  /** `n` steps of `p` are matched by at least as many of `q`. */
  ghost predicate Matched(p: seq<Insn>, q: seq<Insn>, regs: map<int, Word>, mem: map<Word, Byte>, n: nat) {
    exists m: nat :: m >= n && AgreeAt(p, q, regs, mem, n, m)
  }

  /** If `q` has returned after `m` steps, `p` returns as well, in the same state. */
  ghost predicate ReturnMatched(p: seq<Insn>, q: seq<Insn>, regs: map<int, Word>, mem: map<Word, Byte>, m: nat) {
    Halted(q, RunSeq(q, Start(regs, mem), m)) ==> exists n: nat :: AgreeAt(p, q, regs, mem, n, m)
  }

  /** `q` run in sequence does what `p` does with delayed branches: every run of `p` is matched by one of `q`,
      and whenever `q` returns, `p` returns in the same state. */
  ghost predicate SameBehaviour(p: seq<Insn>, q: seq<Insn>) {
    (forall regs: map<int, Word>, mem: map<Word, Byte>, n: nat :: Matched(p, q, regs, mem, n)) &&
    (forall regs: map<int, Word>, mem: map<Word, Byte>, m: nat :: ReturnMatched(p, q, regs, mem, m))
  }

  lemma LowerCorrect(p: seq<Insn>)
    requires Decoded(p)
    ensures SameBehaviour(p, Lower(p))
  {
    hide Lower, Decoded, RunSeq, RunDelayed, Agree;
    var q := Lower(p);
    forall regs: map<int, Word>, mem: map<Word, Byte>, n: nat
      ensures Matched(p, q, regs, mem, n)
    {
      var m := LowerSimulates(p, regs, mem, n);
      assert AgreeAt(p, q, regs, mem, n, m);
    }
    forall regs: map<int, Word>, mem: map<Word, Byte>, m: nat
      ensures ReturnMatched(p, q, regs, mem, m)
    {
      if Halted(q, RunSeq(q, Start(regs, mem), m)) {
        var n := LowerReturnsAlike(p, regs, mem, m);
        assert AgreeAt(p, q, regs, mem, n, m);
      }
    }
  }
}
