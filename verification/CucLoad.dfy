/** The instruction loader: the passes that rewrite the instruction array in place. */
module CucLoad {
  import opened CucInsn
  import opened CucExec
  import opened CucExpand
  import opened CucLower

  /** Negates a comparison. */
  function Negated(op: Opcode): Opcode
    requires IsCompare(op)
  {
    match op
    case Sfeq => Sfne
    case Sfne => Sfeq
    case Sflt => Sfge
    case Sfgt => Sfle
    case Sfle => Sfgt
    case Sfge => Sflt
  }

  /** A negated comparison sets the flag exactly when the original clears it, and
      negating twice gives the original back. */
  lemma NegatedFlag(ins: Insn, st: State)
    requires IsCompare(ins.index)
    ensures IsCompare(Negated(ins.index)) && Negated(Negated(ins.index)) == ins.index
    ensures Result(ChangeType(ins, Negated(ins.index)), st) == 1 - Result(ins, st)
  {
    hide Value, Less;
  }

  /** The instructions a pass leaves out of its final relocation loop. */
  predicate Final(pass: Pass, ins: Insn) {
    (pass.SplitMemory? && FMemory in ins.ty) || (pass.SplitSigned? && SignedCompare(ins))
  }

  predicate PointersInRange(ins: Insn, n: nat) {
    InRange(ins.a0, n) && InRange(ins.a1, n) && InRange(ins.a2, n) && InRange(ins.a3, n)
  }

  /** What a pass demands of an instruction: operands inside the program, and a known form if it is split. */
  predicate Fit(pass: Pass, p: seq<Insn>, ins: Insn) {
    PointersInRange(ins, |p|) &&
    (pass.SplitMemory? && FMemory in ins.ty ==> MemoryForm(ins)) &&
    (pass.SplitSigned? && SignedCompare(ins) ==> SignedForm(ins))
  }

  predicate AllFit(pass: Pass, p: seq<Insn>) {
    forall i :: 0 <= i < |p| ==> Fit(pass, p, p[i])
  }

  lemma PieceInRange(pass: Pass, p: seq<Insn>, i: nat, k: nat)
    requires i < |p| && k < Width(pass, p[i]) && Fit(pass, p, p[i])
    ensures
      var ins := Pieces(pass, p[i], i, Pos(pass, p, i))[k];
      !Final(pass, ins) ==> PointersInRange(ins, |p|)
  {
  }

  /** The final loop relocates an instruction whose pointers are all inside the program, or leaves it
      alone but for the sign flag of a comparison. */
  lemma Settles(pass: Pass, p: seq<Insn>, k: nat)
    requires AllFit(pass, p) && k < Pos(pass, p, |p|)
    ensures
      var ins := Flat(pass, p, |p|)[k];
      Expand(pass, p)[k] == (if !Final(pass, ins) then RelocateInsn(pass, p, ins)
                             else if pass.SplitMemory? then ins else ins.(ty := ins.ty - {FSigned})) &&
      (!Final(pass, ins) ==> PointersInRange(ins, |p|))
  {
    hide Fit, Pieces, RelocateInsn, PointersInRange;
    var i := SourceOf(pass, p, |p|, k);
    FlatAt(pass, p, |p|, i, k - Pos(pass, p, i));
    PieceInRange(pass, p, i, k - Pos(pass, p, i));
  }

  /** The stretch of the expanded program that belongs to instruction `i`. */
  lemma FlatStretch(pass: Pass, p: seq<Insn>, i: nat)
    requires i < |p|
    ensures i <= Pos(pass, p, i) < Pos(pass, p, i + 1) <= Pos(pass, p, |p|)
    ensures Pos(pass, p, i + 1) == Pos(pass, p, i) + Width(pass, p[i])
    ensures forall k :: Pos(pass, p, i) <= k < Pos(pass, p, i + 1) ==>
              Flat(pass, p, |p|)[k] == Pieces(pass, p[i], i, Pos(pass, p, i))[k - Pos(pass, p, i)]
  {
    hide Pieces, Width, Flat;
    PosIncreases(pass, p, 0, i);
    PosIncreases(pass, p, i, i + 1);
    PosIncreases(pass, p, i + 1, |p|);
    forall k | Pos(pass, p, i) <= k < Pos(pass, p, i + 1)
      ensures Flat(pass, p, |p|)[k] == Pieces(pass, p[i], i, Pos(pass, p, i))[k - Pos(pass, p, i)]
    {
      FlatAt(pass, p, |p|, i, k - Pos(pass, p, i));
    }
  }

  lemma Unsplit(pass: Pass, ins: Insn, i: int)
    ensures !Splits(pass, ins) ==> forall d :: Pieces(pass, ins, i, d) == [ins]
  {
  }

  lemma PosZero(pass: Pass, p: seq<Insn>)
    ensures Pos(pass, p, 0) == 0
  {
  }

  class Loader {
    const insn: array<Insn>
    const reloc: array<int>
    var numInsn: nat

    ghost predicate Valid()
      reads this
    {
      insn.Length == MAX_INSNS && reloc.Length == MAX_INSNS && numInsn <= MAX_INSNS
    }

    /** The instructions loaded so far. */
    ghost function Program(): (p: seq<Insn>)
      requires Valid()
      reads this, insn
      ensures |p| == numInsn
    {
      insn[..numInsn]
    }

    constructor (body: seq<Insn>)
      requires |body| <= MAX_INSNS
      ensures Valid() && Program() == body && fresh(insn) && fresh(reloc)
    {
      insn := new Insn[MAX_INSNS](i => if 0 <= i < |body| then body[i] else NOP_INSN);
      reloc := new int[MAX_INSNS](_ => 0);
      numInsn := |body|;
    }

    method RelocateOperand(o: Operand, ghost pass: Pass, ghost p: seq<Insn>) returns (r: Operand)
      requires Valid() && |p| <= MAX_INSNS && InRange(o, |p|)
      requires forall j :: 0 <= j < |p| ==> reloc[j] == Pos(pass, p, j)
      ensures r == Relocate(pass, p, o)
    {
      r := o;
      if o.Ref? { r := Ref(reloc[o.i]); }
      if o.Jump? { r := Jump(reloc[o.i]); }
    }

    /** The final loop's work on one instruction: every reference and jump goes through `reloc`. */
    method RelocateOperands(i: nat, ghost pass: Pass, ghost p: seq<Insn>)
      requires Valid() && i < numInsn && |p| <= MAX_INSNS
      requires forall j :: 0 <= j < |p| ==> reloc[j] == Pos(pass, p, j)
      requires PointersInRange(insn[i], |p|)
      modifies insn
      ensures insn[..] == old(insn[..])[i := RelocateInsn(pass, p, old(insn[i]))]
    {
      hide Relocate, InRange;
      var ins := insn[i];
      var r0 := RelocateOperand(ins.a0, pass, p);
      var r1 := RelocateOperand(ins.a1, pass, p);
      var r2 := RelocateOperand(ins.a2, pass, p);
      var r3 := RelocateOperand(ins.a3, pass, p);
      insn[i] := ins.(a0 := r0, a1 := r1, a2 := r2, a3 := r3);
    }

    /** Three copies of instruction `i`, the last one at `d - 1`: save the condition, nop, branch. */
    method PutBranch(i: nat, d: nat)
      requires Valid() && i + 3 <= d <= MAX_INSNS && IsBranch(insn[i])
      modifies insn
      ensures forall k :: d - 3 <= k < d ==> insn[k] == Pieces(SplitBranch, old(insn[i]), i, d - 3)[k - (d - 3)]
      ensures forall k :: 0 <= k < MAX_INSNS && !(d - 3 <= k < d) ==> insn[k] == old(insn[k])
    {
      ghost var was := insn[i];
      insn[d - 1] := insn[i];
      if insn[d - 1].a1.Reg? { insn[d - 1] := insn[d - 1].(a1 := Ref(i)); }
      insn[d - 2] := insn[i];
      insn[d - 2] := ChangeType(insn[d - 2], Nop);
      var save := ChangeType(insn[i], Cmov);
      save := save.(a0 := Dest(NO_REG));
      save := save.(a1 := Const(if FFlag1 in save.ty then 0 else 1));
      save := save.(a2 := Const(if FFlag1 in save.ty then 1 else 0));
      save := save.(a3 := Reg(FLAG_REG));
      save := save.(ty := {FCond});
      insn[d - 3] := save;
    }

    /** Two copies of instruction `i`: the address addition, then the access. */
    method PutMemory(i: nat, d: nat)
      requires Valid() && i + 2 <= d <= MAX_INSNS && FMemory in insn[i].ty && MemoryForm(insn[i])
      modifies insn
      ensures forall k :: d - 2 <= k < d ==> insn[k] == Pieces(SplitMemory, old(insn[i]), i, d - 2)[k - (d - 2)]
      ensures forall k :: 0 <= k < MAX_INSNS && !(d - 2 <= k < d) ==> insn[k] == old(insn[k])
    {
      var access := insn[i];
      var add := insn[i];
      if IsStore(add.index) {
        access := access.(a1 := Ref(d - 2), a0 := insn[i].a2, a2 := None);
        access := access.(ty := access.ty - {FBbStart});
        add := add.(a2 := add.a0);
        add := add.(a0 := Dest(NO_REG), a3 := None);
      } else {
        add := add.(a0 := Dest(NO_REG));
        access := access.(a1 := Ref(d - 2), a2 := None, a3 := None);
        access := access.(ty := access.ty - {FBbStart});
      }
      add := add.(ty := (add.ty * {FInDelay, FBbStart}) + {FMemAdd});
      add := ChangeType(add, Add);
      insn[d - 1] := access;
      insn[d - 2] := add;
    }

    /** Three copies of instruction `i`: bias each operand, then compare the biased values. */
    method PutSigned(i: nat, d: nat)
      requires Valid() && i + 3 <= d <= MAX_INSNS && SignedCompare(insn[i])
      modifies insn
      ensures forall k :: d - 3 <= k < d ==> insn[k] == Pieces(SplitSigned, old(insn[i]), i, d - 3)[k - (d - 3)]
      ensures forall k :: 0 <= k < MAX_INSNS && !(d - 3 <= k < d) ==> insn[k] == old(insn[k])
    {
      insn[d - 1] := insn[i];
      insn[d - 1] := insn[d - 1].(a1 := Ref(d - 3), a2 := Ref(d - 2));
      var bias := ChangeType(insn[i], Add);
      bias := bias.(ty := {}, a0 := Dest(NO_REG));
      bias := bias.(a1 := bias.a2);
      insn[d - 2] := bias.(a2 := Const(0x8000_0000), a3 := None);
      bias := ChangeType(insn[i], Add);
      bias := bias.(ty := {}, a0 := Dest(NO_REG));
      insn[d - 3] := bias.(a2 := Const(0x8000_0000), a3 := None);
    }

    method CountBranches() returns (n: nat)
      requires Valid()
      ensures Pos(SplitBranch, Program(), numInsn) == numInsn + 2 * n
    {
      n := 0;
      for i := 0 to numInsn
        invariant Pos(SplitBranch, Program(), i) == i + 2 * n
      {
        if FBranch in insn[i].ty { n := n + 1; }
      }
    }

    /** Counts what is to be split, then moves everything up from the back; returns the new length. */
    method SpreadBranches() returns (grown: nat)
      requires Valid() && AllFit(SplitBranch, Program())
      requires numInsn <= Pos(SplitBranch, Program(), numInsn) < MAX_INSNS
      modifies insn, reloc
      ensures grown == Pos(SplitBranch, old(Program()), numInsn)
      ensures insn[..Pos(SplitBranch, old(Program()), numInsn)] == Flat(SplitBranch, old(Program()), numInsn)
      ensures forall j :: 0 <= j < numInsn ==> reloc[j] == Pos(SplitBranch, old(Program()), j)
    {
      hide Fit, Pieces, PointersInRange, Pos, Flat;
      ghost var p := Program();
      var numBra := CountBranches();
      grown := numInsn + 2 * numBra;
      var d := grown;
      ghost var flat := Flat(SplitBranch, p, |p|);
      var i := numInsn;
      while i > 0
        invariant 0 <= i <= numInsn == |p| && d == Pos(SplitBranch, p, i)
        invariant i <= d <= |flat| < MAX_INSNS
        invariant (forall k :: 0 <= k < i ==> insn[k] == p[k]) && (forall k :: d <= k < |flat| ==> insn[k] == flat[k])
        invariant forall j :: i <= j < |p| ==> reloc[j] == Pos(SplitBranch, p, j)
      {
        i := i - 1;
        FlatStretch(SplitBranch, p, i);
        Unsplit(SplitBranch, p[i], i);
        ghost var top := d;
        if FBranch in insn[i].ty {
          PutBranch(i, d);
          d := d - 3;
        } else {
          d := d - 1;
          insn[d] := insn[i];
        }
        reloc[i] := d;
        assert forall k :: d <= k < top ==> insn[k] == Pieces(SplitBranch, p[i], i, d)[k - d];
      }
      PosZero(SplitBranch, p);
    }

    method SettleBranches(ghost p: seq<Insn>)
      requires Valid() && AllFit(SplitBranch, p) && |p| <= MAX_INSNS
      requires numInsn == Pos(SplitBranch, p, |p|) && Program() == Flat(SplitBranch, p, |p|)
      requires forall j :: 0 <= j < |p| ==> reloc[j] == Pos(SplitBranch, p, j)
      modifies insn
      ensures Program() == Expand(SplitBranch, p)
    {
      hide Fit, Expand, RelocateInsn, PointersInRange, Flat, Pos;
      ghost var flat := Flat(SplitBranch, p, |p|);
      var k := 0;
      while k < numInsn
        invariant 0 <= k <= numInsn == |flat|
        invariant insn[..k] == Expand(SplitBranch, p)[..k] && insn[k..numInsn] == flat[k..]
      {
        assert insn[k] == flat[k];
        Settles(SplitBranch, p, k);
        RelocateOperands(k, SplitBranch, p);
        assert insn[k] == Expand(SplitBranch, p)[k];
        k := k + 1;
      }
    }

    /** Inserts a CMOV and a nop before every branch. */
    method ExpandBranch()
      requires Valid() && AllFit(SplitBranch, Program())
      requires Pos(SplitBranch, Program(), numInsn) < MAX_INSNS
      modifies this`numInsn, insn, reloc
      ensures Valid() && Program() == Expand(SplitBranch, old(Program()))
    {
      hide Expand, AllFit, Flat;
      ghost var p := Program();
      PosIncreases(SplitBranch, p, 0, numInsn);
      var grown := SpreadBranches();
      numInsn := grown;
      SettleBranches(p);
    }

    method CountMemory() returns (n: nat)
      requires Valid()
      ensures Pos(SplitMemory, Program(), numInsn) == numInsn + 1 * n
    {
      n := 0;
      for i := 0 to numInsn
        invariant Pos(SplitMemory, Program(), i) == i + 1 * n
      {
        if FMemory in insn[i].ty { n := n + 1; }
      }
    }

    /** Counts what is to be split, then moves everything up from the back; returns the new length. */
    method SpreadMemory() returns (grown: nat)
      requires Valid() && AllFit(SplitMemory, Program())
      requires numInsn <= Pos(SplitMemory, Program(), numInsn) < MAX_INSNS
      modifies insn, reloc
      ensures grown == Pos(SplitMemory, old(Program()), numInsn)
      ensures insn[..Pos(SplitMemory, old(Program()), numInsn)] == Flat(SplitMemory, old(Program()), numInsn)
      ensures forall j :: 0 <= j < numInsn ==> reloc[j] == Pos(SplitMemory, old(Program()), j)
    {
      hide Fit, Pieces, MemoryForm, PointersInRange, Pos, Flat;
      ghost var p := Program();
      var numMem := CountMemory();
      grown := numInsn + 1 * numMem;
      var d := grown;
      ghost var flat := Flat(SplitMemory, p, |p|);
      var i := numInsn;
      while i > 0
        invariant 0 <= i <= numInsn == |p| && d == Pos(SplitMemory, p, i)
        invariant i <= d <= |flat| < MAX_INSNS
        invariant (forall k :: 0 <= k < i ==> insn[k] == p[k]) && (forall k :: d <= k < |flat| ==> insn[k] == flat[k])
        invariant forall j :: i <= j < |p| ==> reloc[j] == Pos(SplitMemory, p, j)
      {
        i := i - 1;
        FlatStretch(SplitMemory, p, i);
        Unsplit(SplitMemory, p[i], i);
        ghost var top := d;
        if FMemory in insn[i].ty {
          FitForm(SplitMemory, p, i);
          PutMemory(i, d);
          d := d - 2;
        } else {
          d := d - 1;
          insn[d] := insn[i];
        }
        reloc[i] := d;
        assert forall k :: d <= k < top ==> insn[k] == Pieces(SplitMemory, p[i], i, d)[k - d];
      }
      PosZero(SplitMemory, p);
    }

    method SettleMemory(ghost p: seq<Insn>)
      requires Valid() && AllFit(SplitMemory, p) && |p| <= MAX_INSNS
      requires numInsn == Pos(SplitMemory, p, |p|) && Program() == Flat(SplitMemory, p, |p|)
      requires forall j :: 0 <= j < |p| ==> reloc[j] == Pos(SplitMemory, p, j)
      modifies insn
      ensures Program() == Expand(SplitMemory, p)
    {
      hide Fit, Expand, RelocateInsn, PointersInRange, Flat, Pos;
      ghost var flat := Flat(SplitMemory, p, |p|);
      var k := 0;
      while k < numInsn
        invariant 0 <= k <= numInsn == |flat|
        invariant (forall j :: 0 <= j < k ==> insn[j] == Expand(SplitMemory, p)[j]) &&
          (forall j :: k <= j < numInsn ==> insn[j] == flat[j])
      {
        assert insn[k] == flat[k];
        Settles(SplitMemory, p, k);
        if FMemory !in insn[k].ty { RelocateOperands(k, SplitMemory, p); }
        assert insn[k] == Expand(SplitMemory, p)[k];
        k := k + 1;
      }
    }

    /** Splits every memory access into an address addition and an access. */
    method ExpandMemory()
      requires Valid() && AllFit(SplitMemory, Program())
      requires Pos(SplitMemory, Program(), numInsn) < MAX_INSNS
      modifies this`numInsn, insn, reloc
      ensures Valid() && Program() == Expand(SplitMemory, old(Program()))
    {
      hide Expand, AllFit, Flat;
      ghost var p := Program();
      PosIncreases(SplitMemory, p, 0, numInsn);
      var grown := SpreadMemory();
      numInsn := grown;
      SettleMemory(p);
    }

    method CountSigned() returns (n: nat)
      requires Valid()
      ensures Pos(SplitSigned, Program(), numInsn) == numInsn + 2 * n
    {
      n := 0;
      for i := 0 to numInsn
        invariant Pos(SplitSigned, Program(), i) == i + 2 * n
      {
        if FSigned in insn[i].ty && FMemory !in insn[i].ty { n := n + 1; }
      }
    }

    /** Counts what is to be split, then moves everything up from the back; returns the new length. */
    method SpreadSigned() returns (grown: nat)
      requires Valid() && AllFit(SplitSigned, Program())
      requires numInsn <= Pos(SplitSigned, Program(), numInsn) < MAX_INSNS
      modifies insn, reloc
      ensures grown == Pos(SplitSigned, old(Program()), numInsn)
      ensures insn[..Pos(SplitSigned, old(Program()), numInsn)] == Flat(SplitSigned, old(Program()), numInsn)
      ensures forall j :: 0 <= j < numInsn ==> reloc[j] == Pos(SplitSigned, old(Program()), j)
    {
      hide Fit, Pieces, PointersInRange, Pos, Flat;
      ghost var p := Program();
      var numSig := CountSigned();
      grown := numInsn + 2 * numSig;
      var d := grown;
      ghost var flat := Flat(SplitSigned, p, |p|);
      var i := numInsn;
      while i > 0
        invariant 0 <= i <= numInsn == |p| && d == Pos(SplitSigned, p, i)
        invariant i <= d <= |flat| < MAX_INSNS
        invariant (forall k :: 0 <= k < i ==> insn[k] == p[k]) && (forall k :: d <= k < |flat| ==> insn[k] == flat[k])
        invariant forall j :: i <= j < |p| ==> reloc[j] == Pos(SplitSigned, p, j)
      {
        i := i - 1;
        FlatStretch(SplitSigned, p, i);
        Unsplit(SplitSigned, p[i], i);
        ghost var top := d;
        if FSigned in insn[i].ty && FMemory !in insn[i].ty {
          PutSigned(i, d);
          d := d - 3;
        } else {
          d := d - 1;
          insn[d] := insn[i];
        }
        reloc[i] := d;
        assert forall k :: d <= k < top ==> insn[k] == Pieces(SplitSigned, p[i], i, d)[k - d];
      }
      PosZero(SplitSigned, p);
    }

    method SettleSigned(ghost p: seq<Insn>)
      requires Valid() && AllFit(SplitSigned, p) && |p| <= MAX_INSNS
      requires numInsn == Pos(SplitSigned, p, |p|) && Program() == Flat(SplitSigned, p, |p|)
      requires forall j :: 0 <= j < |p| ==> reloc[j] == Pos(SplitSigned, p, j)
      modifies insn
      ensures Program() == Expand(SplitSigned, p)
    {
      hide Fit, Expand, RelocateInsn, PointersInRange, Flat, Pos;
      ghost var flat := Flat(SplitSigned, p, |p|);
      var k := 0;
      while k < numInsn
        invariant 0 <= k <= numInsn == |flat|
        invariant insn[..k] == Expand(SplitSigned, p)[..k] && insn[k..numInsn] == flat[k..]
      {
        assert insn[k] == flat[k];
        Settles(SplitSigned, p, k);
        if FMemory in insn[k].ty || FSigned !in insn[k].ty {
          RelocateOperands(k, SplitSigned, p);
        } else {
          insn[k] := insn[k].(ty := insn[k].ty - {FSigned});
        }
        assert insn[k] == Expand(SplitSigned, p)[k];
        k := k + 1;
      }
    }

    /** Replaces every signed comparison by an unsigned comparison of biased values. */
    method ExpandSigned()
      requires Valid() && AllFit(SplitSigned, Program())
      requires Pos(SplitSigned, Program(), numInsn) < MAX_INSNS
      modifies this`numInsn, insn, reloc
      ensures Valid() && Program() == Expand(SplitSigned, old(Program()))
    {
      hide Expand, AllFit, Flat;
      ghost var p := Program();
      PosIncreases(SplitSigned, p, 0, numInsn);
      var grown := SpreadSigned();
      numInsn := grown;
      SettleSigned(p);
    }

    /** Exchanges every branch with its delay slot.  A slot could overwrite a register that its branch decides on; the
        C function then saves the register first.  After ExpandBranch no branch decides on a register (NotReg), so
        that case is shown not to arise. */
    method RemoveDslots()
      requires Valid() && Slotted(Program()) && AwaitsSlots(Program())
      modifies insn
      ensures Program() == Swapped(old(Program()))
    {
      hide Swapped, SteadyCondition;
      ghost var p := Program();
      ghost var r := Swapped(p);
      var inDelay := false;
      var i := 0;
      while i < numInsn
        invariant 0 <= i <= numInsn
        invariant inDelay == IsSlot(p, i)
        invariant i == numInsn ==> !inDelay
        invariant forall k :: i <= k < numInsn ==> insn[k] == p[k]
        invariant inDelay ==> insn[i - 1] == p[i - 1]
        invariant forall k :: 0 <= k < (if inDelay then i - 1 else i) ==> insn[k] == r[k]
      {
        assert SlottedAt(p, i);
        if inDelay {
          assert SlottedAt(p, i - 1);
          SwappedPair(p, i - 1);
        } else if !IsBranch(p[i]) {
          SwappedStays(p, i);
        }
        if inDelay { insn[i] := insn[i].(ty := insn[i].ty + {FInDelay}); }
        inDelay := false;
        if FBranch in insn[i].ty { inDelay := true; }
        if FInDelay in insn[i].ty {
          insn[i] := insn[i].(ty := insn[i].ty - {FInDelay});
          assert insn[i] == p[i];
          if insn[i - 1].a1.Reg? {
            NotReg(p, i - 1);
            assert false;
          }
          insn[i], insn[i - 1] := insn[i - 1], insn[i];
        }
        i := i + 1;
      }
    }

    /** The passes cuc_load applies to a decoded body, in order. */
    method Convert()
      requires Valid() && Decoded(Program()) && |Lower(Program())| < MAX_INSNS
      modifies this`numInsn, insn, reloc
      ensures Valid() && Program() == Lower(old(Program()))
      ensures SameBehaviour(old(Program()), Program())
    {
      hide Decoded, SameBehaviour, Swapped, Slotted, AllReady, AllFit, AwaitsSlots, Expand, Pos;
      ghost var p := Program();
      ghost var q := Expand(SplitBranch, p);
      ghost var u := Expand(SplitMemory, Swapped(q));
      Growth(SplitBranch, p);
      Growth(SplitMemory, Swapped(q));
      Growth(SplitSigned, u);
      DecodedFits(p);
      ExpandBranch();
      SplitBranchSlotted(p);
      SplitBranchAwaits(p);
      RemoveDslots();
      SwapReady(p);
      ReadyFits(SplitMemory, Swapped(q));
      ExpandMemory();
      SplitMemoryReady(Swapped(q));
      ReadyFits(SplitSigned, u);
      ExpandSigned();
      LowerCorrect(p);
    }
  }

  lemma NotReg(q: seq<Insn>, b: nat)
    requires b < |q| && IsBranch(q[b]) && SlottedAt(q, b)
    ensures !q[b].a1.Reg?
  {
  }

  /** No instruction is marked as a delay slot yet. */
  predicate AwaitsSlots(q: seq<Insn>) {
    forall i :: 0 <= i < |q| ==> FInDelay !in q[i].ty
  }

  lemma SplitBranchAwaits(p: seq<Insn>)
    requires Decoded(p)
    ensures AwaitsSlots(Expand(SplitBranch, p))
  {
    hide Expand, Decoded;
    var q := Expand(SplitBranch, p);
    forall j | 0 <= j < |q|
      ensures FInDelay !in q[j].ty
    {
      SplitBranchPrepares(p, j);
    }
  }

  lemma Growth(pass: Pass, p: seq<Insn>)
    ensures |p| <= Pos(pass, p, |p|) == |Expand(pass, p)|
  {
    hide Expand;
    PosIncreases(pass, p, 0, |p|);
  }

  lemma DecodedFits(p: seq<Insn>)
    requires Decoded(p)
    ensures AllFit(SplitBranch, p)
  {
  }

  lemma ReadyFits(pass: Pass, p: seq<Insn>)
    requires !pass.SplitBranch? && AllReady(pass, p)
    ensures AllFit(pass, p)
  {
  }

  lemma FitForm(pass: Pass, p: seq<Insn>, i: nat)
    requires i < |p| && Fit(pass, p, p[i])
    ensures pass.SplitMemory? && FMemory in p[i].ty ==> MemoryForm(p[i])
  {
  }
}
