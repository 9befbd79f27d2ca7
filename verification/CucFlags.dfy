/** What lowering leaves of the marks of instructions: the passes that follow rely on them. */
module CucFlags {
  import opened CucInsn
  import opened CucExec
  import opened CucExpand
  import opened CucLower

  /** The marks that later passes act on. */
  const LASTING: set<Flag> := {FVolatile, FOutput, FMemory, FBranch}

  /** What is known of an instruction that has one of them: which it has, and what the instruction is. */
  datatype Mark = Mark(flags: set<Flag>, index: Opcode)

  /** The marks there are, and how many address additions and accesses. */
  datatype Tally = Tally(marks: multiset<Mark>, adds: nat, accesses: nat)

  function Plus(a: Tally, b: Tally): Tally {
    Tally(a.marks + b.marks, a.adds + b.adds, a.accesses + b.accesses)
  }

  function Of(ins: Insn): Tally {
    Tally(if ins.ty * LASTING == {} then multiset{} else multiset{Mark(ins.ty * LASTING, ins.index)},
      if FMemAdd in ins.ty then 1 else 0, if FMemory in ins.ty then 1 else 0)
  }

  function Sum(s: seq<Insn>): Tally {
    if s == [] then ZERO else Plus(Sum(s[..|s| - 1]), Of(s[|s| - 1]))
  }

  lemma PlusAgain(a: Tally, b: Tally, c: Tally)
    ensures Plus(Plus(a, b), c) == Plus(a, Plus(b, c)) && Plus(a, b) == Plus(b, a)
  {
  }

  const ZERO := Tally(multiset{}, 0, 0)

  lemma PlusZero(a: Tally)
    ensures Plus(a, ZERO) == a && Plus(ZERO, a) == a
  {
  }

  lemma {:induction false} SumConcat(a: seq<Insn>, b: seq<Insn>)
    ensures Sum(a + b) == Plus(Sum(a), Sum(b))
  {
    hide Of, Plus;
    if b == [] {
      assert a + b == a;
      PlusZero(Sum(a));
    } else {
      assert (a + b)[..|a + b| - 1] == a + b[..|b| - 1];
      SumConcat(a, b[..|b| - 1]);
      PlusAgain(Sum(a), Sum(b[..|b| - 1]), Of(b[|b| - 1]));
    }
  }

  lemma {:induction false} SumAlike(a: seq<Insn>, b: seq<Insn>)
    requires |a| == |b| && forall k :: 0 <= k < |a| ==> Of(a[k]) == Of(b[k])
    ensures Sum(a) == Sum(b)
  {
    hide Of, Plus;
    if a != [] { SumAlike(a[..|a| - 1], b[..|b| - 1]); }
  }

  lemma SumOne(a: Insn)
    ensures Sum([a]) == Of(a)
  {
    assert [a][..0] == [];
  }

  lemma SumTwo(a: Insn, b: Insn)
    ensures Sum([a, b]) == Plus(Of(a), Of(b))
  {
    hide Of, Plus;
    SumOne(a);
    assert [a, b][..1] == [a];
  }

  lemma SumThree(a: Insn, b: Insn, c: Insn)
    ensures Sum([a, b, c]) == Plus(Plus(Of(a), Of(b)), Of(c))
  {
    hide Of, Plus;
    SumTwo(a, b);
    assert [a, b, c][..2] == [a, b];
  }

  /** What is marked as an address addition is neither a branch nor an access. */
  predicate Tidy(ins: Insn) { FMemAdd in ins.ty ==> !IsBranch(ins) && FMemory !in ins.ty && FSigned !in ins.ty }

  /** An access makes an address addition. */
  function After(pass: Pass, t: Tally): Tally { t.(adds := t.adds + if pass.SplitMemory? then t.accesses else 0) }

  lemma Unmarked(ins: Insn)
    requires ins.ty <= {FCond}
    ensures Of(ins) == ZERO
  {
  }

  lemma SameMarks(a: Insn, b: Insn)
    requires a.ty == b.ty && a.index == b.index
    ensures Of(a) == Of(b)
  {
  }

  /** Three instructions of which only the last is marked. */
  lemma LastMarked(ps: seq<Insn>, ins: Insn)
    requires |ps| == 3 && ps[0].ty <= {FCond} && ps[1].ty <= {FCond} && ps[2].ty == ins.ty && ps[2].index == ins.index
    ensures Sum(ps) == Of(ins)
  {
    hide Of, Plus, Sum;
    SumThree(ps[0], ps[1], ps[2]);
    assert ps == [ps[0], ps[1], ps[2]];
    Unmarked(ps[0]);
    Unmarked(ps[1]);
    SameMarks(ps[2], ins);
    PlusZero(ZERO);
    PlusZero(Of(ins));
  }

  lemma MemoryTally(ins: Insn, d: int)
    requires FMemory in ins.ty && FMemAdd !in ins.ty
    ensures Sum(MemoryPieces(ins, d)) == Of(ins).(adds := 1)
  {
    var ps := MemoryPieces(ins, d);
    SumTwo(ps[0], ps[1]);
    assert ps == [ps[0], ps[1]];
    assert (ins.ty - {FBbStart}) * LASTING == ins.ty * LASTING;
    assert ((ins.ty * {FInDelay, FBbStart}) + {FMemAdd}) * LASTING == {};
  }

  lemma PieceTally(pass: Pass, ins: Insn, i: int, d: int)
    requires Tidy(ins)
    ensures Sum(Pieces(pass, ins, i, d)) == After(pass, Of(ins))
  {
    hide MemoryPieces, Sum;
    SumOne(ins);
    match pass
    case SplitBranch => if IsBranch(ins) { LastMarked(BranchPieces(ins, i), ins); }
    case SplitMemory => if FMemory in ins.ty { MemoryTally(ins, d); }
    case SplitSigned => if SignedCompare(ins) { LastMarked(SignedPieces(ins, d), ins); }
  }

  lemma AfterPlus(pass: Pass, a: Tally, b: Tally)
    ensures Plus(After(pass, a), After(pass, b)) == After(pass, Plus(a, b))
  {
  }

  lemma AfterZero(pass: Pass)
    ensures After(pass, ZERO) == ZERO
  {
  }

  lemma {:induction false} FlatTally(pass: Pass, p: seq<Insn>, i: nat)
    requires i <= |p| && forall k :: 0 <= k < |p| ==> Tidy(p[k])
    ensures Sum(Flat(pass, p, i)) == After(pass, Sum(p[..i]))
  {
    hide Pieces, Of, Tidy, Plus, After;
    AfterZero(pass);
    if i > 0 {
      FlatTally(pass, p, i - 1);
      assert p[..i][..i - 1] == p[..i - 1];
      var ps := Pieces(pass, p[i - 1], i - 1, Pos(pass, p, i - 1));
      PieceTally(pass, p[i - 1], i - 1, Pos(pass, p, i - 1));
      SumConcat(Flat(pass, p, i - 1), ps);
      AfterPlus(pass, Sum(p[..i - 1]), Of(p[i - 1]));
    }
  }

  lemma SettleMarks(pass: Pass, p: seq<Insn>, ins: Insn)
    ensures Of(Settle(pass, p, ins)) == Of(ins)
  {
    assert (ins.ty - {FSigned}) * LASTING == ins.ty * LASTING;
  }

  lemma ExpandTally(pass: Pass, p: seq<Insn>)
    requires forall k :: 0 <= k < |p| ==> Tidy(p[k])
    ensures Sum(Expand(pass, p)) == After(pass, Sum(p))
  {
    hide Flat, Sum, Tidy, Plus, After;
    var flat := Flat(pass, p, |p|);
    FlatTally(pass, p, |p|);
    assert p[..|p|] == p;
    forall k | 0 <= k < |flat|
      ensures Of(Expand(pass, p)[k]) == Of(flat[k])
    {
      assert Expand(pass, p)[k] == Settle(pass, p, flat[k]);
      SettleMarks(pass, p, flat[k]);
    }
    SumAlike(Expand(pass, p), flat);
  }

  /** The pieces of tidy instructions are tidy. */
  lemma ExpandTidy(pass: Pass, p: seq<Insn>)
    requires forall k :: 0 <= k < |p| ==> Tidy(p[k])
    ensures forall k :: 0 <= k < |Expand(pass, p)| ==> Tidy(Expand(pass, p)[k])
  {
    hide Pieces, Tidy, Settle;
    forall k | 0 <= k < |Expand(pass, p)|
      ensures Tidy(Expand(pass, p)[k])
    {
      var i := SourceOf(pass, p, |p|, k);
      PieceAt(pass, p, i, k - Pos(pass, p, i));
      PieceTidy(pass, p[i], i, Pos(pass, p, i), k - Pos(pass, p, i));
      SettleTidy(pass, p, Pieces(pass, p[i], i, Pos(pass, p, i))[k - Pos(pass, p, i)]);
    }
  }

  lemma PieceTidy(pass: Pass, ins: Insn, i: int, d: int, k: nat)
    requires Tidy(ins) && k < Width(pass, ins)
    ensures Tidy(Pieces(pass, ins, i, d)[k])
  {
  }

  lemma SettleTidy(pass: Pass, p: seq<Insn>, ins: Insn)
    requires Tidy(ins)
    ensures Tidy(Settle(pass, p, ins))
  {
  }

  /** Exchanging branches and slots exchanges their marks. */
  lemma {:induction false} SwapTally(q: seq<Insn>, i: nat)
    requires Slotted(q) && i <= |q| && !IsSlot(q, i)
    ensures Sum(Swapped(q)[..i]) == Sum(q[..i])
  {
    hide Of, Plus, SteadyCondition;
    var r := Swapped(q);
    if i > 0 {
      assert SlottedAt(q, i - 1);
      if IsSlot(q, i - 1) {
        assert SlottedAt(q, i - 2);
        assert !IsSlot(q, i - 2) by { if i > 2 { assert SlottedAt(q, i - 3); } }
        SwapTally(q, i - 2);
        assert r[..i] == r[..i - 2] + [q[i - 1], q[i - 2]] && q[..i] == q[..i - 2] + [q[i - 2], q[i - 1]];
        SumConcat(r[..i - 2], [q[i - 1], q[i - 2]]);
        SumConcat(q[..i - 2], [q[i - 2], q[i - 1]]);
        SumTwo(q[i - 1], q[i - 2]);
        SumTwo(q[i - 2], q[i - 1]);
        PlusAgain(Of(q[i - 1]), Of(q[i - 2]), Of(q[i - 1]));
      } else {
        SwapTally(q, i - 1);
        assert r[..i][..i - 1] == r[..i - 1] && q[..i][..i - 1] == q[..i - 1];
      }
    }
  }

  /** Lowering keeps exactly the volatile instructions, outputs, branches and accesses there were, as what they were,
      and adds one marked address addition for every access. */
  lemma LoweredMarks(p: seq<Insn>)
    requires Decoded(p) && forall k :: 0 <= k < |p| ==> FMemAdd !in p[k].ty
    ensures Sum(Lower(p)) == Sum(p).(adds := Sum(p).accesses)
  {
    hide Expand, Sum, Slotted, Tidy;
    var q := Expand(SplitBranch, p);
    var r := Swapped(q);
    var u := Expand(SplitMemory, r);
    SplitBranchSlotted(p);
    NoneTidy(p);
    ExpandTally(SplitBranch, p);
    ExpandTidy(SplitBranch, p);
    EndNoSlot(q);
    SwapTally(q, |q|);
    assert r[..|r|] == r && q[..|q|] == q;
    SwapTidy(q);
    ExpandTally(SplitMemory, r);
    ExpandTidy(SplitMemory, r);
    ExpandTally(SplitSigned, u);
    NoAdds(p);
  }

  lemma NoneTidy(p: seq<Insn>)
    requires forall k :: 0 <= k < |p| ==> FMemAdd !in p[k].ty
    ensures forall k :: 0 <= k < |p| ==> Tidy(p[k])
  {
  }

  lemma EndNoSlot(q: seq<Insn>)
    requires Slotted(q)
    ensures !IsSlot(q, |q|)
  {
    if q != [] { assert SlottedAt(q, |q| - 1); }
  }

  lemma SwapTidy(q: seq<Insn>)
    requires forall k :: 0 <= k < |q| ==> Tidy(q[k])
    ensures forall k :: 0 <= k < |q| ==> Tidy(Swapped(q)[k])
  {
    hide Tidy;
  }

  lemma {:induction false} NoAdds(p: seq<Insn>)
    requires forall k :: 0 <= k < |p| ==> FMemAdd !in p[k].ty
    ensures Sum(p).adds == 0
  {
    if p != [] { NoAdds(p[..|p| - 1]); }
  }
}
