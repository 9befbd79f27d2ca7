/** remove_dead: marking everything the roots need and removing the rest. */
module CucDead {
  import opened CucInsn
  import opened CucFunc
  import opened CucNops
  import opened CucMemory

  /** Instructions that are kept for their own sake. */
  predicate IsRoot(ins: Insn, order: Ordering) {
    FVolatile in ins.ty || FOutput in ins.ty || (IsLoad(ins.index) && (order.MoNone? || order.MoWeak?)) ||
      IsStore(ins.index)
  }

  /** Operand `d` of an instruction is a reference. */
  predicate Uses(ins: Insn, d: int) { ins.a0 == Ref(d) || ins.a1 == Ref(d) || ins.a2 == Ref(d) || ins.a3 == Ref(d) }

  /** A way from a root along operand references. */
  ghost predicate Path(bbs: Blocks, order: Ordering, p: seq<int>) {
    p != [] && (forall k :: 0 <= k < |p| ==> IsRef(bbs, p[k])) && IsRoot(At(bbs, p[0]), order) &&
    forall k :: 0 < k < |p| ==> Uses(At(bbs, p[k - 1]), p[k])
  }

  /** What some root needs. */
  ghost predicate Live(bbs: Blocks, order: Ordering, r: int) { exists p :: Path(bbs, order, p) && p[|p| - 1] == r }

  lemma LiveRoot(bbs: Blocks, order: Ordering, r: int)
    requires IsRef(bbs, r) && IsRoot(At(bbs, r), order)
    ensures Live(bbs, order, r)
  {
    assert Path(bbs, order, [r]);
  }

  lemma LiveOperand(bbs: Blocks, order: Ordering, r: int, d: int)
    requires Live(bbs, order, r) && IsRef(bbs, r) && Uses(At(bbs, r), d) && IsRef(bbs, d)
    ensures Live(bbs, order, d)
  {
    var p :| Path(bbs, order, p) && p[|p| - 1] == r;
    assert Path(bbs, order, p + [d]);
  }

  // ---- unmark_tree ----

  ghost function Refs(bbs: Blocks): set<int> { set b, i | 0 <= b < |bbs| && 0 <= i < |bbs[b]| :: MakeRef(b, i) }

  lemma InRefs(bbs: Blocks, r: int)
    requires Sized(bbs)
    ensures r in Refs(bbs) <==> IsRef(bbs, r)
  {
    if r in Refs(bbs) {
      var b, i :| 0 <= b < |bbs| && 0 <= i < |bbs[b]| && MakeRef(b, i) == r;
      RefRoundTrip(b, i, b, i);
    }
    if IsRef(bbs, r) { RefUnpacked(r); }
  }

  /** The mark is taken off `r` and, as far as it is on them, off everything `r` needs. */
  method UnmarkTree(f: Func, r: int, ghost was: Blocks, ghost unused: set<int>,
    ghost order: Ordering) returns (ghost rest: set<int>)
    requires Sized(was) && RefsOk(was) && f.bb == Flagged(FUnused, was, unused) && IsRef(was, r) && Live(was, order, r)
    modifies f`bb
    ensures f.bb == Flagged(FUnused, was, rest) && rest <= unused && r !in rest
    ensures forall d :: d in unused - rest ==> Live(was, order, d)
    ensures forall q, d :: q in unused - rest && IsRef(was, q) && Uses(At(was, q), d) ==> d !in rest
    decreases unused
  {
    hide Flagged, RefBb, RefI, Live, RefsOk, RefIn;
    FlaggedAt(FUnused, was, unused);
    var ins := At(f.bb, r);
    rest := unused;
    if FUnused in ins.ty {
      rest := unused - {r};
      Mark(f, FUnused, r, false, was, unused);
      if ins.a0.Ref? {
        OperandLive(was, order, r, ins.a0.i);
        rest := UnmarkTree(f, ins.a0.i, was, rest, order);
      }
      if ins.a1.Ref? {
        OperandLive(was, order, r, ins.a1.i);
        rest := UnmarkTree(f, ins.a1.i, was, rest, order);
      }
      if ins.a2.Ref? {
        OperandLive(was, order, r, ins.a2.i);
        rest := UnmarkTree(f, ins.a2.i, was, rest, order);
      }
      if ins.a3.Ref? {
        OperandLive(was, order, r, ins.a3.i);
        rest := UnmarkTree(f, ins.a3.i, was, rest, order);
      }
    }
  }

  lemma OperandLive(was: Blocks, order: Ordering, r: int, d: int)
    requires RefsOk(was) && IsRef(was, r) && Live(was, order, r) && Uses(At(was, r), d)
    ensures IsRef(was, d) && Live(was, order, d)
  {
    assert RefIn(At(was, r), d);
    LiveOperand(was, order, r, d);
  }

  // ---- remove_dead ----

  /** Every instruction gets the unused mark. */
  method MarkAll(f: Func)
    requires Sized(f.bb)
    modifies f`bb
    ensures f.bb == Flagged(FUnused, old(f.bb), Refs(old(f.bb)))
  {
    hide Flagged, RefBb, RefI, MakeRef;
    ghost var was := f.bb;
    for b := 0 to |f.bb|
      invariant |f.bb| == |was| && forall c :: 0 <= c < |was| ==> |f.bb[c]| == |was[c]|
      invariant forall c, i :: 0 <= c < |was| && 0 <= i < |was[c]| ==>
        f.bb[c][i] == if c < b then SetFlag(was[c][i], FUnused, true) else was[c][i]
    {
      for j := 0 to |f.bb[b]|
        invariant |f.bb| == |was| && forall c :: 0 <= c < |was| ==> |f.bb[c]| == |was[c]|
        invariant forall c, i :: 0 <= c < |was| && 0 <= i < |was[c]| ==>
          f.bb[c][i] == if c < b || (c == b && i < j) then SetFlag(was[c][i], FUnused, true) else was[c][i]
      {
        f.bb := f.bb[b := f.bb[b][j := SetFlag(f.bb[b][j], FUnused, true)]];
      }
    }
    var all := Flagged(FUnused, was, Refs(was));
    FlaggedAt(FUnused, was, Refs(was));
    forall r | IsRef(was, r)
      ensures At(all, r) == At(f.bb, r)
    {
      InRefs(was, r);
    }
    SameBlocks(all, f.bb);
  }

  /** Marks are off only what is live, and off everything that an instruction without mark uses. */
  ghost predicate Spreading(was: Blocks, order: Ordering, unused: set<int>) {
    (forall d :: IsRef(was, d) && d !in unused ==> Live(was, order, d)) &&
    forall q, d :: IsRef(was, q) && q !in unused && Uses(At(was, q), d) ==> d !in unused
  }

  /** The mark is taken off everything the roots need. */
  method UnmarkRoots(f: Func, order: Ordering, ghost was: Blocks) returns (ghost unused: set<int>)
    requires RefsOk(was) && f.bb == Flagged(FUnused, was, Refs(was))
    modifies f`bb
    ensures f.bb == Flagged(FUnused, was, unused)
    ensures forall r :: IsRef(was, r) ==> (r !in unused <==> Live(was, order, r))
  {
    hide Flagged, RefBb, RefI, MakeRef, Live, Refs;
    unused := Refs(was);
    forall r ensures r in unused <==> IsRef(was, r) { InRefs(was, r); }
    FlaggedSizes(FUnused, was, unused);
    for b := 0 to |f.bb|
      invariant |f.bb| == |was| && f.bb == Flagged(FUnused, was, unused) && Spreading(was, order, unused)
      invariant forall c, i :: 0 <= c < b && 0 <= i < |was[c]| && IsRoot(was[c][i], order) ==> MakeRef(c, i) !in unused
    {
      FlaggedSizes(FUnused, was, unused);
      for i := 0 to |f.bb[b]|
        invariant |f.bb| == |was| && |f.bb[b]| == |was[b]| && f.bb == Flagged(FUnused, was, unused) &&
          Spreading(was, order, unused)
        invariant forall c, k :: 0 <= c <= b && 0 <= k < |was[c]| && (c < b || k < i) && IsRoot(was[c][k], order) ==>
          MakeRef(c, k) !in unused
      {
        unused := UnmarkRoot(f, b, i, order, was, unused);
        FlaggedSizes(FUnused, was, unused);
      }
    }
    forall r | IsRef(was, r)
      ensures IsRoot(At(was, r), order) ==> r !in unused
      ensures r !in unused <==> Live(was, order, r)
    {
      RefUnpacked(r);
      if Live(was, order, r) { LiveUnmarked(was, order, unused, r); }
    }
  }

  method UnmarkRoot(f: Func, b: nat, i: nat, order: Ordering, ghost was: Blocks,
    ghost unused: set<int>) returns (ghost rest: set<int>)
    requires RefsOk(was) && b < |was| && i < |was[b]| && f.bb == Flagged(FUnused, was, unused) &&
      Spreading(was, order, unused)
    modifies f`bb
    ensures f.bb == Flagged(FUnused, was, rest) && rest <= unused && Spreading(was, order, rest)
    ensures IsRoot(was[b][i], order) ==> MakeRef(b, i) !in rest
  {
    hide Flagged, RefBb, RefI, MakeRef, Live, Refs, RefsOk;
    var r := MakeRef(b, i);
    rest := unused;
    RootAt(was, b, i, order, unused);
    if IsRoot(At(f.bb, r), order) {
      LiveRoot(was, order, r);
      rest := UnmarkTree(f, r, was, unused, order);
    }
  }

  lemma RootAt(was: Blocks, b: nat, i: nat, order: Ordering, unused: set<int>)
    requires RefsOk(was) && b < |was| && i < |was[b]|
    ensures Sized(was) && IsRef(was, MakeRef(b, i)) && At(was, MakeRef(b, i)) == was[b][i]
    ensures IsRef(Flagged(FUnused, was, unused), MakeRef(b, i)) &&
      (IsRoot(At(Flagged(FUnused, was, unused), MakeRef(b, i)), order) <==> IsRoot(was[b][i], order))
  {
  }

  lemma LiveUnmarked(was: Blocks, order: Ordering, unused: set<int>, r: int)
    requires RefsOk(was) && Spreading(was, order, unused) && Live(was, order, r) && IsRef(was, r)
    requires forall c, i :: 0 <= c < |was| && 0 <= i < |was[c]| && IsRoot(was[c][i], order) ==> MakeRef(c, i) !in unused
    ensures r !in unused
  {
    hide RefBb, RefI, MakeRef;
    var p :| Path(was, order, p) && p[|p| - 1] == r;
    LivePath(was, order, unused, p);
  }

  lemma {:induction false} LivePath(was: Blocks, order: Ordering, unused: set<int>, p: seq<int>)
    requires Spreading(was, order, unused) && Path(was, order, p)
    requires forall c, i :: 0 <= c < |was| && 0 <= i < |was[c]| && IsRoot(was[c][i], order) ==> MakeRef(c, i) !in unused
    ensures p[|p| - 1] !in unused
  {
    if |p| > 1 {
      LivePath(was, order, unused, p[..|p| - 1]);
    } else {
      RefUnpacked(p[0]);
    }
  }

  /** The live instructions, and nops for the others. */
  ghost function Kept(bbs: Blocks, order: Ordering): (q: Blocks)
  {
    Rebuild(bbs, r => if IsRef(bbs, r) && Live(bbs, order, r) then SetFlag(At(bbs, r), FUnused, false) else NOP_INSN)
  }

  lemma KeptAt(bbs: Blocks, order: Ordering)
    ensures |Kept(bbs, order)| == |bbs| && forall b :: 0 <= b < |bbs| ==> |Kept(bbs, order)[b]| == |bbs[b]|
    ensures forall r :: IsRef(Kept(bbs, order), r) <==> IsRef(bbs, r)
    ensures forall r :: IsRef(bbs, r) ==>
      At(Kept(bbs, order), r) == if Live(bbs, order, r) then SetFlag(At(bbs, r), FUnused, false) else NOP_INSN
  {
    hide RefBb, RefI, Rebuild, Live;
    RebuiltAt(bbs, r => if IsRef(bbs, r) && Live(bbs, order, r) then SetFlag(At(bbs, r), FUnused, false) else NOP_INSN);
  }

  lemma KeptRefs(bbs: Blocks, order: Ordering)
    requires RefsOk(bbs)
    ensures RefsOk(Kept(bbs, order))
  {
    hide RefBb, RefI, Kept, Live;
    KeptAt(bbs, order);
    var q := Kept(bbs, order);
    forall r, d | IsRef(q, r) && RefIn(At(q, r), d)
      ensures IsRef(q, d)
    {
      assert RefIn(At(bbs, r), d);
    }
  }

  /** What still carries the mark becomes a nop. */
  method DropUnused(f: Func, ghost was: Blocks, ghost unused: set<int>)
    requires Sized(was) && f.bb == Flagged(FUnused, was, unused)
    modifies f`bb
    ensures |f.bb| == |was| && forall b :: 0 <= b < |was| ==> |f.bb[b]| == |was[b]|
    ensures forall r :: IsRef(was, r) ==> At(f.bb, r) == if r in unused then NOP_INSN
      else SetFlag(At(was, r), FUnused, false)
  {
    hide Flagged, RefBb, RefI;
    ghost var m: Blocks := f.bb;
    FlaggedAt(FUnused, was, unused);
    for b := 0 to |f.bb|
      invariant |f.bb| == |m| && forall c :: 0 <= c < |m| ==> |f.bb[c]| == |m[c]|
      invariant forall c, i :: 0 <= c < |m| && 0 <= i < |m[c]| ==>
        f.bb[c][i] == if c < b && FUnused in m[c][i].ty then NOP_INSN else m[c][i]
    {
      for j := 0 to |f.bb[b]|
        invariant |f.bb| == |m| && forall c :: 0 <= c < |m| ==> |f.bb[c]| == |m[c]|
        invariant forall c, i :: 0 <= c < |m| && 0 <= i < |m[c]| ==>
          f.bb[c][i] == if (c < b || (c == b && i < j)) && FUnused in m[c][i].ty then NOP_INSN else m[c][i]
      {
        if FUnused in f.bb[b][j].ty {
          f.bb := f.bb[b := f.bb[b][j := ChangeType(f.bb[b][j], Nop)]];
        }
      }
    }
    forall r | IsRef(was, r)
      ensures At(f.bb, r) == if r in unused then NOP_INSN else SetFlag(At(was, r), FUnused, false)
    {
      assert At(m, r) == SetFlag(At(was, r), FUnused, r in unused);
    }
  }

  /** remove_dead. */
  method RemoveDead(f: Func, order: Ordering, reloc: array<nat>) returns (modified: bool)
    requires RefsOk(f.bb) && reloc.Length >= MAX_INSNS
    modifies f`bb, reloc
    ensures f.bb == Compacted(Kept(old(f.bb), order))
    ensures modified <==> exists b :: 0 <= b < |f.bb| && |f.bb[b]| != |old(f.bb)[b]|
  {
    hide Flagged, RefBb, RefI, Live, RefIn, Rebuild, Kept, Compacted, SetFlag;
    ghost var was := f.bb;
    MarkAll(f);
    ghost var unused := UnmarkRoots(f, order, was);
    DropUnused(f, was, unused);
    KeptAt(was, order);
    KeptRefs(was, order);
    SameBlocks(Kept(was, order), f.bb);
    modified := RemoveNops(f, reloc);
  }

  // ---- What the roots compute ----

  /** What an instruction computes from its operands, whichever references they are. */
  type Semantics = (Insn, int, int, int, int) -> int

  function Shape(o: Operand): Operand { if o.Ref? then Ref(0) else o }

  /** The instruction without the names of what it refers to, its dependencies and the pass's mark. */
  function Erased(ins: Insn): Insn {
    Insn(ins.ty - {FUnused}, ins.index, Shape(ins.a0), Shape(ins.a1), Shape(ins.a2), Shape(ins.a3), [])
  }

  function OperandValue(o: Operand, values: int -> int): int { if o.Ref? then values(o.i) else 0 }

  /** The value of instruction `r` in iteration `n`: every instruction is computed from the values of the iteration
      before, starting from `start`. */
  function Eval(bbs: Blocks, sem: Semantics, start: int -> int, n: nat, r: int): int {
    if n == 0 then start(r)
    else if !IsRef(bbs, r) then 0
    else
      var ins := At(bbs, r);
      var values := d => Eval(bbs, sem, start, n - 1, d);
      sem(Erased(ins), OperandValue(ins.a0, values), OperandValue(ins.a1, values), OperandValue(ins.a2, values),
        OperandValue(ins.a3, values))
  }

  /** No nop is live; so no live instruction refers to one. */
  ghost predicate NopsDead(bbs: Blocks, order: Ordering) {
    forall r :: IsRef(bbs, r) && IsNop(At(bbs, r)) ==> !Live(bbs, order, r)
  }

  /** Where a live instruction is after the pass. */
  ghost function NewPlace(bbs: Blocks, order: Ordering, r: int): int { MoveRef(Kept(bbs, order), r) }

  /** Exactly the live instructions survive, every one in its own place, and what they refer to is what they referred
      to before. */
  lemma LiveSurvive(bbs: Blocks, order: Ordering, r: int)
    requires RefsOk(bbs) && NopsDead(bbs, order) && IsRef(bbs, r) && Live(bbs, order, r)
    ensures var q := Compacted(Kept(bbs, order));
      IsRef(q, NewPlace(bbs, order, r)) &&
      At(q, NewPlace(bbs, order, r)) == MapInsn(SetFlag(At(bbs, r), FUnused, false), d => NewPlace(bbs, order, d))
    ensures forall d :: Uses(At(bbs, r), d) ==> IsRef(bbs, d) && Live(bbs, order, d)
  {
    hide RefBb, RefI, Live, Kept, MoveRef;
    KeptAt(bbs, order);
    KeptRefs(bbs, order);
    SurvivorKept(Kept(bbs, order), r);
    SameMap(SetFlag(At(bbs, r), FUnused, false), d => MoveRef(Kept(bbs, order), d), d => NewPlace(bbs, order, d));
    forall d | Uses(At(bbs, r), d)
      ensures IsRef(bbs, d) && Live(bbs, order, d)
    {
      OperandLive(bbs, order, r, d);
    }
  }

  lemma SurvivorsLive(bbs: Blocks, order: Ordering, p: int) returns (r: int)
    requires RefsOk(bbs) && IsRef(Compacted(Kept(bbs, order)), p)
    ensures IsRef(bbs, r) && Live(bbs, order, r) && NewPlace(bbs, order, r) == p
  {
    hide RefBb, RefI, Live, Kept;
    KeptAt(bbs, order);
    KeptRefs(bbs, order);
    r := SurvivorSource(Kept(bbs, order), p);
  }

  /** In every iteration every live instruction, and so every root, has the value it had before the pass. */
  lemma {:induction false} RemoveDeadMeaning(bbs: Blocks, order: Ordering, sem: Semantics, start: int -> int,
    start': int -> int, n: nat, r: int)
    requires RefsOk(bbs) && NopsDead(bbs, order) && IsRef(bbs, r) && Live(bbs, order, r)
    requires forall d :: IsRef(bbs, d) && Live(bbs, order, d) ==> start'(NewPlace(bbs, order, d)) == start(d)
    ensures Eval(Compacted(Kept(bbs, order)), sem, start', n, NewPlace(bbs, order, r)) == Eval(bbs, sem, start, n, r)
  {
    hide RefBb, RefI, Live, Kept, NewPlace, RefsOk, NopsDead, Compacted;
    if n > 0 {
      LiveSurvive(bbs, order, r);
      var q := Compacted(Kept(bbs, order));
      var before, now := d => Eval(bbs, sem, start, n - 1, d), d => Eval(q, sem, start', n - 1, d);
      forall d | Uses(At(bbs, r), d)
        ensures now(NewPlace(bbs, order, d)) == before(d)
      {
        RemoveDeadMeaning(bbs, order, sem, start, start', n - 1, d);
      }
      var a, b := At(bbs, r), At(q, NewPlace(bbs, order, r));
      assert Erased(b) == Erased(a);
      assert a.a0.Ref? ==> Uses(a, a.a0.i);
      assert a.a1.Ref? ==> Uses(a, a.a1.i);
      assert a.a2.Ref? ==> Uses(a, a.a2.i);
      assert a.a3.Ref? ==> Uses(a, a.a3.i);
    }
  }

  // ---- When the pass may be used ----

  /** In every iteration root `r` has the value it had before the pass. */
  ghost predicate RootSame(bbs: Blocks, order: Ordering, sem: Semantics, start: int -> int, start': int -> int, n: nat,
    r: int) {
    IsRef(bbs, r) && IsRoot(At(bbs, r), order) &&
    (forall d :: IsRef(bbs, d) && Live(bbs, order, d) ==> start'(NewPlace(bbs, order, d)) == start(d)) ==>
      Eval(Compacted(Kept(bbs, order)), sem, start', n, NewPlace(bbs, order, r)) == Eval(bbs, sem, start, n, r)
  }

  ghost predicate KeepsRoots(bbs: Blocks, order: Ordering) {
    forall sem: Semantics, start: int -> int, start': int -> int, n: nat, r: int ::
      RootSame(bbs, order, sem, start, start', n, r)
  }

  /** The roots keep their values, whatever instructions compute, if and only if no root needs a nop. */
  lemma RemoveDeadExact(bbs: Blocks, order: Ordering)
    requires RefsOk(bbs)
    ensures KeepsRoots(bbs, order) <==> NopsDead(bbs, order)
  {
    hide RefBb, RefI, Kept, NewPlace, RefsOk, Compacted, IsRoot, Eval, Live;
    if NopsDead(bbs, order) {
      forall sem: Semantics, start: int -> int, start': int -> int, n: nat, r: int
        ensures RootSame(bbs, order, sem, start, start', n, r)
      {
        if IsRef(bbs, r) && IsRoot(At(bbs, r), order) {
          LiveRoot(bbs, order, r);
          if forall d :: IsRef(bbs, d) && Live(bbs, order, d) ==> start'(NewPlace(bbs, order, d)) == start(d) {
            RemoveDeadMeaning(bbs, order, sem, start, start', n, r);
          }
        }
      }
    } else {
      var d :| IsRef(bbs, d) && IsNop(At(bbs, d)) && Live(bbs, order, d);
      var p, r := NeedsNop(bbs, order, d);
      assert !RootSame(bbs, order, Sees, Zero, Zero, |p|, r);
    }
  }

  function Zero(r: int): int { 0 }

  /** A meaning under which nops can be seen: a nop is 1, and so is whatever uses a 1. */
  function Sees(ins: Insn, v0: int, v1: int, v2: int, v3: int): int {
    if IsNop(ins) || v0 == 1 || v1 == 1 || v2 == 1 || v3 == 1 then 1 else 0
  }

  lemma NeedsNop(bbs: Blocks, order: Ordering, d: int) returns (p: seq<int>, r: int)
    requires RefsOk(bbs) && IsRef(bbs, d) && IsNop(At(bbs, d)) && Live(bbs, order, d)
    ensures IsRef(bbs, r) && IsRoot(At(bbs, r), order)
    ensures Eval(bbs, Sees, Zero, |p|, r) == 1 &&
      Eval(Compacted(Kept(bbs, order)), Sees, Zero, |p|, NewPlace(bbs, order, r)) == 0
  {
    hide RefBb, RefI, Kept, NewPlace, Compacted, IsRoot, Eval;
    p :| Path(bbs, order, p) && p[|p| - 1] == d;
    r := p[0];
    NopSeen(bbs, order, p, 0);
    KeptRefs(bbs, order);
    NothingSeen(Kept(bbs, order), |p|, NewPlace(bbs, order, r));
  }

  lemma {:induction false} NopSeen(bbs: Blocks, order: Ordering, p: seq<int>, k: nat)
    requires Path(bbs, order, p) && k < |p| && IsNop(At(bbs, p[|p| - 1]))
    ensures Eval(bbs, Sees, Zero, |p| - k, p[k]) == 1
    decreases |p| - k
  {
    hide RefBb, RefI, IsRoot;
    if k + 1 < |p| {
      NopSeen(bbs, order, p, k + 1);
      assert Uses(At(bbs, p[k + 1 - 1]), p[k + 1]);
    }
  }

  lemma {:induction false} NothingSeen(bbs: Blocks, n: nat, r: int)
    requires Sized(bbs)
    ensures Eval(Compacted(bbs), Sees, Zero, n, r) == 0
    decreases n
  {
    hide RefBb, RefI, Compacted, MoveRef;
    var q := Compacted(bbs);
    if n > 0 && IsRef(q, r) {
      var s := SurvivorSource(bbs, r);
      SurvivorKept(bbs, s);
      var ins := At(q, r);
      var m: nat := n - 1;
      forall d
        ensures Eval(q, Sees, Zero, m, d) == 0
      {
        NothingSeen(bbs, m, d);
      }
      assert !IsNop(Erased(ins));
    }
  }
}
