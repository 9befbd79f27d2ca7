/** Conditional moves that choose between copies of one value, and their replacement. */
module CucCmov {
  import opened CucInsn
  import opened CucFunc
  import opened CucNops
  import opened CucDead
  import CucExec

  /** Adding zero, not volatile. */
  predicate IsMove(ins: Insn) { ins.index.Add? && FVolatile !in ins.ty && ins.a2 == Const(0) }

  predicate IsChoice(ins: Insn) { ins.index.Cmov? && FVolatile !in ins.ty }

  // ---- cmov_needed ----

  /** The primary input found so far, `None` if there is none, meets another. */
  function Meet(tmp: Operand, o: Operand): (r: (bool, Operand))
    ensures !r.0 ==> (tmp.None? || tmp == o) && r.1 == o
  {
    if tmp.None? then (false, o) else (tmp != o, tmp)
  }

  /** Is the choice needed, and the primary input that is left. */
  function Search(bbs: Blocks, marks: set<int>, tmp: Operand, r: int): (bool, Operand)
    requires RefsOk(bbs) && IsRef(bbs, r)
    decreases Refs(bbs) - marks, 1
  {
    if r in marks then (false, tmp)
    else
      var ins := At(bbs, r);
      InRefs(bbs, r);
      if IsMove(ins) then SearchOperand(bbs, marks + {r}, tmp, ins.a1, r)
      else if !IsChoice(ins) then Meet(tmp, Ref(r))
      else
        var left := SearchOperand(bbs, marks + {r}, tmp, ins.a1, r);
        if left.0 then left else SearchOperand(bbs, marks + {r}, left.1, ins.a2, r)
  }

  /** An operand is a primary input unless it is a reference. */
  function SearchOperand(bbs: Blocks, marks: set<int>, tmp: Operand, o: Operand, r: int): (bool, Operand)
    requires RefsOk(bbs) && IsRef(bbs, r) && (o == At(bbs, r).a1 || o == At(bbs, r).a2)
    decreases Refs(bbs) - marks, 2
  {
    if o.Ref? then
      assert RefIn(At(bbs, r), o.i);
      Search(bbs, marks, tmp, o.i)
    else Meet(tmp, o)
  }

  // ---- What instructions compute ----

  /** The values of operands in one evaluation, and how instructions other than moves and choices are computed. */
  type Valuation = Operand -> Word

  type Semantics = (Insn, Word, Word, Word, Word) -> Word

  function Compute(ins: Insn, sem: Semantics, val: Valuation): Word {
    if ins.index.Add? then CucExec.Wrap(val(ins.a1) + val(ins.a2))
    else if ins.index.Cmov? then (if val(ins.a3) != 0 then val(ins.a1) else val(ins.a2))
    else sem(Erased(ins), val(ins.a0), val(ins.a1), val(ins.a2), val(ins.a3))
  }

  /** Every reference has the value its instruction computes. */
  ghost predicate Solves(bbs: Blocks, sem: Semantics, val: Valuation) {
    (forall w: Word :: val(Const(w)) == w) && forall r :: IsRef(bbs, r) ==> val(Ref(r)) == Compute(At(bbs, r), sem, val)
  }

  /** The graph is acyclic: what an instruction refers to is on a lower level. */
  ghost predicate Layered(bbs: Blocks, level: int -> nat) {
    forall r, d :: IsRef(bbs, r) && Uses(At(bbs, r), d) ==> level(d) < level(r)
  }

  /** Moves and choices have their operands. */
  ghost predicate Filled(bbs: Blocks) {
    forall r :: IsRef(bbs, r) && (IsMove(At(bbs, r)) || IsChoice(At(bbs, r))) ==>
      !At(bbs, r).a1.None? &&
      !At(bbs, r).a2.None?
  }

  ghost predicate Above(marks: set<int>, level: int -> nat, n: nat) { forall m :: m in marks ==> level(m) > n }

  /** In an acyclic graph a choice that is not needed always has the value of the one primary input, which lies below
      it. */
  lemma {:induction false} SearchSound(bbs: Blocks, marks: set<int>, tmp: Operand, r: int, sem: Semantics,
    val: Valuation, level: int -> nat)
    requires RefsOk(bbs) && IsRef(bbs, r) && Filled(bbs) && Layered(bbs, level) && Solves(bbs, sem, val) &&
      Above(marks, level, level(r))
    ensures var s := Search(bbs, marks, tmp, r);
      !s.0 ==> (!s.1.None? && (!tmp.None? ==> s.1 == tmp) && val(s.1) == val(Ref(r)) &&
        (s.1.Ref? && tmp.None? ==> IsRef(bbs, s.1.i) && (s.1.i == r || level(s.1.i) < level(r))))
    decreases Refs(bbs) - marks, 1
  {
    hide RefBb, RefI, CucExec.Wrap;
    assert r !in marks;
    var ins := At(bbs, r);
    InRefs(bbs, r);
    if IsMove(ins) || IsChoice(ins) {
      SearchOperandSound(bbs, marks + {r}, tmp, ins.a1, r, sem, val, level);
      if IsMove(ins) {
        MoveValue(val(ins.a1));
      } else {
        var left := SearchOperand(bbs, marks + {r}, tmp, ins.a1, r);
        if !left.0 { SearchOperandSound(bbs, marks + {r}, left.1, ins.a2, r, sem, val, level); }
      }
    }
  }

  lemma MoveValue(w: Word)
    ensures CucExec.Wrap(w + 0) == w
  {
  }

  lemma {:induction false} SearchOperandSound(bbs: Blocks, marks: set<int>, tmp: Operand, o: Operand, r: int,
                                               sem: Semantics, val: Valuation, level: int -> nat)
    requires RefsOk(bbs) && IsRef(bbs, r) && (o == At(bbs, r).a1 || o == At(bbs, r).a2) && !o.None?
    requires Filled(bbs) && Layered(bbs, level) && Solves(bbs, sem, val)
    requires r in marks && Above(marks - {r}, level, level(r))
    ensures var s := SearchOperand(bbs, marks, tmp, o, r);
      !s.0 ==> (!s.1.None? && (!tmp.None? ==> s.1 == tmp) && val(s.1) == val(o) &&
        (s.1.Ref? && tmp.None? ==> IsRef(bbs, s.1.i) && level(s.1.i) < level(r)))
    decreases Refs(bbs) - marks, 2
  {
    if o.Ref? {
      assert RefIn(At(bbs, r), o.i) && Uses(At(bbs, r), o.i);
      SearchSound(bbs, marks, tmp, o.i, sem, val, level);
    }
  }

  // ---- optimize_cmovs ----

  /** The choice becomes a move of the primary input. */
  function Replaced(ins: Insn, tmp: Operand): Insn { ins.(index := Add, a1 := tmp, a2 := Const(0), a3 := None) }

  /** Instruction `r` has been looked at. */
  function OptimizeOne(bbs: Blocks, r: int): (q: Blocks)
    requires RefsOk(bbs) && IsRef(bbs, r)
  {
    if IsChoice(At(bbs, r)) && !Search(bbs, {}, None, r).0 then
      Put(bbs, r, Replaced(At(bbs, r), Search(bbs, {}, None, r).1))
    else bbs
  }

  /** Looking at one instruction keeps the evaluation, the layers and all references valid. */
  lemma OptimizeOneKeeps(bbs: Blocks, r: int, sem: Semantics, val: Valuation, level: int -> nat)
    requires RefsOk(bbs) && Filled(bbs) && Layered(bbs, level) && Solves(bbs, sem, val) && IsRef(bbs, r)
    ensures var q := OptimizeOne(bbs, r);
      |q| == |bbs| && (forall b :: 0 <= b < |bbs| ==> |q[b]| == |bbs[b]|) && RefsOk(q) && Filled(q) &&
        Layered(q, level) && Solves(q, sem, val)
  {
    hide RefBb, RefI, Search, CucExec.Wrap, Compute;
    var ins := At(bbs, r);
    var s := Search(bbs, {}, None, r);
    if IsChoice(ins) && !s.0 {
      SearchSound(bbs, {}, None, r, sem, val, level);
      SearchBelow(bbs, r, sem, val, level);
      var q := OptimizeOne(bbs, r);
      var new' := Replaced(ins, s.1);
      ReplacedValue(ins, s.1, sem, val);
      forall p, d | IsRef(q, p) && RefIn(At(q, p), d)
        ensures IsRef(q, d) && (Uses(At(q, p), d) ==> level(d) < level(p))
      {
        if p == r && d in ins.dep { assert RefIn(ins, d); }
        if p == r && ins.a0 == Ref(d) { assert RefIn(ins, d) && Uses(ins, d); }
        if p != r { assert RefIn(At(bbs, p), d); }
      }
      assert forall p, d :: IsRef(q, p) && Uses(At(q, p), d) ==> RefIn(At(q, p), d);
    }
  }

  /** The primary input of a choice is not the choice itself. */
  lemma SearchBelow(bbs: Blocks, r: int, sem: Semantics, val: Valuation, level: int -> nat)
    requires RefsOk(bbs) && Filled(bbs) && Layered(bbs, level) && Solves(bbs, sem, val) && IsRef(bbs, r) &&
      IsChoice(At(bbs, r))
    ensures var s := Search(bbs, {}, None, r); !s.0 && s.1.Ref? ==> IsRef(bbs, s.1.i) && level(s.1.i) < level(r)
  {
    hide RefBb, RefI, CucExec.Wrap, SearchOperand, Compute;
    var ins := At(bbs, r);
    SearchOperandSound(bbs, {} + {r}, None, ins.a1, r, sem, val, level);
    var left := SearchOperand(bbs, {} + {r}, None, ins.a1, r);
    if !left.0 { SearchOperandSound(bbs, {} + {r}, left.1, ins.a2, r, sem, val, level); }
  }

  lemma ReplacedValue(ins: Insn, tmp: Operand, sem: Semantics, val: Valuation)
    requires forall w: Word :: val(Const(w)) == w
    ensures Compute(Replaced(ins, tmp), sem, val) == val(tmp)
  {
  }

  // ---- The whole pass ----

  ghost predicate ValidTmp(bbs: Blocks, tmp: Operand) { tmp.Ref? ==> IsRef(bbs, tmp.i) }

  lemma {:induction false} SearchValid(bbs: Blocks, marks: set<int>, tmp: Operand, r: int)
    requires RefsOk(bbs) && IsRef(bbs, r) && ValidTmp(bbs, tmp)
    ensures ValidTmp(bbs, Search(bbs, marks, tmp, r).1)
    decreases Refs(bbs) - marks, 1
  {
    hide RefBb, RefI;
    if r !in marks {
      var ins := At(bbs, r);
      InRefs(bbs, r);
      if IsMove(ins) || IsChoice(ins) {
        SearchOperandValid(bbs, marks + {r}, tmp, ins.a1, r);
        var left := SearchOperand(bbs, marks + {r}, tmp, ins.a1, r);
        SearchOperandValid(bbs, marks + {r}, left.1, ins.a2, r);
      }
    }
  }

  lemma {:induction false} SearchOperandValid(bbs: Blocks, marks: set<int>, tmp: Operand, o: Operand, r: int)
    requires RefsOk(bbs) && IsRef(bbs, r) && ValidTmp(bbs, tmp) && (o == At(bbs, r).a1 || o == At(bbs, r).a2)
    ensures ValidTmp(bbs, SearchOperand(bbs, marks, tmp, o, r).1)
    decreases Refs(bbs) - marks, 2
  {
    if o.Ref? {
      assert RefIn(At(bbs, r), o.i);
      SearchValid(bbs, marks, tmp, o.i);
    }
  }

  lemma OptimizeOneRefs(bbs: Blocks, r: int)
    requires RefsOk(bbs) && IsRef(bbs, r)
    ensures var q := OptimizeOne(bbs, r); RefsOk(q) && |q| == |bbs| && forall b :: 0 <= b < |bbs| ==> |q[b]| == |bbs[b]|
  {
    hide RefBb, RefI, Search;
    SearchValid(bbs, {}, None, r);
    var q := OptimizeOne(bbs, r);
    forall p, d | IsRef(q, p) && RefIn(At(q, p), d)
      ensures IsRef(q, d)
    {
      if !RefIn(At(bbs, p), d) { assert p == r && d == Search(bbs, {}, None, r).1.i; }
    }
  }

  /** The function after the walk has passed the first `b` blocks and `i` instructions of the next. */
  function OptimizeTo(bbs: Blocks, dead: set<int>, b: nat, i: nat): (q: Blocks)
    requires RefsOk(bbs) && b <= |bbs| && (b < |bbs| ==> i <= |bbs[b]|) && (b == |bbs| ==> i == 0)
    ensures RefsOk(q) && |q| == |bbs| && forall c :: 0 <= c < |bbs| ==> |q[c]| == |bbs[c]|
    decreases b, i
  {
    if i > 0 then
      var q := OptimizeTo(bbs, dead, b, i - 1);
      RefRoundTrip(b, i - 1, b, i - 1);
      OptimizeOneRefs(q, MakeRef(b, i - 1));
      if b in dead then q else OptimizeOne(q, MakeRef(b, i - 1))
    else if b > 0 then OptimizeTo(bbs, dead, b - 1, |bbs[b - 1]|)
    else bbs
  }

  lemma {:induction false} OptimizeKeeps(bbs: Blocks, dead: set<int>, b: nat, i: nat, sem: Semantics, val: Valuation,
    level: int -> nat)
    requires RefsOk(bbs) && b <= |bbs| && (b < |bbs| ==> i <= |bbs[b]|) && (b == |bbs| ==> i == 0)
    requires Filled(bbs) && Layered(bbs, level) && Solves(bbs, sem, val)
    ensures var q := OptimizeTo(bbs, dead, b, i); Filled(q) && Layered(q, level) && Solves(q, sem, val)
    decreases b, i
  {
    hide RefBb, RefI, MakeRef, OptimizeOne, Solves, Layered, Filled, RefIn;
    if i > 0 {
      OptimizeKeeps(bbs, dead, b, i - 1, sem, val, level);
      RefRoundTrip(b, i - 1, b, i - 1);
      OptimizeOneKeeps(OptimizeTo(bbs, dead, b, i - 1), MakeRef(b, i - 1), sem, val, level);
    } else if b > 0 {
      OptimizeKeeps(bbs, dead, b - 1, |bbs[b - 1]|, sem, val, level);
    }
  }

  /** An acyclic graph has one evaluation for given constants and registers. */
  lemma {:induction false} OneEvaluation(bbs: Blocks, sem: Semantics, val: Valuation, val': Valuation,
    level: int -> nat, r: int)
    requires RefsOk(bbs) && Layered(bbs, level) && Solves(bbs, sem, val) && Solves(bbs, sem, val') && IsRef(bbs, r)
    requires forall o: Operand :: !o.Ref? ==> val(o) == val'(o)
    ensures val(Ref(r)) == val'(Ref(r))
    decreases level(r)
  {
    hide RefBb, RefI, CucExec.Wrap, Erased, At, Layered, RefsOk, Compute;
    var ins := At(bbs, r);
    forall o | o == ins.a0 || o == ins.a1 || o == ins.a2 || o == ins.a3
      ensures val(o) == val'(o)
    {
      if o.Ref? {
        UsedBelow(bbs, r, o.i, level);
        OneEvaluation(bbs, sem, val, val', level, o.i);
      }
    }
    SameOperands(ins, sem, val, val');
  }

  lemma UsedBelow(bbs: Blocks, r: int, d: int, level: int -> nat)
    requires RefsOk(bbs) && Layered(bbs, level) && IsRef(bbs, r) && Uses(At(bbs, r), d)
    ensures IsRef(bbs, d) && level(d) < level(r)
  {
    assert RefIn(At(bbs, r), d);
  }

  lemma SameOperands(ins: Insn, sem: Semantics, val: Valuation, val': Valuation)
    requires val(ins.a0) == val'(ins.a0) && val(ins.a1) == val'(ins.a1) && val(ins.a2) == val'(ins.a2)
    requires val(ins.a3) == val'(ins.a3)
    ensures Compute(ins, sem, val) == Compute(ins, sem, val')
  {
    hide CucExec.Wrap, Erased;
  }

  /** In an acyclic graph the pass changes the value of no instruction. */
  lemma OptimizeMeaning(bbs: Blocks, dead: set<int>, sem: Semantics, val: Valuation, val': Valuation, level: int -> nat,
    r: int)
    requires RefsOk(bbs) && Filled(bbs) && Layered(bbs, level) && IsRef(bbs, r)
    requires Solves(bbs, sem, val) && Solves(OptimizeTo(bbs, dead, |bbs|, 0), sem, val')
    requires forall o: Operand :: !o.Ref? ==> val(o) == val'(o)
    ensures val'(Ref(r)) == val(Ref(r))
  {
    hide RefBb, RefI, OptimizeTo, Solves, Layered, Filled;
    OptimizeKeeps(bbs, dead, |bbs|, 0, sem, val, level);
    OneEvaluation(OptimizeTo(bbs, dead, |bbs|, 0), sem, val, val', level, r);
  }

  /** Conditional moves only ever become fewer; if something has changed one is gone. */
  ghost predicate FewerChoices(was: Blocks, now: Blocks, modified: bool) {
    |now| == |was| && (forall b :: 0 <= b < |was| ==> |now[b]| == |was[b]|) &&
    (forall r :: IsRef(was, r) && At(now, r).index.Cmov? ==> At(was, r).index.Cmov?) &&
    if modified then exists r :: IsRef(was, r) && At(was, r).index.Cmov? && !At(now, r).index.Cmov? else now == was
  }

  lemma NoFewer(bbs: Blocks)
    ensures FewerChoices(bbs, bbs, false)
  {
  }

  lemma FewerStill(was: Blocks, before: Blocks, now: Blocks, r: int, modified: bool, changed: bool)
    requires RefsOk(before) && IsRef(before, r) && FewerChoices(was, before, modified) && now == OptimizeOne(before, r)
    requires if changed then now != before && At(before, r).index.Cmov? else now == before
    ensures FewerChoices(was, now, modified || changed)
  {
    hide RefBb, RefI, Search, RefsOk;
    if changed {
      assert At(was, r).index.Cmov? && !At(now, r).index.Cmov?;
    }
  }

  lemma FewerDiffers(was: Blocks, now: Blocks, modified: bool)
    requires FewerChoices(was, now, modified)
    ensures modified <==> now != was
  {
  }

  class CmovPass {
    /** The first primary input of the current search. */
    var tmp: Operand
    /** The instructions on the path of the search. */
    var marks: set<int>

    constructor ()
      ensures tmp == None && marks == {}
    {
      tmp, marks := None, {};
    }

    method MeetInput(o: Operand) returns (needed: bool)
      modifies this`tmp
      ensures (needed, tmp) == Meet(old(tmp), o)
    {
      if tmp.None? {
        tmp := o;
        return false;
      }
      return tmp != o;
    }

    /** cmov_needed. */
    method CmovNeeded(f: Func, r: int) returns (needed: bool)
      requires RefsOk(f.bb) && IsRef(f.bb, r)
      modifies this
      ensures (needed, tmp) == Search(f.bb, old(marks), old(tmp), r) && marks == old(marks)
      decreases Refs(f.bb) - marks, 1
    {
      hide RefBb, RefI;
      if r in marks {
        return false;
      }
      var ins := At(f.bb, r);
      InRefs(f.bb, r);
      if IsMove(ins) {
        marks := marks + {r};
        needed := InputNeeded(f, ins.a1, r);
        marks := marks - {r};
        return;
      }
      if !IsChoice(ins) {
        needed := MeetInput(Ref(r));
        return;
      }
      marks := marks + {r};
      needed := InputNeeded(f, ins.a1, r);
      if !needed {
        needed := InputNeeded(f, ins.a2, r);
      }
      marks := marks - {r};
    }

    method InputNeeded(f: Func, o: Operand, ghost r: int) returns (needed: bool)
      requires RefsOk(f.bb) && IsRef(f.bb, r) && (o == At(f.bb, r).a1 || o == At(f.bb, r).a2)
      modifies this
      ensures (needed, tmp) == SearchOperand(f.bb, old(marks), old(tmp), o, r) && marks == old(marks)
      decreases Refs(f.bb) - marks, 2
    {
      if o.Ref? {
        assert RefIn(At(f.bb, r), o.i);
        needed := CmovNeeded(f, o.i);
      } else {
        needed := MeetInput(o);
      }
    }

    /** optimize_cmovs. */
    method OptimizeCmovs(f: Func, dead: set<int>) returns (modified: bool)
      requires RefsOk(f.bb)
      modifies this, f`bb
      ensures f.bb == OptimizeTo(old(f.bb), dead, |old(f.bb)|, 0)
      ensures modified <==> f.bb != old(f.bb)
    {
      hide RefBb, RefI, MakeRef, OptimizeOne, RefsOk, FewerChoices;
      ghost var was := f.bb;
      NoFewer(was);
      marks, modified := {}, false;
      for b := 0 to |f.bb|
        invariant f.bb == OptimizeTo(was, dead, b, 0) && marks == {} && FewerChoices(was, f.bb, modified)
      {
        for i := 0 to |f.bb[b]|
          invariant f.bb == OptimizeTo(was, dead, b, i) && marks == {} && FewerChoices(was, f.bb, modified)
        {
          if b !in dead {
            ghost var before := f.bb;
            var changed := OptimizeAt(f, b, i);
            FewerStill(was, before, f.bb, MakeRef(b, i), modified, changed);
            modified := modified || changed;
          }
        }
      }
      FewerDiffers(was, f.bb, modified);
    }

    method OptimizeAt(f: Func, b: nat, i: nat) returns (modified: bool)
      requires RefsOk(f.bb) && b < |f.bb| && i < |f.bb[b]| && marks == {}
      modifies this, f`bb
      ensures IsRef(old(f.bb), MakeRef(b, i)) && f.bb == OptimizeOne(old(f.bb), MakeRef(b, i)) && marks == {}
      ensures if modified then f.bb != old(f.bb) && At(old(f.bb), MakeRef(b, i)).index.Cmov? else f.bb == old(f.bb)
    {
      hide RefBb, RefI, MakeRef, Search;
      RefRoundTrip(b, i, b, i);
      var r := MakeRef(b, i);
      modified := false;
      if IsChoice(At(f.bb, r)) {
        tmp := None;
        var needed := CmovNeeded(f, r);
        if !needed {
          ghost var was := f.bb;
          f.SetInsn(r, Replaced(At(f.bb, r), tmp));
          assert At(f.bb, r) != At(was, r);
          modified := true;
        }
      }
    }
  }
}
