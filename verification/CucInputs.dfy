/** The primary inputs of a conditional move, and exactly which conditional moves optimize_cmovs replaces by what. */
module CucInputs {
  import opened CucInsn
  import opened CucFunc
  import opened CucNops
  import opened CucDead
  import opened CucCmov

  /** The instruction hands on operand `o`: an addition of zero its first, a conditional move either of two. */
  predicate Passes(ins: Insn, o: Operand) {
    FVolatile !in ins.ty &&
    ((ins.index == Add && ins.a2 == Const(0) && o == ins.a1) || (ins.index == Cmov && (o == ins.a1 || o == ins.a2)))
  }

  /** A way from an instruction along operands that are handed on. */
  ghost predicate Way(bbs: Blocks, p: seq<int>) {
    p != [] && (forall k :: 0 <= k < |p| ==> IsRef(bbs, p[k])) &&
    forall k :: 0 < k < |p| ==> Passes(At(bbs, p[k - 1]), Ref(p[k]))
  }

  /** The way ends at `r` with `o`: an operand that is no reference, or the instruction itself if it hands on nothing.
      */
  ghost predicate EndsIn(bbs: Blocks, r: int, o: Operand)
    requires IsRef(bbs, r)
  {
    var ins := At(bbs, r);
    if Passes(ins, ins.a1) then !o.Ref? && Passes(ins, o) else o == Ref(r)
  }

  /** `o` is one of the values that `r` can hand on. */
  ghost predicate InputOf(bbs: Blocks, r: int, o: Operand) {
    exists p :: Way(bbs, p) && p[0] == r && EndsIn(bbs, p[|p| - 1], o)
  }

  ghost predicate OperandInput(bbs: Blocks, x: Operand, o: Operand) { if x.Ref? then InputOf(bbs, x.i, o) else o == x }

  /** The inputs of an instruction are those of the operands that it hands on. */
  lemma InputStep(bbs: Blocks, r: int, o: Operand)
    requires RefsOk(bbs) && IsRef(bbs, r)
    ensures InputOf(bbs, r, o) <==>
      if Passes(At(bbs, r), At(bbs, r).a1) then exists x :: Passes(At(bbs, r), x) && OperandInput(bbs, x, o)
      else o == Ref(r)
  {
    hide RefBb, RefI;
    var ins := At(bbs, r);
    if InputOf(bbs, r, o) {
      var p :| Way(bbs, p) && p[0] == r && EndsIn(bbs, p[|p| - 1], o);
      if |p| == 1 {
        assert Passes(ins, ins.a1) ==> OperandInput(bbs, o, o);
      } else {
        assert Passes(At(bbs, p[1 - 1]), Ref(p[1]));
        var q := p[1..];
        assert forall k :: 0 < k < |q| ==> q[k - 1] == p[k] && q[k] == p[k + 1];
        assert Way(bbs, q) && q[0] == p[1] && EndsIn(bbs, q[|q| - 1], o);
        assert OperandInput(bbs, Ref(p[1]), o);
      }
    }
    if Passes(ins, ins.a1) {
      if x :| Passes(ins, x) && OperandInput(bbs, x, o) {
        PassedInput(bbs, r, x, o);
      }
    } else {
      assert Way(bbs, [r]) && EndsIn(bbs, r, Ref(r));
    }
  }

  lemma PassedInput(bbs: Blocks, r: int, x: Operand, o: Operand)
    requires RefsOk(bbs) && IsRef(bbs, r) && Passes(At(bbs, r), x) && OperandInput(bbs, x, o)
    ensures InputOf(bbs, r, o)
  {
    hide RefBb, RefI;
    if x.Ref? {
      var q :| Way(bbs, q) && q[0] == x.i && EndsIn(bbs, q[|q| - 1], o);
      var p := [r] + q;
      assert forall k :: 0 < k < |p| ==> p[k] == q[k - 1];
      assert Way(bbs, p) && p[0] == r && p[|p| - 1] == q[|q| - 1];
    } else {
      assert Way(bbs, [r]) && [r][0] == r && EndsIn(bbs, r, o);
    }
  }

  lemma PassesIs(ins: Insn)
    ensures Passes(ins, ins.a1) <==> IsMove(ins) || IsChoice(ins)
    ensures forall o :: Passes(ins, o) <==>
      (IsMove(ins) && o == ins.a1) ||
      (IsChoice(ins) && (o == ins.a1 || o == ins.a2))
  {
  }

  /** What a search that started with `tmp` has found out about a set of inputs. */
  ghost predicate Finds(s: (bool, Operand), tmp: Operand, inputs: iset<Operand>) {
    (exists o :: o in inputs) &&
    if !s.0 then !s.1.None? && (tmp.None? || s.1 == tmp) && (forall o :: o in inputs ==> o == s.1)
    else exists o :: o in inputs && if !tmp.None? then o != tmp else exists o' :: o' in inputs && o' != o
  }

  ghost function Inputs(bbs: Blocks, r: int): iset<Operand> { iset o | InputOf(bbs, r, o) }

  ghost function OperandInputs(bbs: Blocks, x: Operand): iset<Operand> { iset o | OperandInput(bbs, x, o) }

  lemma InputsStep(bbs: Blocks, r: int)
    requires RefsOk(bbs) && IsRef(bbs, r)
    ensures var ins := At(bbs, r);
      Inputs(bbs, r) ==
        if IsMove(ins) then OperandInputs(bbs, ins.a1)
        else if IsChoice(ins) then OperandInputs(bbs, ins.a1) + OperandInputs(bbs, ins.a2)
        else iset{Ref(r)}
  {
    hide InputOf, RefBb, RefI, OperandInput;
    var ins := At(bbs, r);
    PassesIs(ins);
    forall o
      ensures InputOf(bbs, r, o) <==>
        if IsMove(ins) then OperandInput(bbs, ins.a1, o)
        else if IsChoice(ins) then OperandInput(bbs, ins.a1, o) || OperandInput(bbs, ins.a2, o)
        else o == Ref(r)
    {
      InputStep(bbs, r, o);
    }
  }

  /** In an acyclic graph a conditional move is found needed if and only if it has two inputs, and otherwise the one
      that is left is the input it has. */
  lemma {:induction false} SearchExact(bbs: Blocks, marks: set<int>, tmp: Operand, r: int, level: int -> nat)
    requires RefsOk(bbs) && IsRef(bbs, r) && Filled(bbs) && Layered(bbs, level) && Above(marks, level, level(r))
    ensures Finds(Search(bbs, marks, tmp, r), tmp, Inputs(bbs, r))
    decreases Refs(bbs) - marks, 1
  {
    hide RefBb, RefI, Inputs, OperandInputs, SearchOperand, Uses, Layered;
    assert r !in marks;
    var ins := At(bbs, r);
    InRefs(bbs, r);
    InputsStep(bbs, r);
    if IsMove(ins) || IsChoice(ins) {
      assert !ins.a1.None? && !ins.a2.None?;
      OperandExact(bbs, marks + {r}, tmp, ins.a1, r, level);
      var left := SearchOperand(bbs, marks + {r}, tmp, ins.a1, r);
      if !left.0 && IsChoice(ins) {
        OperandExact(bbs, marks + {r}, left.1, ins.a2, r, level);
      }
    }
  }

  lemma {:induction false} OperandExact(bbs: Blocks, marks: set<int>, tmp: Operand, o: Operand, r: int,
    level: int -> nat)
    requires RefsOk(bbs) && IsRef(bbs, r) && (o == At(bbs, r).a1 || o == At(bbs, r).a2) && !o.None?
    requires Filled(bbs) && Layered(bbs, level) && r in marks && Above(marks - {r}, level, level(r))
    ensures Finds(SearchOperand(bbs, marks, tmp, o, r), tmp, OperandInputs(bbs, o))
    decreases Refs(bbs) - marks, 2
  {
    hide RefBb, RefI, InputOf;
    if o.Ref? {
      assert RefIn(At(bbs, r), o.i) && Uses(At(bbs, r), o.i);
      SearchExact(bbs, marks, tmp, o.i, level);
      assert OperandInputs(bbs, o) == Inputs(bbs, o.i);
    } else {
      assert o in OperandInputs(bbs, o);
    }
  }

  /** cmov_needed is false exactly when all inputs are one, which is then left over. */
  lemma NeededExact(bbs: Blocks, r: int, level: int -> nat)
    requires RefsOk(bbs) && IsRef(bbs, r) && Filled(bbs) && Layered(bbs, level)
    ensures !Search(bbs, {}, None, r).0 <==> Single(bbs, r)
    ensures !Search(bbs, {}, None, r).0 ==>
      InputOf(bbs, r, Search(bbs, {}, None, r).1) && !Search(bbs, {}, None, r).1.None?
  {
    hide InputOf, Search;
    SearchExact(bbs, {}, None, r, level);
    assert forall o :: o in Inputs(bbs, r) <==> InputOf(bbs, r, o);
  }

  ghost predicate Single(bbs: Blocks, r: int) {
    forall o, o' :: InputOf(bbs, r, o) && InputOf(bbs, r, o') ==> o == o'
  }

  // ---- optimize_cmovs ----

  /** An input that is a reference is an instruction that hands on nothing, on a lower level unless it is `r` itself. */
  lemma InputEnd(bbs: Blocks, r: int, d: int, level: int -> nat)
    requires RefsOk(bbs) && IsRef(bbs, r) && Layered(bbs, level) && InputOf(bbs, r, Ref(d))
    ensures IsRef(bbs, d) && !Passes(At(bbs, d), At(bbs, d).a1) && (d == r || level(d) < level(r))
  {
    hide RefBb, RefI, Layered;
    var p :| Way(bbs, p) && p[0] == r && EndsIn(bbs, p[|p| - 1], Ref(d));
    WayDown(bbs, p, level);
  }

  lemma {:induction false} WayDown(bbs: Blocks, p: seq<int>, level: int -> nat)
    requires Way(bbs, p) && Layered(bbs, level)
    ensures |p| > 1 ==> level(p[|p| - 1]) < level(p[0])
  {
    hide RefBb, RefI;
    if |p| > 1 {
      var q := p[..|p| - 1];
      WayDown(bbs, q, level);
      assert Passes(At(bbs, p[|p| - 1 - 1]), Ref(p[|p| - 1]));
      assert Uses(At(bbs, p[|p| - 2]), p[|p| - 1]);
    }
  }

  /** Replacing a conditional move by a move of its one input changes the inputs of nothing. */
  lemma {:induction false} InputsKept(bbs: Blocks, q: Blocks, r: int, o: Operand, p: int, level: int -> nat)
    requires RefsOk(bbs) && RefsOk(q) && Layered(bbs, level) && IsRef(bbs, r) && IsRef(bbs, p) && IsChoice(At(bbs, r))
    requires (forall x :: IsRef(q, x) <==> IsRef(bbs, x)) && Single(bbs, r) && InputOf(bbs, r, o)
    requires forall x :: IsRef(bbs, x) ==> At(q, x) == if x == r then Replaced(At(bbs, r), o) else At(bbs, x)
    ensures Inputs(q, p) == Inputs(bbs, p)
    decreases level(p)
  {
    hide RefBb, RefI, InputOf, RefsOk, Uses;
    var ins := At(bbs, p);
    InputsStep(bbs, p);
    InputsStep(q, p);
    if p == r {
      PassesIs(ins);
      assert Inputs(bbs, r) == iset{o};
      if o.Ref? {
        InputEnd(bbs, r, o.i, level);
        InputsStep(q, o.i);
        PassesIs(At(bbs, o.i));
        assert OperandInputs(q, o) == Inputs(q, o.i);
      } else {
        assert OperandInputs(q, o) == iset{o};
      }
    } else if IsMove(ins) || IsChoice(ins) {
      OperandInputsKept(bbs, q, r, o, p, ins.a1, level);
      if IsChoice(ins) { OperandInputsKept(bbs, q, r, o, p, ins.a2, level); }
    }
  }

  lemma {:induction false} OperandInputsKept(bbs: Blocks, q: Blocks, r: int, o: Operand, p: int, x: Operand,
    level: int -> nat)
    requires RefsOk(bbs) && RefsOk(q) && Layered(bbs, level) && IsRef(bbs, r) && IsRef(bbs, p) && IsChoice(At(bbs, r))
    requires (forall x :: IsRef(q, x) <==> IsRef(bbs, x)) && Single(bbs, r) && InputOf(bbs, r, o)
    requires forall x :: IsRef(bbs, x) ==> At(q, x) == if x == r then Replaced(At(bbs, r), o) else At(bbs, x)
    requires x == At(bbs, p).a1 || x == At(bbs, p).a2
    ensures OperandInputs(q, x) == OperandInputs(bbs, x)
    decreases level(p), 0
  {
    hide RefBb, RefI, InputOf, Single;
    if x.Ref? {
      assert RefIn(At(bbs, p), x.i) && Uses(At(bbs, p), x.i);
      InputsKept(bbs, q, r, o, x.i, level);
      assert OperandInputs(q, x) == Inputs(q, x.i) && OperandInputs(bbs, x) == Inputs(bbs, x.i);
    }
  }

  /** What becomes of instruction `p`: a conditional move that has one input is a move of it. */
  ghost predicate Became(was: Blocks, p: int, ins: Insn)
    requires IsRef(was, p)
  {
    exists o :: InputOf(was, p, o) && ins == At(was, p).(index := Add, a1 := o, a2 := Const(0), a3 := None)
  }

  /** The instructions before `limit` in blocks that are not dead have been looked at. */
  ghost predicate DoneTo(was: Blocks, now: Blocks, dead: set<int>, limit: int, level: int -> nat) {
    |now| == |was| && (forall b :: 0 <= b < |was| ==> |now[b]| == |was[b]|) && RefsOk(now) && Filled(now) &&
    Layered(now, level) && (forall p :: IsRef(was, p) ==> IsRef(now, p) && Inputs(now, p) == Inputs(was, p)) &&
    forall p :: IsRef(was, p) ==>
      if p < limit && RefBb(p) !in dead && At(was, p).index == Cmov && FVolatile !in At(was, p).ty && Single(was, p)
      then Became(was, p, At(now, p)) else At(now, p) == At(was, p)
  }

  lemma OneDone(was: Blocks, now: Blocks, dead: set<int>, r: int, level: int -> nat)
    requires RefsOk(was) && IsRef(was, r) && DoneTo(was, now, dead, r, level)
    ensures DoneTo(was, if RefBb(r) in dead then now else OptimizeOne(now, r), dead, r + 1, level)
  {
    hide RefBb, RefI, InputOf, Search, Layered, RefsOk, Filled, Uses, Put;
    NeededExact(now, r, level);
    SameInputs(was, now, r);
    if RefBb(r) !in dead && IsChoice(At(now, r)) && Single(now, r) {
      var o := Search(now, {}, None, r).1;
      var q := OptimizeOne(now, r);
      OptimizeOneRefs(now, r);
      ReplacedStays(now, q, r, o, level);
      assert InputOf(was, r, o);
      forall p | IsRef(was, p)
        ensures Inputs(q, p) == Inputs(was, p)
      {
        InputsKept(now, q, r, o, p, level);
      }
    }
  }

  lemma SameInputs(was: Blocks, now: Blocks, r: int)
    requires Inputs(was, r) == Inputs(now, r)
    ensures Single(was, r) <==> Single(now, r)
    ensures forall o :: InputOf(was, r, o) <==> InputOf(now, r, o)
  {
    hide InputOf;
    forall o
      ensures InputOf(was, r, o) <==> InputOf(now, r, o)
    {
      assert o in Inputs(was, r) <==> o in Inputs(now, r);
    }
  }

  lemma ReplacedStays(bbs: Blocks, q: Blocks, r: int, o: Operand, level: int -> nat)
    requires RefsOk(bbs) && Filled(bbs) && Layered(bbs, level) && IsRef(bbs, r) && IsChoice(At(bbs, r))
    requires InputOf(bbs, r, o) && !o.None?
    requires q == Put(bbs, r, Replaced(At(bbs, r), o))
    ensures Filled(q) && Layered(q, level)
  {
    hide RefBb, RefI, InputOf;
    PassesIs(At(bbs, r));
    if o.Ref? { InputEnd(bbs, r, o.i, level); }
    forall p, d | IsRef(q, p) && Uses(At(q, p), d)
      ensures level(d) < level(p)
    {
      if p == r && At(bbs, r).a0 == Ref(d) { assert Uses(At(bbs, r), d); }
    }
  }

  /** After the pass, in an acyclic graph: every conditional move of a block that is not dead whose inputs are one is a
      move of that input, and everything else is as it was. */
  lemma {:induction false} OptimizeExact(bbs: Blocks, dead: set<int>, b: nat, i: nat, level: int -> nat)
    requires RefsOk(bbs) && Filled(bbs) && Layered(bbs, level)
    requires b <= |bbs| && (b < |bbs| ==> i <= |bbs[b]|) && (b == |bbs| ==> i == 0)
    ensures DoneTo(bbs, OptimizeTo(bbs, dead, b, i), dead, MakeRef(b, i), level)
    decreases b, i
  {
    hide RefBb, RefI, MakeRef, OptimizeOne, Inputs, RefsOk, Filled, Layered, Single, Became;
    if i > 0 {
      OptimizeExact(bbs, dead, b, i - 1, level);
      SizedRefs(bbs);
      RefRoundTrip(b, i - 1, b, i);
      OneDone(bbs, OptimizeTo(bbs, dead, b, i - 1), dead, MakeRef(b, i - 1), level);
      NextLimit(b, i - 1);
    } else if b > 0 {
      OptimizeExact(bbs, dead, b - 1, |bbs[b - 1]|, level);
      SizedRefs(bbs);
      forall p | IsRef(bbs, p)
        ensures p < MakeRef(b, 0) <==> p < MakeRef(b - 1, |bbs[b - 1]|)
      {
        RefUnpacked(p);
        RefRoundTrip(RefBb(p), RefI(p), b, 0);
        RefRoundTrip(RefBb(p), RefI(p), b - 1, |bbs[b - 1]|);
      }
    } else {
      NothingBefore();
    }
  }

  lemma SizedRefs(bbs: Blocks)
    requires RefsOk(bbs)
    ensures Sized(bbs)
  {
  }

  lemma NextLimit(b: nat, i: nat)
    ensures MakeRef(b, i + 1) == MakeRef(b, i) + 1
  {
  }

  lemma NothingBefore()
    ensures MakeRef(0, 0) == 0
  {
  }

  /** A conditional move that the pass replaces. */
  ghost predicate Replaceable(bbs: Blocks, dead: set<int>, p: int) {
    IsRef(bbs, p) && RefBb(p) !in dead && At(bbs, p).index == Cmov && FVolatile !in At(bbs, p).ty && Single(bbs, p)
  }

  /** Exactly the replaceable conditional moves are moves of their input afterwards, nothing else changes, and the
      function changes if and only if there is one. */
  lemma PassExact(bbs: Blocks, dead: set<int>, level: int -> nat)
    requires RefsOk(bbs) && Filled(bbs) && Layered(bbs, level)
    ensures var q := OptimizeTo(bbs, dead, |bbs|, 0);
      (forall p :: IsRef(bbs, p) ==>
        IsRef(q, p) && if Replaceable(bbs, dead, p) then Became(bbs, p, At(q, p)) else At(q, p) == At(bbs, p)) &&
      (q != bbs <==> exists p :: Replaceable(bbs, dead, p))
  {
    hide RefBb, RefI, MakeRef, OptimizeTo, Inputs, InputOf, RefsOk, Filled, Layered, Single;
    OptimizeExact(bbs, dead, |bbs|, 0, level);
    SizedRefs(bbs);
    var q := OptimizeTo(bbs, dead, |bbs|, 0);
    forall p | IsRef(bbs, p)
      ensures p < MakeRef(|bbs|, 0)
    {
      RefUnpacked(p);
      RefRoundTrip(RefBb(p), RefI(p), |bbs|, 0);
    }
    if !exists p :: Replaceable(bbs, dead, p) {
      forall p | IsRef(bbs, p)
        ensures At(bbs, p) == At(q, p)
      {
        assert !Replaceable(bbs, dead, p);
      }
      SameBlocks(bbs, q);
    }
  }
}
