/** What running a function shows: its memory accesses, branch decisions, outputs and other volatile instructions, and
    why removing dead code changes none of it. */
module CucEffects {
  import opened CucInsn
  import opened CucFunc
  import opened CucNops
  import opened CucMemory
  import opened CucDead
  import opened CucFlow
  import CucExec

  // ---- Running a block ----

  /** An instruction that can be seen from outside. Where loads may be reordered they are all seen. */
  predicate Visible(ins: Insn, order: Ordering) {
    FVolatile in ins.ty || FOutput in ins.ty || ins.index in {Sb, Sh, Sw} ||
    (ins.index in {Lb, Lh, Lw} && order in {MoNone, MoWeak})
  }

  /** What is seen: the instruction but for the names of what it refers to, and the values of its operands. */
  datatype Event = Event(ins: Insn, v0: Word, v1: Word, v2: Word, v3: Word)

  datatype Seen = Seen(m: Memory, events: seq<Event>)

  function EventOf(bbs: Blocks, r: int, env: Env, loaded: map<int, Word>): Event
    requires IsRef(bbs, r)
  {
    var ins := At(bbs, r);
    Event(Erased(ins), Value(bbs, r, ins.a0, env, loaded), Value(bbs, r, ins.a1, env, loaded),
      Value(bbs, r, ins.a2, env, loaded), Value(bbs, r, ins.a3, env, loaded))
  }

  /** Operands that are references are references to instructions. */
  ghost predicate OperandsOk(bbs: Blocks) {
    Sized(bbs) && forall r, d :: IsRef(bbs, r) && Uses(At(bbs, r), d) ==> IsRef(bbs, d)
  }

  /** Instruction `r` is executed. */
  ghost function Next(bbs: Blocks, order: Ordering, r: int, env: Env, s: Seen): Seen
    requires OperandsOk(bbs) && IsRef(bbs, r)
  {
    var ins := At(bbs, r);
    var m :=
      if IsLoad(ins.index) || IsStore(ins.index) then
        assert ins.a1.Ref? ==> Uses(ins, ins.a1.i);
        Access(bbs, r, env, s.m)
      else s.m;
    Seen(m, s.events + if Visible(ins, order) then [EventOf(bbs, r, env, s.m.loaded)] else [])
  }

  /** The first `i` instructions of block `b` are executed. */
  ghost function Watch(bbs: Blocks, order: Ordering, b: nat, i: nat, env: Env, s: Seen): Seen
    requires OperandsOk(bbs) && b < |bbs| && i <= |bbs[b]|
  {
    if i == 0 then s
    else
      RefRoundTrip(b, i - 1, b, i - 1);
      Next(bbs, order, MakeRef(b, i - 1), env, Watch(bbs, order, b, i - 1, env, s))
  }

  /** Blocks are executed one after the other, each with the registers and the values of the pass before. */
  ghost function WatchAll(bbs: Blocks, order: Ordering, steps: seq<(nat, Env)>, s: Seen): Seen
    requires OperandsOk(bbs) && forall k :: 0 <= k < |steps| ==> steps[k].0 < |bbs|
  {
    if steps == [] then s
    else
      var (b, env) := steps[|steps| - 1];
      Watch(bbs, order, b, |bbs[b]|, env, WatchAll(bbs, order, steps[..|steps| - 1], s))
  }

  // ---- What is needed ----

  lemma VisibleRoot(ins: Insn, order: Ordering)
    ensures Visible(ins, order) <==> IsRoot(ins, order)
  {
  }

  /** A way along operands from something visible to `r`. */
  ghost predicate NeededBy(bbs: Blocks, order: Ordering, p: seq<int>, r: int) {
    p != [] && (forall k :: 0 <= k < |p| ==> IsRef(bbs, p[k])) && Visible(At(bbs, p[0]), order) && p[|p| - 1] == r &&
    forall k :: 0 < k < |p| ==> Uses(At(bbs, p[k - 1]), p[k])
  }

  /** Nothing is left that nothing visible needs, and nothing twice. */
  lemma LeftIsNeeded(bbs: Blocks, order: Ordering, p: int) returns (r: int, way: seq<int>)
    requires RefsOk(bbs) && IsRef(Compacted(Kept(bbs, order)), p)
    ensures IsRef(bbs, r) && NewPlace(bbs, order, r) == p && NeededBy(bbs, order, way, r)
  {
    hide RefBb, RefI, Kept, NewPlace, Uses, Compacted;
    r := SurvivorsLive(bbs, order, p);
    way :| Path(bbs, order, way) && way[|way| - 1] == r;
    VisibleRoot(At(bbs, way[0]), order);
  }

  // ---- The pass shows the same ----

  /** What the pass starts from agrees with what it started from before, for everything that is left. */
  ghost predicate EnvMoved(bbs: Blocks, order: Ordering, env: Env, env': Env) {
    (forall o: Operand :: !o.Ref? ==> env'.val(o) == env.val(o)) &&
    forall r :: IsRef(bbs, r) && Live(bbs, order, r) ==>
      env'.val(Ref(NewPlace(bbs, order, r))) == env.val(Ref(r)) &&
      forall a, b, c, d :: env'.sem(NewPlace(bbs, order, r), a, b, c, d) == env.sem(r, a, b, c, d)
  }

  ghost predicate LoadedMoved(bbs: Blocks, order: Ordering, loaded: map<int, Word>, loaded': map<int, Word>) {
    forall r :: IsRef(bbs, r) && Live(bbs, order, r) ==>
      (NewPlace(bbs, order, r) in loaded' <==> r in loaded) &&
      (r in loaded ==> loaded'[NewPlace(bbs, order, r)] == loaded[r])
  }

  ghost predicate SeenMoved(bbs: Blocks, order: Ordering, s: Seen, s': Seen) {
    s'.events == s.events && s'.m.mem == s.m.mem && LoadedMoved(bbs, order, s.m.loaded, s'.m.loaded)
  }

  /** What is left stays in its block and in order. */
  lemma PlacesInOrder(bbs: Blocks, order: Ordering, r: int, d: int)
    requires RefsOk(bbs) && NopsDead(bbs, order) && IsRef(bbs, r) && IsRef(bbs, d)
    requires Live(bbs, order, r) && Live(bbs, order, d)
    ensures RefBb(NewPlace(bbs, order, r)) == RefBb(r)
    ensures NewPlace(bbs, order, d) < NewPlace(bbs, order, r) <==> d < r
    ensures NewPlace(bbs, order, d) == NewPlace(bbs, order, r) <==> d == r
  {
    hide Live, Kept, Rank, MakeRef, RefBb, RefI;
    KeptAt(bbs, order);
    PlaceParts(bbs, order, r);
    PlaceParts(bbs, order, d);
    RefUnpacked(r);
    RefUnpacked(d);
    var k := Kept(bbs, order);
    RefRoundTrip(RefBb(d), RefI(d), RefBb(r), RefI(r));
    RefRoundTrip(RefBb(d), Rank(k[RefBb(d)], RefI(d)), RefBb(r), Rank(k[RefBb(r)], RefI(r)));
    RefRoundTrip(RefBb(r), Rank(k[RefBb(r)], RefI(r)), RefBb(d), Rank(k[RefBb(d)], RefI(d)));
    if RefBb(r) == RefBb(d) {
      if RefI(d) <= RefI(r) { RankMonotone(k[RefBb(r)], RefI(d), RefI(r)); }
      if RefI(r) <= RefI(d) { RankMonotone(k[RefBb(r)], RefI(r), RefI(d)); }
    }
  }

  lemma PlaceParts(bbs: Blocks, order: Ordering, r: int)
    requires RefsOk(bbs) && NopsDead(bbs, order) && IsRef(bbs, r) && Live(bbs, order, r)
    ensures var k := Kept(bbs, order);
      RefBb(r) < |k| && RefI(r) < |k[RefBb(r)]| && !IsNop(k[RefBb(r)][RefI(r)]) &&
      RefI(r) < MAX_INSNS && Rank(k[RefBb(r)], RefI(r)) < MAX_INSNS &&
      NewPlace(bbs, order, r) == MakeRef(RefBb(r), Rank(k[RefBb(r)], RefI(r)))
  {
    hide Live, Kept, Rank, MakeRef;
    KeptAt(bbs, order);
    assert At(Kept(bbs, order), r) == SetFlag(At(bbs, r), FUnused, false);
  }

  lemma {:induction false} ValueMoved(bbs: Blocks, order: Ordering, r: int, o: Operand, env: Env, env': Env,
    loaded: map<int, Word>, loaded': map<int, Word>)
    requires RefsOk(bbs) && NopsDead(bbs, order) && IsRef(bbs, r) && Live(bbs, order, r)
    requires EnvMoved(bbs, order, env, env') && LoadedMoved(bbs, order, loaded, loaded')
    requires o.Ref? ==> Uses(At(bbs, r), o.i)
    ensures IsRef(Compacted(Kept(bbs, order)), NewPlace(bbs, order, r))
    ensures Value(Compacted(Kept(bbs, order)), NewPlace(bbs, order, r), MapOperand(o, d => NewPlace(bbs, order, d)),
      env',
      loaded') == Value(bbs, r, o, env, loaded)
    decreases r, 0
  {
    hide RefBb, RefI, Live, Kept, NewPlace, Compacted, RefsOk, NopsDead, LoadedMoved;
    LiveSurvive(bbs, order, r);
    if o.Ref? {
      PlacesInOrder(bbs, order, r, o.i);
      if o.i < r {
        ResultMoved(bbs, order, o.i, env, env', loaded, loaded');
      }
    }
  }

  lemma {:induction false} ResultMoved(bbs: Blocks, order: Ordering, r: int, env: Env, env': Env,
    loaded: map<int, Word>, loaded': map<int, Word>)
    requires RefsOk(bbs) && NopsDead(bbs, order) && IsRef(bbs, r) && Live(bbs, order, r)
    requires EnvMoved(bbs, order, env, env') && LoadedMoved(bbs, order, loaded, loaded')
    ensures IsRef(Compacted(Kept(bbs, order)), NewPlace(bbs, order, r))
    ensures Result(Compacted(Kept(bbs, order)), NewPlace(bbs, order, r), env', loaded') == Result(bbs, r, env, loaded)
    decreases r, 1
  {
    hide RefBb, RefI, Live, Kept, NewPlace, Compacted, RefsOk, NopsDead, Value;
    LiveSurvive(bbs, order, r);
    OperandsMoved(bbs, order, r, env, env', loaded, loaded');
  }

  lemma {:induction false} OperandsMoved(bbs: Blocks, order: Ordering, r: int, env: Env, env': Env,
    loaded: map<int, Word>, loaded': map<int, Word>)
    requires RefsOk(bbs) && NopsDead(bbs, order) && IsRef(bbs, r) && Live(bbs, order, r)
    requires EnvMoved(bbs, order, env, env') && LoadedMoved(bbs, order, loaded, loaded')
    ensures var q, p := Compacted(Kept(bbs, order)), NewPlace(bbs, order, r);
      IsRef(q, p) && var a, a' := At(bbs, r), At(q, p);
      Value(q, p, a'.a0, env', loaded') == Value(bbs, r, a.a0, env, loaded) &&
      Value(q, p, a'.a1, env', loaded') == Value(bbs, r, a.a1, env, loaded) &&
      Value(q, p, a'.a2, env', loaded') == Value(bbs, r, a.a2, env, loaded) &&
      Value(q, p, a'.a3, env', loaded') == Value(bbs, r, a.a3, env, loaded)
    decreases r, 1, 0
  {
    hide RefBb, RefI, Live, Kept, NewPlace, Compacted, RefsOk, NopsDead, Value, EnvMoved, LoadedMoved;
    LiveSurvive(bbs, order, r);
    var ins := At(bbs, r);
    ValueMoved(bbs, order, r, ins.a0, env, env', loaded, loaded');
    ValueMoved(bbs, order, r, ins.a1, env, env', loaded, loaded');
    ValueMoved(bbs, order, r, ins.a2, env, env', loaded, loaded');
    ValueMoved(bbs, order, r, ins.a3, env, env', loaded, loaded');
  }

  /** It is the same instruction but for the names of what it refers to. */
  lemma SameToSee(ins: Insn, g: int -> int, order: Ordering)
    ensures var now := MapInsn(SetFlag(ins, FUnused, false), g);
      Erased(now) == Erased(ins) && now.index == ins.index && (Visible(now, order) <==> Visible(ins, order)) &&
      (FSigned in now.ty <==> FSigned in ins.ty)
  {
  }

  lemma AccessMoved(bbs: Blocks, order: Ordering, r: int, env: Env, env': Env, m: Memory, m': Memory)
    requires RefsOk(bbs) && NopsDead(bbs, order) && IsRef(bbs, r) && Live(bbs, order, r)
    requires EnvMoved(bbs, order, env, env') && LoadedMoved(bbs, order, m.loaded, m'.loaded) && m'.mem == m.mem
    requires IsAccess(bbs, r) && IsAccess(Compacted(Kept(bbs, order)), NewPlace(bbs, order, r))
    ensures var n, n' := Access(bbs, r, env, m), Access(Compacted(Kept(bbs, order)), NewPlace(bbs, order, r), env', m');
      n'.mem == n.mem && LoadedMoved(bbs, order, n.loaded, n'.loaded)
  {
    hide RefBb, RefI, Live, Kept, NewPlace, Compacted, RefsOk, NopsDead, Value, EnvMoved, Visible;
    LiveSurvive(bbs, order, r);
    OperandsMoved(bbs, order, r, env, env', m.loaded, m'.loaded);
    SameToSee(At(bbs, r), d => NewPlace(bbs, order, d), order);
    forall d | IsRef(bbs, d) && Live(bbs, order, d)
      ensures NewPlace(bbs, order, d) == NewPlace(bbs, order, r) <==> d == r
    {
      PlacesInOrder(bbs, order, r, d);
    }
  }

  /** A live instruction shows the same, and leaves the same memory. */
  lemma NextMoved(bbs: Blocks, order: Ordering, r: int, env: Env, env': Env, s: Seen, s': Seen)
    requires RefsOk(bbs) && NopsDead(bbs, order) && IsRef(bbs, r) && Live(bbs, order, r)
    requires OperandsOk(bbs) && OperandsOk(Compacted(Kept(bbs, order))) &&
      IsRef(Compacted(Kept(bbs, order)), NewPlace(bbs, order, r))
    requires EnvMoved(bbs, order, env, env') && SeenMoved(bbs, order, s, s')
    ensures SeenMoved(bbs, order, Next(bbs, order, r, env, s),
      Next(Compacted(Kept(bbs, order)), order, NewPlace(bbs, order, r), env', s'))
  {
    hide RefBb, RefI, Live, Kept, NewPlace, Compacted, RefsOk, NopsDead, Value, EnvMoved, LoadedMoved, Access, Erased,
      OperandsOk, Visible, MapInsn, SetFlag, At;
    var q, p := Compacted(Kept(bbs, order)), NewPlace(bbs, order, r);
    LiveSurvive(bbs, order, r);
    OperandsMoved(bbs, order, r, env, env', s.m.loaded, s'.m.loaded);
    SameToSee(At(bbs, r), d => NewPlace(bbs, order, d), order);
    assert EventOf(q, p, env', s'.m.loaded) == EventOf(bbs, r, env, s.m.loaded);
    IsAccessOf(bbs, r);
    IsAccessOf(q, p);
    if IsLoad(At(bbs, r).index) || IsStore(At(bbs, r).index) {
      AccessMoved(bbs, order, r, env, env', s.m, s'.m);
    }
  }

  lemma IsAccessOf(bbs: Blocks, r: int)
    requires OperandsOk(bbs) && IsRef(bbs, r)
    ensures IsLoad(At(bbs, r).index) || IsStore(At(bbs, r).index) ==> IsAccess(bbs, r)
  {
    var ins := At(bbs, r);
    assert ins.a1.Ref? ==> Uses(ins, ins.a1.i);
  }

  /** An instruction that is not live shows nothing and stores nothing. */
  lemma DeadShowsNothing(bbs: Blocks, order: Ordering, r: int, env: Env, s: Seen, s': Seen)
    requires RefsOk(bbs) && OperandsOk(bbs) && IsRef(bbs, r) && !Live(bbs, order, r) && SeenMoved(bbs, order, s, s')
    ensures SeenMoved(bbs, order, Next(bbs, order, r, env, s), s')
  {
    hide RefBb, RefI, RefsOk, Value, NewPlace, Live;
    VisibleRoot(At(bbs, r), order);
    if IsRoot(At(bbs, r), order) { LiveRoot(bbs, order, r); }
  }

  lemma OperandsStayOk(bbs: Blocks, order: Ordering)
    requires RefsOk(bbs) && NopsDead(bbs, order)
    ensures OperandsOk(bbs) && OperandsOk(Compacted(Kept(bbs, order)))
  {
    hide RefBb, RefI, Live, Kept, NewPlace, Compacted, NopsDead;
    UsesIn(bbs);
    var q := Compacted(Kept(bbs, order));
    LeftSized(bbs, order);
    forall p, d | IsRef(q, p) && Uses(At(q, p), d)
      ensures IsRef(q, d)
    {
      var r := SurvivorsLive(bbs, order, p);
      LiveSurvive(bbs, order, r);
      var c := UsedFrom(At(bbs, r), x => NewPlace(bbs, order, x), d);
      LiveSurvive(bbs, order, c);
    }
  }

  lemma UsesIn(bbs: Blocks)
    requires RefsOk(bbs)
    ensures OperandsOk(bbs)
  {
    assert forall r, d :: IsRef(bbs, r) && Uses(At(bbs, r), d) ==> RefIn(At(bbs, r), d);
  }

  lemma LeftSized(bbs: Blocks, order: Ordering)
    requires Sized(bbs)
    ensures Sized(Compacted(Kept(bbs, order))) && |Compacted(Kept(bbs, order))| == |bbs|
  {
    hide Live;
    KeptAt(bbs, order);
  }

  lemma UsedFrom(ins: Insn, g: int -> int, d: int) returns (c: int)
    requires Uses(MapInsn(SetFlag(ins, FUnused, false), g), d)
    ensures Uses(ins, c) && g(c) == d
  {
    var now := MapInsn(SetFlag(ins, FUnused, false), g);
    c := if now.a0 == Ref(d) then ins.a0.i else if now.a1 == Ref(d) then ins.a1.i
         else if now.a2 == Ref(d) then ins.a2.i else ins.a3.i;
  }

  /** Where the pass through a block that was at instruction `i` is now. */
  ghost function NowAt(bbs: Blocks, order: Ordering, b: nat, i: nat): (n: nat)
    requires b < |bbs| && i <= |bbs[b]|
  {
    KeptAt(bbs, order);
    Rank(Kept(bbs, order)[b], i)
  }

  lemma NowNext(bbs: Blocks, order: Ordering, b: nat, i: nat)
    requires RefsOk(bbs) && NopsDead(bbs, order) && b < |bbs| && i < |bbs[b]|
    ensures var r := MakeRef(b, i);
      IsRef(bbs, r) && RefBb(r) == b &&
      NowAt(bbs, order, b, i + 1) == NowAt(bbs, order, b, i) + (if Live(bbs, order, r) then 1 else 0) &&
      (Live(bbs, order, r) ==> NewPlace(bbs, order, r) == MakeRef(b, NowAt(bbs, order, b, i)))
  {
    hide Live, Kept, Rank, MakeRef;
    KeptAt(bbs, order);
    RefRoundTrip(b, i, b, i);
    var k, r := Kept(bbs, order), MakeRef(b, i);
    assert k[b][i] == At(k, r);
    RankNext(k[b], i);
    if Live(bbs, order, r) { PlaceParts(bbs, order, r); } else { assert IsNop(NOP_INSN); }
  }

  lemma NowEnd(bbs: Blocks, order: Ordering, b: nat)
    requires RefsOk(bbs) && b < |bbs|
    ensures |Compacted(Kept(bbs, order))| == |bbs|
    ensures NowAt(bbs, order, b, 0) == 0 && NowAt(bbs, order, b, |bbs[b]|) == |Compacted(Kept(bbs, order))[b]|
  {
    hide Live;
    KeptAt(bbs, order);
    var k := Kept(bbs, order)[b];
    SurvivorsCount(k, |k|);
    assert k[..|k|] == k;
  }

  /** In every block the pass shows what was shown before it, in the same order. */
  lemma {:induction false} WatchMoved(bbs: Blocks, order: Ordering, b: nat, i: nat, env: Env, env': Env, s: Seen,
    s': Seen)
    requires RefsOk(bbs) && NopsDead(bbs, order) && OperandsOk(bbs) && OperandsOk(Compacted(Kept(bbs, order)))
    requires b < |bbs| == |Compacted(Kept(bbs, order))| && i <= |bbs[b]|
    requires EnvMoved(bbs, order, env, env') && SeenMoved(bbs, order, s, s')
    ensures NowAt(bbs, order, b, i) <= |Compacted(Kept(bbs, order))[b]|
    ensures SeenMoved(bbs, order, Watch(bbs, order, b, i, env, s),
      Watch(Compacted(Kept(bbs, order)), order, b, NowAt(bbs, order, b, i), env', s'))
  {
    hide RefBb, RefI, MakeRef, Live, Kept, NewPlace, Compacted, RefsOk, NopsDead, EnvMoved, SeenMoved, Next, NowAt,
      OperandsOk;
    NowEnd(bbs, order, b);
    NowBelow(bbs, order, b, i);
    if i > 0 {
      var r := MakeRef(b, i - 1);
      WatchMoved(bbs, order, b, i - 1, env, env', s, s');
      NowNext(bbs, order, b, i - 1);
      var q, n := Compacted(Kept(bbs, order)), NowAt(bbs, order, b, i - 1);
      var t, t' := Watch(bbs, order, b, i - 1, env, s), Watch(q, order, b, n, env', s');
      if Live(bbs, order, r) {
        LiveSurvive(bbs, order, r);
        NextMoved(bbs, order, r, env, env', t, t');
      } else {
        DeadShowsNothing(bbs, order, r, env, t, t');
      }
    }
  }

  lemma NowBelow(bbs: Blocks, order: Ordering, b: nat, i: nat)
    requires RefsOk(bbs) && b < |bbs| == |Compacted(Kept(bbs, order))| && i <= |bbs[b]|
    ensures NowAt(bbs, order, b, i) <= |Compacted(Kept(bbs, order))[b]|
  {
    hide Live, Kept, Compacted, Rank;
    NowEnd(bbs, order, b);
    KeptAt(bbs, order);
    RankMonotone(Kept(bbs, order)[b], i, |bbs[b]|);
  }

  /** The same blocks, from agreeing registers and values of the pass before. */
  ghost predicate StepsMoved(bbs: Blocks, order: Ordering, steps: seq<(nat, Env)>, steps': seq<(nat, Env)>) {
    |steps| == |steps'| && forall k :: 0 <= k < |steps| ==>
      steps[k].0 == steps'[k].0 < |bbs| && EnvMoved(bbs, order, steps[k].1, steps'[k].1)
  }

  /** If nothing visible needs a nop, every run through the blocks makes the same memory accesses, branch decisions,
      outputs and other visible steps, with the same values and in the same order, and leaves the same memory. */
  lemma {:induction false} RemoveDeadShowsSame(bbs: Blocks, order: Ordering, steps: seq<(nat, Env)>,
    steps': seq<(nat, Env)>, s: Seen, s': Seen)
    requires RefsOk(bbs) && NopsDead(bbs, order) && StepsMoved(bbs, order, steps, steps') &&
      SeenMoved(bbs, order, s, s')
    ensures OperandsOk(bbs) && OperandsOk(Compacted(Kept(bbs, order))) && |Compacted(Kept(bbs, order))| == |bbs|
    ensures SeenMoved(bbs, order, WatchAll(bbs, order, steps, s),
      WatchAll(Compacted(Kept(bbs, order)), order, steps', s'))
  {
    hide Live, Kept, Compacted, RefsOk, NopsDead, EnvMoved, SeenMoved, Watch, OperandsOk, NowAt;
    OperandsStayOk(bbs, order);
    SameNumber(bbs, order);
    if steps != [] {
      var n := |steps| - 1;
      RemoveDeadShowsSame(bbs, order, steps[..n], steps'[..n], s, s');
      var (b, env) := steps[n];
      var (c, env') := steps'[n];
      NowEnd(bbs, order, b);
      WatchMoved(bbs, order, b, |bbs[b]|, env, env', WatchAll(bbs, order, steps[..n], s),
        WatchAll(Compacted(Kept(bbs, order)), order, steps'[..n], s'));
    }
  }

  lemma SameNumber(bbs: Blocks, order: Ordering)
    requires RefsOk(bbs)
    ensures |Compacted(Kept(bbs, order))| == |bbs|
  {
    hide Live;
    KeptAt(bbs, order);
  }

  /** Whatever is visible, branches among it, is still in its block, the same instruction with every operand leading to
      what it led to; two of them stay in order. */
  lemma VisibleStays(bbs: Blocks, order: Ordering, r: int, d: int)
    requires RefsOk(bbs) && NopsDead(bbs, order) && IsRef(bbs, r) && IsRef(bbs, d)
    requires Visible(At(bbs, r), order) && Visible(At(bbs, d), order)
    ensures
      var q, g := Compacted(Kept(bbs, order)), x => NewPlace(bbs, order, x);
      IsRef(q, g(r)) && RefBb(g(r)) == RefBb(r) && (g(d) < g(r) <==> d < r) &&
      At(q, g(r)) == MapInsn(At(bbs, r).(ty := At(bbs, r).ty - {FUnused}), g) &&
      forall x :: Uses(At(bbs, r), x) ==> exists way :: NeededBy(bbs, order, way, x)
  {
    hide RefBb, RefI, Kept, NewPlace, Compacted, RefsOk, NopsDead, Visible, MapInsn;
    VisibleRoot(At(bbs, r), order);
    VisibleRoot(At(bbs, d), order);
    LiveRoot(bbs, order, r);
    LiveRoot(bbs, order, d);
    LiveSurvive(bbs, order, r);
    PlacesInOrder(bbs, order, r, d);
    forall x | Uses(At(bbs, r), x)
      ensures exists way :: NeededBy(bbs, order, way, x)
    {
      assert IsRef(bbs, x);
      var way := [r, x];
      assert NeededBy(bbs, order, way, x);
    }
  }
}
