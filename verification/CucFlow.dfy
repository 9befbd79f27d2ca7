/** What a block does to memory when its accesses are made in some order, each with the address and the data that its
    operands have at that moment, and why the scheduler's order changes nothing. */
module CucFlow {
  import opened CucInsn
  import opened CucFunc
  import opened CucNops
  import opened CucDead
  import opened CucMemory
  import opened CucSchedule
  import opened CucDataDep
  import CucExec

  // ---- Values ----

  /** What the pass through the code starts from: registers, and what the pass before left in instructions further
      down; and what each instruction that is no memory access or addition computes from its operands. */
  datatype Env = Env(val: Operand -> Word, sem: (int, Word, Word, Word, Word) -> Word)

  /** Memory, and what each load has read last. */
  datatype Memory = Memory(mem: map<Word, Byte>, loaded: map<int, Word>)

  /** The value of operand `o` of instruction `r`. */
  function Value(bbs: Blocks, r: int, o: Operand, env: Env, loaded: map<int, Word>): Word
    requires IsRef(bbs, r)
    decreases r, 0
  {
    if o.Const? then o.w
    else if o.Ref? && o.i < r && IsRef(bbs, o.i) then Result(bbs, o.i, env, loaded)
    else env.val(o)
  }

  /** The value of instruction `r`: what a load has read, and what anything else computes. */
  function Result(bbs: Blocks, r: int, env: Env, loaded: map<int, Word>): Word
    requires IsRef(bbs, r)
    decreases r, 1
  {
    var ins := At(bbs, r);
    if IsLoad(ins.index) then if r in loaded then loaded[r] else env.val(Ref(r))
    else
      var a, b := Value(bbs, r, ins.a1, env, loaded), Value(bbs, r, ins.a2, env, loaded);
      if ins.index.Add? then CucExec.Wrap(a + b)
      else env.sem(r, Value(bbs, r, ins.a0, env, loaded), a, b, Value(bbs, r, ins.a3, env, loaded))
  }

  /** Only what feeds an instruction matters to its operands. */
  lemma {:induction false} ValueUnfed(bbs: Blocks, r: int, o: Operand, env: Env, loaded: map<int, Word>, d: int,
    w: Word)
    requires IsRef(bbs, r) && !OperandFed(bbs, r, o, d)
    ensures Value(bbs, r, o, env, loaded[d := w]) == Value(bbs, r, o, env, loaded)
    decreases r, 0
  {
    if o.Ref? && o.i < r && IsRef(bbs, o.i) {
      ResultUnfed(bbs, o.i, env, loaded, d, w);
    }
  }

  lemma {:induction false} ResultUnfed(bbs: Blocks, r: int, env: Env, loaded: map<int, Word>, d: int, w: Word)
    requires IsRef(bbs, r) && r != d && !FedBy(bbs, r, d)
    ensures Result(bbs, r, env, loaded[d := w]) == Result(bbs, r, env, loaded)
    decreases r, 1
  {
    hide OperandFed;
    var ins := At(bbs, r);
    ValueUnfed(bbs, r, ins.a0, env, loaded, d, w);
    ValueUnfed(bbs, r, ins.a1, env, loaded, d, w);
    ValueUnfed(bbs, r, ins.a2, env, loaded, d, w);
    ValueUnfed(bbs, r, ins.a3, env, loaded, d, w);
  }

  // ---- Accesses ----

  function Address(bbs: Blocks, r: int, env: Env, loaded: map<int, Word>): Word
    requires IsRef(bbs, r)
  {
    Value(bbs, r, At(bbs, r).a1, env, loaded)
  }

  function Data(bbs: Blocks, r: int, env: Env, loaded: map<int, Word>): Word
    requires IsRef(bbs, r)
  {
    Value(bbs, r, At(bbs, r).a0, env, loaded)
  }

  /** One access: a load records what it read, a store writes its data. */
  function Access(bbs: Blocks, r: int, env: Env, m: Memory): Memory
    requires IsAccess(bbs, r)
  {
    var ins, a := At(bbs, r), Address(bbs, r, env, m.loaded);
    if IsLoad(ins.index) then m.(loaded := m.loaded[r := CucExec.Load(ins.index, FSigned in ins.ty, a, m.mem)])
    else m.(mem := CucExec.Store(ins.index, a, Data(bbs, r, env, m.loaded), m.mem))
  }

  /** The accesses of block `b`, in the order of `sched`. */
  function RunBlock(bbs: Blocks, sched: seq<int>, b: nat, env: Env, m: Memory): Memory
    requires AllMem(bbs, sched)
  {
    if sched == [] then m
    else
      var m' := RunBlock(bbs, sched[..|sched| - 1], b, env, m);
      var r := sched[|sched| - 1];
      if RefBb(r) == b then Access(bbs, r, env, m') else m'
  }

  ghost predicate Disjoint(bbs: Blocks, x: int, y: int, env: Env, loaded: map<int, Word>)
    requires IsAccess(bbs, x) && IsAccess(bbs, y)
  {
    Apart(Address(bbs, x, env, loaded), MemWidth(At(bbs, x).index), Address(bbs, y, env, loaded),
      MemWidth(At(bbs, y).index))
  }

  /** Neither access feeds the other, and they never touch the same byte. */
  ghost predicate Independent(bbs: Blocks, x: int, y: int, env: Env)
    requires IsAccess(bbs, x) && IsAccess(bbs, y)
  {
    x != y && !FedBy(bbs, x, y) && !FedBy(bbs, y, x) && forall loaded: map<int, Word> ::
      Disjoint(bbs, x, y, env, loaded)
  }

  /** An access that is not fed by another has the same address and data before and after it. */
  lemma AccessUnfed(bbs: Blocks, x: int, y: int, env: Env, m: Memory)
    requires IsAccess(bbs, x) && IsAccess(bbs, y) && !FedBy(bbs, x, y)
    ensures Address(bbs, x, env, Access(bbs, y, env, m).loaded) == Address(bbs, x, env, m.loaded)
    ensures Data(bbs, x, env, Access(bbs, y, env, m).loaded) == Data(bbs, x, env, m.loaded)
  {
    hide OperandFed, Value, At, IsRef;
    if IsLoad(At(bbs, y).index) {
      var w := CucExec.Load(At(bbs, y).index, FSigned in At(bbs, y).ty, Address(bbs, y, env, m.loaded), m.mem);
      ValueUnfed(bbs, x, At(bbs, x).a0, env, m.loaded, y, w);
      ValueUnfed(bbs, x, At(bbs, x).a1, env, m.loaded, y, w);
    }
  }

  lemma AccessesCommute(bbs: Blocks, x: int, y: int, env: Env, m: Memory)
    requires IsAccess(bbs, x) && IsAccess(bbs, y) && Independent(bbs, x, y, env)
    ensures Access(bbs, x, env, Access(bbs, y, env, m)) == Access(bbs, y, env, Access(bbs, x, env, m))
  {
    hide Address, Data, At, FedBy;
    AccessUnfed(bbs, x, y, env, m);
    AccessUnfed(bbs, y, x, env, m);
    assert Disjoint(bbs, x, y, env, m.loaded);
    var p, q := At(bbs, x).index, At(bbs, y).index;
    var a, v, b, w := Address(bbs, x, env, m.loaded), MemWidth(p), Address(bbs, y, env, m.loaded), MemWidth(q);
    var u, t := Data(bbs, x, env, m.loaded), Data(bbs, y, env, m.loaded);
    assert Apart(b, w, a, v);
    if IsStore(q) && IsStore(p) {
      PutCommutes(m.mem, a, v, u, b, w, t);
    } else if IsStore(q) {
      ReadPast(m.mem, a, v, b, w, t);
    } else if IsStore(p) {
      ReadPast(m.mem, b, w, a, v, u);
    }
  }

  // ---- When the weak check is right ----

  /** The address of an access and its base, as far as they are references, lead back in the code, so they are values
      of the same pass. */
  predicate AddressBack(bbs: Blocks, r: int)
    requires IsAccess(bbs, r)
  {
    var o := At(bbs, r).a1;
    o.Ref? ==> o.i < r && (At(bbs, o.i).a1.Ref? ==> At(bbs, o.i).a1.i < o.i)
  }

  /** Of two accesses at offsets from one base the weak check tells the truth when it finds a conflict, and otherwise
      exactly when they fit, whatever the base is. */
  lemma WeakCheckExact(bbs: Blocks, x: int, y: int, env: Env, loaded: map<int, Word>)
    requires IsAccess(bbs, x) && IsAccess(bbs, y) && AddressBack(bbs, x) && AddressBack(bbs, y)
    ensures SameBase(bbs, At(bbs, x), At(bbs, y)) && Conflict(bbs, At(bbs, x), At(bbs, y), MoWeak) ==>
      !Disjoint(bbs, x, y, env, loaded)
    ensures !Conflict(bbs, At(bbs, x), At(bbs, y), MoWeak) ==>
      (Disjoint(bbs, x, y, env, loaded) <==> PairFits(bbs, At(bbs, x), At(bbs, y)))
  {
    hide CucExec.Wrap, Apart, Overlap, Fits;
    var a, b := At(bbs, x), At(bbs, y);
    if SameBase(bbs, a, b) {
      var s, u := At(bbs, a.a1.i), At(bbs, b.a1.i);
      var base := Value(bbs, a.a1.i, s.a1, env, loaded);
      assert base == Value(bbs, b.a1.i, u.a1, env, loaded);
      SumAddress(bbs, x, env, loaded);
      SumAddress(bbs, y, env, loaded);
      RangesApart(base, s.a2.w, MemWidth(a.index), u.a2.w, MemWidth(b.index));
    }
  }

  lemma SumAddress(bbs: Blocks, x: int, env: Env, loaded: map<int, Word>)
    requires IsAccess(bbs, x) && AddressBack(bbs, x) && Summed(bbs, At(bbs, x))
    requires At(bbs, At(bbs, x).a1.i).a2.Const?
    ensures
      var d := At(bbs, x).a1.i;
      Address(bbs, x, env, loaded) == CucExec.Wrap(Value(bbs, d, At(bbs, d).a1, env, loaded) + At(bbs, d).a2.w)
  {
    hide CucExec.Wrap;
    var d := At(bbs, x).a1.i;
    assert Value(bbs, d, At(bbs, d).a2, env, loaded) == At(bbs, d).a2.w;
    assert Address(bbs, x, env, loaded) == Result(bbs, d, env, loaded);
  }

  // ---- The schedule does what the program does ----

  function Swap(sched: seq<int>, k: nat): (r: seq<int>)
    requires k + 1 < |sched|
    ensures |r| == |sched|
  {
    sched[k := sched[k + 1]][k + 1 := sched[k]]
  }

  lemma {:induction false} SwapRuns(bbs: Blocks, sched: seq<int>, k: nat, b: nat, env: Env, m: Memory)
    requires AllMem(bbs, sched) && k + 1 < |sched|
    requires RefBb(sched[k]) == b && RefBb(sched[k + 1]) == b ==> Independent(bbs, sched[k], sched[k + 1], env)
    ensures AllMem(bbs, Swap(sched, k)) && RunBlock(bbs, Swap(sched, k), b, env, m) == RunBlock(bbs, sched, b, env, m)
  {
    hide Access, Independent, RefBb;
    var r := Swap(sched, k);
    var n := |sched|;
    if k + 2 < n {
      assert r[..n - 1] == Swap(sched[..n - 1], k);
      SwapRuns(bbs, sched[..n - 1], k, b, env, m);
    } else {
      assert r[..n - 1][..k] == sched[..k] == sched[..n - 1][..k];
      var m' := RunBlock(bbs, sched[..k], b, env, m);
      assert RunBlock(bbs, sched[..n - 1], b, env, m) == if RefBb(sched[k]) == b then Access(bbs, sched[k], env, m')
        else m';
      assert RunBlock(bbs, r[..n - 1], b, env, m) == if RefBb(sched[k + 1]) == b then Access(bbs, sched[k + 1], env, m')
        else m';
      if RefBb(sched[k]) == b && RefBb(sched[k + 1]) == b { AccessesCommute(bbs, sched[k], sched[k + 1], env, m'); }
    }
  }

  lemma {:induction false} MoveUpRuns(bbs: Blocks, sched: seq<int>, i: nat, best: nat, b: nat, env: Env, m: Memory)
    requires AllMem(bbs, sched) && i <= best < |sched|
    requires forall k :: i <= k < best && RefBb(sched[k]) == b && RefBb(sched[best]) == b ==>
      Independent(bbs, sched[k], sched[best], env)
    ensures AllMem(bbs, MoveUp(sched, i, best)) &&
      RunBlock(bbs, MoveUp(sched, i, best), b, env, m) == RunBlock(bbs, sched, b, env, m)
    decreases best
  {
    hide Access, Independent, RefBb, RunBlock;
    if i == best {
      assert MoveUp(sched, i, best) == sched;
    } else {
      var s := Swap(sched, best - 1);
      SwapRuns(bbs, sched, best - 1, b, env, m);
      MoveUpRuns(bbs, s, i, best - 1, b, env, m);
      assert MoveUp(s, i, best - 1) == MoveUp(sched, i, best);
    }
  }

  /** The addresses of the accesses of the block lead back, and any two at offsets from one base fit. */
  ghost predicate BlockFits(bbs: Blocks, sched: seq<int>, b: nat)
    requires AllMem(bbs, sched)
  {
    (forall x :: x in sched && RefBb(x) == b ==> AddressBack(bbs, x)) &&
    forall x, y :: x in sched && y in sched && RefBb(x) == b && RefBb(y) == b ==> PairFits(bbs, At(bbs, x), At(bbs, y))
  }

  /** An access that waits for nothing unscheduled is independent of the accesses it passes. */
  lemma PassedIndependent(bbs: Blocks, flagged: set<int>, x: int, y: int, env: Env)
    requires IsAccess(bbs, x) && IsAccess(bbs, y) && y < x && AddressBack(bbs, x) && AddressBack(bbs, y)
    requires FedComplete(bbs) && DependsOnConflict(bbs, x, y, MoWeak) && y in flagged && !Blocked(bbs, flagged, x)
    requires PairFits(bbs, At(bbs, x), At(bbs, y))
    ensures Independent(bbs, y, x, env)
  {
    hide At, Conflict, Disjoint, PairFits, FedBy, RefBb, RefI, AddressBack;
    assert y !in At(bbs, x).dep;
    if FedBy(bbs, y, x) {
      FedBelow(bbs, y, x);
    }
    forall loaded: map<int, Word>
      ensures Disjoint(bbs, y, x, env, loaded)
    {
      WeakCheckExact(bbs, x, y, env, loaded);
      DisjointSymmetric(bbs, x, y, env, loaded);
    }
  }

  lemma DisjointSymmetric(bbs: Blocks, x: int, y: int, env: Env, loaded: map<int, Word>)
    requires IsAccess(bbs, x) && IsAccess(bbs, y) && Disjoint(bbs, x, y, env, loaded)
    ensures Disjoint(bbs, y, x, env, loaded)
  {
  }

  /** One round of the scheduler swaps only independent accesses. */
  lemma RoundRuns(bbs: Blocks, flagged: set<int>, sched: seq<int>, i: nat, best: nat, b: nat, env: Env, m: Memory)
    requires AllMem(bbs, sched) && i <= best < |sched| && Increasing(sched, i)
    requires DepsComplete(bbs, sched, MoWeak) && FedComplete(bbs) && BlockFits(bbs, sched, b)
    requires Unscheduled(sched, i) <= flagged && (best == i || !Blocked(bbs, flagged, sched[best]))
    ensures AllMem(bbs, MoveUp(sched, i, best)) &&
      RunBlock(bbs, MoveUp(sched, i, best), b, env, m) == RunBlock(bbs, sched, b, env, m)
  {
    hide MoveUp, At, Conflict, Independent, RunBlock, RefBb, PairFits, AddressBack, FedComplete, Blocked;
    forall k | i <= k < best && RefBb(sched[k]) == b && RefBb(sched[best]) == b
      ensures Independent(bbs, sched[k], sched[best], env)
    {
      var x, y := sched[best], sched[k];
      assert y in Unscheduled(sched, i);
      assert DependsOnConflict(bbs, x, y, MoWeak);
      PassedIndependent(bbs, flagged, x, y, env);
    }
    MoveUpRuns(bbs, sched, i, best, b, env, m);
  }

  lemma {:induction false} ScheduleRuns(bbs: Blocks, stale: set<int>, sched: seq<int>, i: nat, b: nat, env: Env,
    m: Memory)
    requires AllMem(bbs, sched) && i <= |sched| && Increasing(sched, i)
    requires DepsComplete(bbs, sched, MoWeak) && FedComplete(bbs) && BlockFits(bbs, sched, b)
    ensures RunBlock(bbs, ScheduleFrom(bbs, stale, sched, i), b, env, m) == RunBlock(bbs, sched, b, env, m)
    decreases |sched| - i
  {
    hide MoveUp, Pick, Increasing, RunBlock, Blocked, Conflict, At, RefBb, PairFits, AddressBack, FedComplete;
    if i < |sched| {
      var flagged := stale + Unscheduled(sched, i);
      var best := Pick(bbs, flagged, sched, i + 1, i);
      var r := MoveUp(sched, i, best);
      MoveUpKeeps(sched, i, best);
      RoundRuns(bbs, flagged, sched, i, best, b, env, m);
      MoveUpPermutes(sched, i, best);
      SameElements(sched, r);
      ScheduleRuns(bbs, stale, r, i + 1, b, env, m);
    }
  }

  // ---- From the function without dependencies to its schedule ----

  /** The function when cuc_optimize schedules its accesses: memory dependencies first, then data dependencies. */
  ghost function Prepared(bbs: Blocks, order: Ordering): Blocks
    requires MemOk(bbs)
  {
    MemoryDepsShape(bbs, order);
    WithDataDeps(WithMemoryDeps(bbs, order))
  }

  ghost predicate SameButDeps(p: Blocks, q: Blocks) {
    |p| == |q| && (forall b :: 0 <= b < |p| ==> |p[b]| == |q[b]|) &&
    forall r :: IsRef(p, r) ==> IsRef(q, r) && At(q, r).(dep := At(p, r).dep) == At(p, r)
  }

  lemma PreparedSame(bbs: Blocks, order: Ordering)
    requires MemOk(bbs)
    ensures SameButDeps(bbs, Prepared(bbs, order)) && SameButDeps(WithMemoryDeps(bbs, order), Prepared(bbs, order))
    ensures forall r, x :: IsRef(bbs, r) && IsRef(Prepared(bbs, order), r) && x in Dependent(bbs, r, order).dep ==>
      x in At(Prepared(bbs, order), r).dep
  {
    hide RefBb, RefI, MakeRef, DataTo, WithMemoryDeps, DataClosed, AddConflicts, MemInsn;
    MemoryDepsShape(bbs, order);
    var p := WithMemoryDeps(bbs, order);
    DataToDone(p, |p|, 0);
  }

  lemma ButDepsShape(p: Blocks, q: Blocks)
    requires SameButDeps(p, q)
    ensures SameShape(p, q)
  {
  }

  /** No conflict and no feeder is missing when the accesses are scheduled. */
  lemma PreparedComplete(bbs: Blocks, order: Ordering)
    requires MemOk(bbs)
    ensures var q := Prepared(bbs, order);
      MemOk(q) && AllMemRefs(q) == AllMemRefs(bbs) && AllMem(q, AllMemRefs(q)) && AllMem(bbs, AllMemRefs(bbs)) &&
      Increasing(AllMemRefs(q), 0) && DepsComplete(q, AllMemRefs(q), order) && FedComplete(q)
  {
    hide RefBb, RefI, MakeRef, MemInsn, WithMemoryDeps, WithDataDeps, MemRefs, FedBy, Conflict, Prepared;
    var p, q := WithMemoryDeps(bbs, order), Prepared(bbs, order);
    PreparedSame(bbs, order);
    ButDepsShape(bbs, q);
    ButDepsShape(p, q);
    ShapeMemOk(bbs, q);
    ShapeMemRefs(bbs, q, |bbs|, 0);
    AccessesListed(bbs);
    AccessesListed(q);
    MemoryDepsComplete(bbs, order);
    MemoryDepsShape(bbs, order);
    PreparedFed(bbs, order);
    forall x, y | x in AllMemRefs(q) && y in AllMemRefs(q) && y < x
      ensures DependsOnConflict(q, x, y, order)
    {
      assert DependsOnConflict(p, x, y, order);
      ShapeConflict(p, q, At(p, x), At(p, y), At(q, x), At(q, y), order);
    }
  }

  lemma PreparedFed(bbs: Blocks, order: Ordering)
    requires MemOk(bbs)
    ensures FedComplete(Prepared(bbs, order))
  {
    MemoryDepsShape(bbs, order);
    FeedersInDeps(WithMemoryDeps(bbs, order));
  }

  // ---- Dependencies do not change what an access does ----

  lemma {:induction false} ValueSame(p: Blocks, q: Blocks, r: int, o: Operand, env: Env, loaded: map<int, Word>)
    requires SameButDeps(p, q) && IsRef(p, r) && IsRef(q, r)
    ensures Value(p, r, o, env, loaded) == Value(q, r, o, env, loaded)
    decreases r, 0
  {
    if o.Ref? && o.i < r && IsRef(p, o.i) {
      ResultSame(p, q, o.i, env, loaded);
    }
  }

  lemma {:induction false} ResultSame(p: Blocks, q: Blocks, r: int, env: Env, loaded: map<int, Word>)
    requires SameButDeps(p, q) && IsRef(p, r) && IsRef(q, r)
    ensures Result(p, r, env, loaded) == Result(q, r, env, loaded)
    decreases r, 1
  {
    hide RefBb, RefI;
    var ins := At(p, r);
    ValueSame(p, q, r, ins.a0, env, loaded);
    ValueSame(p, q, r, ins.a1, env, loaded);
    ValueSame(p, q, r, ins.a2, env, loaded);
    ValueSame(p, q, r, ins.a3, env, loaded);
  }

  lemma {:induction false} RunSame(p: Blocks, q: Blocks, sched: seq<int>, b: nat, env: Env, m: Memory)
    requires SameButDeps(p, q) && AllMem(p, sched) && AllMem(q, sched)
    ensures RunBlock(p, sched, b, env, m) == RunBlock(q, sched, b, env, m)
  {
    hide RefBb, RefI, MemInsn, Value, SameButDeps;
    if sched != [] {
      RunSame(p, q, sched[..|sched| - 1], b, env, m);
      var m' := RunBlock(p, sched[..|sched| - 1], b, env, m);
      AccessSame(p, q, sched[|sched| - 1], env, m');
    }
  }

  lemma AccessSame(p: Blocks, q: Blocks, r: int, env: Env, m: Memory)
    requires SameButDeps(p, q) && IsAccess(p, r) && IsAccess(q, r)
    ensures Access(p, r, env, m) == Access(q, r, env, m)
  {
    hide RefBb, RefI, Value;
    ValueSame(p, q, r, At(p, r).a0, env, m.loaded);
    ValueSame(p, q, r, At(p, r).a1, env, m.loaded);
  }

  lemma FitsSame(p: Blocks, q: Blocks, sched: seq<int>, b: nat)
    requires SameButDeps(p, q) && AllMem(p, sched) && AllMem(q, sched) && BlockFits(p, sched, b)
    ensures BlockFits(q, sched, b)
  {
    hide RefBb, RefI;
    assert forall x :: x in sched ==> IsAccess(p, x) && IsAccess(q, x);
  }

  // ---- What the pass comes to ----

  /** In an execution of block `b` the accesses in the order of `sched` load the same values and leave the same memory
      as in program order. */
  ghost predicate BlockSame(bbs: Blocks, sched: seq<int>, b: nat, env: Env, m: Memory)
    requires AllMem(bbs, AllMemRefs(bbs)) && AllMem(bbs, sched)
  {
    BlockFits(bbs, AllMemRefs(bbs), b) ==> RunBlock(bbs, sched, b, env, m) == RunBlock(bbs, AllMemRefs(bbs), b, env, m)
  }

  /** The order in which cuc_optimize schedules the accesses of a weakly ordered function. */
  ghost function WeakSchedule(bbs: Blocks): (s: seq<int>)
    requires MemOk(bbs)
    ensures AllMem(bbs, s)
  {
    PreparedComplete(bbs, MoWeak);
    PreparedSame(bbs, MoWeak);
    AccessesBack(bbs, Prepared(bbs, MoWeak), Scheduled(Prepared(bbs, MoWeak)));
    Scheduled(Prepared(bbs, MoWeak))
  }

  /** With weak ordering and nothing assumed about the dependencies: the schedule made from those that the two passes
      add changes neither what a block loads nor what it leaves in memory. */
  lemma WeakScheduleRuns(bbs: Blocks, b: nat, env: Env, m: Memory)
    requires MemOk(bbs) && AllMem(bbs, AllMemRefs(bbs))
    ensures BlockSame(bbs, WeakSchedule(bbs), b, env, m)
  {
    hide RefBb, RefI, MemInsn, Prepared, MemRefs, RunBlock, BlockFits, Stale, ScheduleFrom, FedComplete, DepsComplete,
      At;
    hide Increasing, AllMemRefs;
    var q, prog := Prepared(bbs, MoWeak), AllMemRefs(bbs);
    PreparedComplete(bbs, MoWeak);
    PreparedSame(bbs, MoWeak);
    if BlockFits(bbs, prog, b) {
      FitsSame(bbs, q, prog, b);
      ScheduleRuns(q, Stale(q), prog, 0, b, env, m);
      AccessesBack(bbs, q, Scheduled(q));
      RunSame(bbs, q, prog, b, env, m);
      RunSame(bbs, q, Scheduled(q), b, env, m);
    }
  }

  lemma AccessesBack(p: Blocks, q: Blocks, sched: seq<int>)
    requires SameButDeps(p, q) && AllMem(q, sched)
    ensures AllMem(p, sched)
  {
  }

  /** One execution of a block; what it gets from registers and from the pass before may depend on what has been loaded
      and stored. */
  datatype Visit = Visit(block: nat, inputs: Memory -> Env)

  /** The blocks that are executed, one after the other, again and again in a loop. */
  function RunPath(bbs: Blocks, sched: seq<int>, path: seq<Visit>, m: Memory): Memory
    requires AllMem(bbs, sched)
  {
    if path == [] then m
    else
      var m', v := RunPath(bbs, sched, path[..|path| - 1], m), path[|path| - 1];
      RunBlock(bbs, sched, v.block, v.inputs(m'), m')
  }

  /** So every way through blocks whose accesses fit loads the same values and leaves the same memory. */
  lemma {:induction false} WeakPathRuns(bbs: Blocks, path: seq<Visit>, m: Memory)
    requires MemOk(bbs) && AllMem(bbs, AllMemRefs(bbs))
    requires forall v :: v in path ==> BlockFits(bbs, AllMemRefs(bbs), v.block)
    ensures RunPath(bbs, WeakSchedule(bbs), path, m) == RunPath(bbs, AllMemRefs(bbs), path, m)
  {
    hide AllMemRefs, BlockFits, WeakSchedule, RunBlock, AllMem, MemOk;
    if path != [] {
      var v := path[|path| - 1];
      WeakPathRuns(bbs, path[..|path| - 1], m);
      var m' := RunPath(bbs, AllMemRefs(bbs), path[..|path| - 1], m);
      WeakScheduleRuns(bbs, v.block, v.inputs(m'), m');
    }
  }

  // ---- The passes, one after the other ----

  ghost predicate AllSame(bbs: Blocks, sched: seq<int>)
    requires AllMem(bbs, AllMemRefs(bbs)) && AllMem(bbs, sched)
  {
    forall b: nat, env: Env, m: Memory :: BlockSame(bbs, sched, b, env, m)
  }

  lemma PreparedValid(bbs: Blocks, order: Ordering)
    requires MemOk(bbs) && RefsOk(bbs)
    ensures DepsValid(Prepared(bbs, order))
  {
    hide RefBb, RefI, MakeRef, DataTo, WithMemoryDeps, MemInsn, AddConflicts;
    var p := WithMemoryDeps(bbs, order);
    MemoryDepsShape(bbs, order);
    PreparedSame(bbs, order);
    forall r, x | IsRef(p, r) && x in At(p, r).dep
      ensures IsRef(bbs, x)
    {
      DependentValid(bbs, r, x, order);
    }
    forall r, d | IsRef(p, r) && Uses(At(p, r), d)
      ensures IsRef(bbs, d)
    {
      assert RefIn(At(bbs, r), d);
    }
    DataDepsWithin(p, |p|, 0, (r, x) => IsRef(bbs, x));
    var q := Prepared(bbs, order);
    forall r, k | IsRef(q, r) && 0 <= k < |At(q, r).dep|
      ensures IsRef(q, At(q, r).dep[k])
    {
      assert At(q, r).dep[k] in At(DataTo(p, |p|, 0), r).dep;
    }
  }

  lemma DependentValid(bbs: Blocks, r: int, x: int, order: Ordering)
    requires MemOk(bbs) && RefsOk(bbs) && IsRef(bbs, r) && x in Dependent(bbs, r, order).dep
    ensures IsRef(bbs, x)
  {
    hide RefBb, RefI, MakeRef, MemInsn, AddConflicts, MemRefs, Conflict;
    MemRefsInOrder(bbs, RefBb(r), RefI(r));
    if IsMem(At(bbs, r)) {
      var ms := Earlier(bbs, r);
      ConflictsAdded(bbs, At(bbs, r), At(bbs, r).dep, ms, |ms|, order);
    }
    assert x in At(bbs, r).dep ==> RefIn(At(bbs, r), x);
  }

  /** add_memory_dep, add_data_dep and schedule_memory as cuc_optimize calls them: for every order but none, every
      execution of every block whose accesses fit loads the same values and leaves the same memory. */
  method OrderAccesses(f: Func, order: Ordering)
    requires MemOk(f.bb) && RefsOk(f.bb) && |AllMemRefs(f.bb)| <= f.msched.Length
    modifies f, f.msched
    ensures f.nmsched == |AllMemRefs(old(f.bb))| <= f.msched.Length
    ensures multiset(f.msched[..f.nmsched]) == multiset(AllMemRefs(old(f.bb)))
    ensures AllMem(old(f.bb), AllMemRefs(old(f.bb))) && AllMem(old(f.bb), f.msched[..f.nmsched])
    ensures !order.MoNone? ==> AllSame(old(f.bb), f.msched[..f.nmsched])
  {
    hide RefBb, RefI, MakeRef, MemInsn, WithMemoryDeps, WithDataDeps, MemRefs, AllMemRefs, FedComplete, DepsComplete;
    hide DepsValid, RefsOk, MemOk, ScheduleFrom, Flagged, Stale, BlockSame, AllMem, At, Increasing, Extends;
    ghost var was := f.bb;
    AccessesListed(was);
    PreparedComplete(was, order);
    PreparedSame(was, order);
    PreparedValid(was, order);
    MemoryDepsShape(was, order);
    AddMemoryDep(f, order);
    AddDataDep(f);
    assert f.bb == Prepared(was, order);
    Schedule(f, order);
    ghost var q, sched := Prepared(was, order), f.msched[..f.nmsched];
    ScheduledOrder(q);
    if Loose(order) {
      AccessesBack(was, q, Scheduled(q));
    }
    if order.MoWeak? {
      forall b: nat, env: Env, m: Memory
        ensures BlockSame(was, sched, b, env, m)
      {
        WeakScheduleRuns(was, b, env, m);
      }
    } else if !order.MoNone? {
      forall b: nat, env: Env, m: Memory
        ensures BlockSame(was, sched, b, env, m)
      {
        ProgramOrder(was, b, env, m);
      }
    }
  }

  lemma ProgramOrder(bbs: Blocks, b: nat, env: Env, m: Memory)
    requires AllMem(bbs, AllMemRefs(bbs))
    ensures BlockSame(bbs, AllMemRefs(bbs), b, env, m)
  {
  }
}
