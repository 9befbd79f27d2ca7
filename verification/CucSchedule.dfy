/** add_memory_dep and the collecting and reordering part of schedule_memory, on the blocks and the schedule array of
    a function. */
module CucSchedule {
  import opened CucInsn
  import opened CucFunc
  import opened CucMemory

  // ---- Dependencies ----

  /** add_dep. */
  function AddDep(list: seq<int>, d: int): (r: seq<int>)
    ensures forall x :: x in r <==> x in list || x == d
  {
    if d in list then list else list + [d]
  }

  /** The dependencies of `ins` after those of the first `n` accesses of `ms` that conflict with it have been added. */
  function AddConflicts(bbs: Blocks, ins: Insn, dep: seq<int>, ms: seq<int>, n: nat, order: Ordering): (r: seq<int>)
    requires AllMem(bbs, ms) && MemInsn(bbs, ins) && n <= |ms|
  {
    if n == 0 then dep
    else
      var d := AddConflicts(bbs, ins, dep, ms, n - 1, order);
      if Conflict(bbs, ins, At(bbs, ms[n - 1]), order) then AddDep(d, ms[n - 1]) else d
  }

  /** Exactly the conflicting accesses are added. */
  lemma {:induction false} ConflictsAdded(bbs: Blocks, ins: Insn, dep: seq<int>, ms: seq<int>, n: nat, order: Ordering)
    requires AllMem(bbs, ms) && MemInsn(bbs, ins) && n <= |ms|
    ensures forall y :: y in AddConflicts(bbs, ins, dep, ms, n, order) <==>
      y in dep || (y in ms[..n] && Conflict(bbs, ins, At(bbs, y), order))
  {
    hide Conflict, At, MemInsn, IsRef;
    if n > 0 {
      ConflictsAdded(bbs, ins, dep, ms, n - 1, order);
      assert ms[..n] == ms[..n - 1] + [ms[n - 1]];
    }
  }

  /** The accesses before `r` in program order. */
  function Earlier(bbs: Blocks, r: int): seq<int>
    requires IsRef(bbs, r)
  {
    MemRefs(bbs, RefBb(r), RefI(r))
  }

  /** Instruction `r` with its memory dependencies. */
  function Dependent(bbs: Blocks, r: int, order: Ordering): (q: Insn)
    requires MemOk(bbs)
  {
    if IsRef(bbs, r) && IsMem(At(bbs, r)) then
      MemRefsInOrder(bbs, RefBb(r), RefI(r));
      var ms := Earlier(bbs, r);
      At(bbs, r).(dep := AddConflicts(bbs, At(bbs, r), At(bbs, r).dep, ms, |ms|, order))
    else if IsRef(bbs, r) then At(bbs, r)
    else NOP_INSN
  }

  ghost function WithMemoryDeps(bbs: Blocks, order: Ordering): (q: Blocks)
    requires MemOk(bbs)
  {
    Rebuild(bbs, r => if MemOk(bbs) then Dependent(bbs, r, order) else NOP_INSN)
  }

  /** Instructions that differ in nothing but their dependencies and marks. */
  predicate SameInsn(a: Insn, b: Insn) { a.(ty := b.ty, dep := b.dep) == b && (IsMem(a) <==> IsMem(b)) }

  ghost predicate SameShape(p: Blocks, q: Blocks) {
    |p| == |q| && (forall b :: 0 <= b < |p| ==> |p[b]| == |q[b]|) &&
    forall r :: IsRef(p, r) ==> SameInsn(At(p, r), At(q, r))
  }

  lemma ShapeConflict(p: Blocks, q: Blocks, a: Insn, b: Insn, a': Insn, b': Insn, order: Ordering)
    requires SameShape(p, q) && SameInsn(a, a') && SameInsn(b, b')
    ensures MemInsn(p, a) <==> MemInsn(q, a')
    ensures MemInsn(p, b) <==> MemInsn(q, b')
    ensures MemInsn(p, a) && MemInsn(p, b) ==>
      (Conflict(p, a, b, order) <==> Conflict(q, a', b', order)) && (Before(p, a, b) <==> Before(q, a', b'))
  {
  }

  lemma ShapeRefs(p: Blocks, q: Blocks)
    requires SameShape(p, q)
    ensures forall r :: IsRef(p, r) <==> IsRef(q, r)
  {
  }

  lemma ShapeMemOk(p: Blocks, q: Blocks)
    requires SameShape(p, q)
    ensures MemOk(p) ==> MemOk(q)
  {
  }

  /** The same instructions are memory instructions. */
  lemma {:induction false} ShapeMemRefs(p: Blocks, q: Blocks, b: nat, i: nat)
    requires SameShape(p, q) && Sized(p) && b <= |p| && (b < |p| ==> i <= |p[b]|) && (b == |p| ==> i == 0)
    ensures MemRefs(p, b, i) == MemRefs(q, b, i)
    decreases b, i
  {
    hide RefBb, RefI, MakeRef;
    if i > 0 {
      RefRoundTrip(b, i - 1, b, i - 1);
      assert At(p, MakeRef(b, i - 1)) == p[b][i - 1] && At(q, MakeRef(b, i - 1)) == q[b][i - 1];
      ShapeMemRefs(p, q, b, i - 1);
    } else if b > 0 {
      ShapeMemRefs(p, q, b - 1, |p[b - 1]|);
    }
  }

  /** Adding memory dependencies changes nothing else. */
  lemma MemoryDepsShape(bbs: Blocks, order: Ordering)
    requires MemOk(bbs)
    ensures var q := WithMemoryDeps(bbs, order);
      MemOk(q) && SameShape(bbs, q) && AllMemRefs(q) == AllMemRefs(bbs) && AllMem(q, AllMemRefs(q))
    ensures forall r :: IsRef(bbs, r) ==> At(WithMemoryDeps(bbs, order), r) == Dependent(bbs, r, order)
  {
    hide MemRefs, Conflict, RefBb, RefI, MakeRef, MemInsn, AddConflicts, Rebuild;
    var q := WithMemoryDeps(bbs, order);
    RebuiltAt(bbs, r => if MemOk(bbs) then Dependent(bbs, r, order) else NOP_INSN);
    assert SameShape(bbs, q);
    ShapeMemOk(bbs, q);
    ShapeMemRefs(bbs, q, |bbs|, 0);
    MemRefsInOrder(q, |q|, 0);
  }

  /** `y` is an earlier access that `r` conflicts with. */
  ghost predicate ConflictsEarlier(bbs: Blocks, r: int, y: int, order: Ordering)
    requires MemOk(bbs) && IsRef(bbs, r) && IsRef(bbs, y)
  {
    y < r && IsMem(At(bbs, r)) && IsMem(At(bbs, y)) && Conflict(bbs, At(bbs, r), At(bbs, y), order)
  }

  /** It adds exactly the earlier accesses that conflict, so no conflict is left out. */
  lemma MemoryDepsComplete(bbs: Blocks, order: Ordering)
    requires MemOk(bbs)
    ensures forall r :: IsRef(bbs, r) ==> IsRef(WithMemoryDeps(bbs, order), r)
    ensures forall r, y :: IsRef(bbs, r) && IsRef(bbs, y) ==>
      (y in At(WithMemoryDeps(bbs, order), r).dep <==> y in At(bbs, r).dep || ConflictsEarlier(bbs, r, y, order))
    ensures AllMem(WithMemoryDeps(bbs, order), AllMemRefs(bbs)) &&
      DepsComplete(WithMemoryDeps(bbs, order), AllMemRefs(bbs), order)
  {
    hide MemRefs, Conflict, RefBb, RefI, MakeRef, MemInsn, AddConflicts, Rebuild, WithMemoryDeps, Dependent;
    var q := WithMemoryDeps(bbs, order);
    MemoryDepsShape(bbs, order);
    ShapeRefs(bbs, q);
    MemRefsInOrder(bbs, |bbs|, 0);
    forall r, y | IsRef(bbs, r) && IsRef(bbs, y)
      ensures y in At(q, r).dep <==> y in At(bbs, r).dep || ConflictsEarlier(bbs, r, y, order)
    {
      DependentDeps(bbs, r, y, order);
    }
    forall x, y | x in AllMemRefs(bbs) && y in AllMemRefs(bbs) && y < x
      ensures DependsOnConflict(q, x, y, order)
    {
      ShapeAt(bbs, q, x);
      ShapeAt(bbs, q, y);
      ShapeConflict(bbs, q, At(bbs, x), At(bbs, y), At(q, x), At(q, y), order);
    }
  }

  lemma DependentDeps(bbs: Blocks, r: int, y: int, order: Ordering)
    requires MemOk(bbs) && IsRef(bbs, r) && IsRef(bbs, y)
    ensures y in Dependent(bbs, r, order).dep <==> y in At(bbs, r).dep || ConflictsEarlier(bbs, r, y, order)
  {
    hide MemRefs, Conflict, MemInsn, AddConflicts;
    MemRefsInOrder(bbs, RefBb(r), RefI(r));
    RefUnpacked(r);
    if IsMem(At(bbs, r)) {
      var ms := Earlier(bbs, r);
      ConflictsAdded(bbs, At(bbs, r), At(bbs, r).dep, ms, |ms|, order);
      assert ms[..|ms|] == ms;
    }
  }

  /** The instructions before `limit` have their memory dependencies. */
  ghost predicate AddedTo(was: Blocks, now: Blocks, limit: int, order: Ordering)
    requires MemOk(was)
  {
    |now| == |was| && (forall b :: 0 <= b < |was| ==> |now[b]| == |was[b]|) &&
    forall r :: IsRef(was, r) ==> IsRef(now, r) && At(now, r) == if r < limit then Dependent(was, r, order)
      else At(was, r)
  }

  lemma {:induction false} ShapeAddConflicts(p: Blocks, q: Blocks, ins: Insn, dep: seq<int>, ms: seq<int>, n: nat,
    order: Ordering)
    requires SameShape(p, q) && AllMem(p, ms) && AllMem(q, ms) && MemInsn(p, ins) && MemInsn(q, ins) && n <= |ms|
    ensures AddConflicts(p, ins, dep, ms, n, order) == AddConflicts(q, ins, dep, ms, n, order)
  {
    hide Conflict, At, MemInsn, IsRef, SameShape;
    if n > 0 {
      ShapeAddConflicts(p, q, ins, dep, ms, n - 1, order);
      ShapeAt(p, q, ms[n - 1]);
      ShapeConflict(p, q, ins, At(p, ms[n - 1]), ins, At(q, ms[n - 1]), order);
    }
  }

  lemma ShapeAt(p: Blocks, q: Blocks, r: int)
    requires SameShape(p, q) && IsRef(p, r)
    ensures IsRef(q, r) && SameInsn(At(p, r), At(q, r))
  {
  }

  /** What adding to one instruction starts from. */
  lemma BeforeOne(was: Blocks, now: Blocks, b: nat, i: nat, order: Ordering)
    requires MemOk(was) && b < |was| && i < |was[b]| && AddedTo(was, now, MakeRef(b, i), order)
    ensures var r := MakeRef(b, i);
      IsRef(was, r) && IsRef(now, r) && At(now, r) == At(was, r) == was[b][i] && RefBb(r) == b && RefI(r) == i &&
      AllMem(now, MemRefs(was, b, i)) && (IsMem(At(was, r)) ==> MemInsn(now, At(now, r))) && SameShape(was, now)
  {
    hide MemRefs, Conflict, MemInsn, AddConflicts;
    var r := MakeRef(b, i);
    RefRoundTrip(b, i, b, i);
    MemRefsInOrder(was, b, i);
    assert SameShape(was, now);
    ShapeMemOk(was, now);
    var ms := MemRefs(was, b, i);
    forall k | 0 <= k < |ms|
      ensures IsAccess(now, ms[k])
    {
      assert ms[k] in ms;
      ShapeAt(was, now, ms[k]);
    }
  }

  /** What it ends with. */
  lemma AfterOne(was: Blocks, now: Blocks, b: nat, i: nat, order: Ordering)
    requires MemOk(was) && b < |was| && i < |was[b]| && AddedTo(was, now, MakeRef(b, i), order)
    ensures
      var r, ms := MakeRef(b, i), MemRefs(was, b, i);
      IsRef(now, r) && IsRef(was, r) &&
      (IsMem(At(was, r)) ==> (AllMem(now, ms) && MemInsn(now, At(now, r)) &&
        AddedTo(was, Put(now, r, At(now, r).(dep := AddConflicts(now, At(now, r), At(now, r).dep, ms, |ms|, order))),
          MakeRef(b, i + 1), order))) &&
      (!IsMem(At(was, r)) ==> AddedTo(was, now, MakeRef(b, i + 1), order))
    ensures
      var r, ms := MakeRef(b, i), MemRefs(was, b, i);
      MemRefs(was, b, i + 1) == (if IsMem(At(was, r)) then AddDep(ms, r) else ms)
  {
    hide Conflict, MemInsn, AddConflicts, MakeRef, RefBb, RefI;
    var r, ms := MakeRef(b, i), MemRefs(was, b, i);
    BeforeOne(was, now, b, i, order);
    MemRefsInOrder(was, b, i);
    forall x | IsRef(was, x)
      ensures x < MakeRef(b, i + 1) <==> x < r || x == r
    {
      RefRoundTrip(b, i, b, i + 1);
      if r <= x < MakeRef(b, i + 1) { NextRef(b, i, x); }
    }
    if IsMem(At(was, r)) {
      assert AllMem(was, ms);
      assert SameInsn(At(was, r), At(was, r));
      ShapeAddConflicts(was, now, At(was, r), At(was, r).dep, ms, |ms|, order);
      assert Dependent(was, r, order) ==
        At(now, r).(dep := AddConflicts(now, At(now, r), At(now, r).dep, ms, |ms|, order));
    }
  }

  /** There is no instruction between the end of a block and the start of the next. */
  lemma NextBlock(was: Blocks, now: Blocks, b: nat, order: Ordering)
    requires MemOk(was) && b < |was| && AddedTo(was, now, MakeRef(b, |was[b]|), order)
    ensures AddedTo(was, now, MakeRef(b + 1, 0), order) && MemRefs(was, b + 1, 0) == MemRefs(was, b, |was[b]|)
  {
    hide Conflict, MemInsn, AddConflicts, MakeRef, RefBb, RefI, Dependent;
    forall x | IsRef(was, x)
      ensures x < MakeRef(b + 1, 0) <==> x < MakeRef(b, |was[b]|)
    {
      RefUnpacked(x);
      RefRoundTrip(RefBb(x), RefI(x), b + 1, 0);
      RefRoundTrip(RefBb(x), RefI(x), b, |was[b]|);
    }
  }

  lemma AddedNone(was: Blocks, order: Ordering)
    requires MemOk(was)
    ensures AddedTo(was, was, MakeRef(0, 0), order) && MemRefs(was, 0, 0) == []
  {
  }

  lemma AddedSizes(was: Blocks, now: Blocks, limit: int, order: Ordering)
    requires MemOk(was) && AddedTo(was, now, limit, order)
    ensures |now| == |was| && forall b :: 0 <= b < |was| ==> |now[b]| == |was[b]|
  {
  }

  lemma AddedAll(was: Blocks, now: Blocks, order: Ordering)
    requires MemOk(was) && AddedTo(was, now, MakeRef(|was|, 0), order)
    ensures now == WithMemoryDeps(was, order)
  {
    hide Conflict, MemInsn, AddConflicts, MakeRef, RefBb, RefI, Dependent, Rebuild;
    var g := r => if MemOk(was) then Dependent(was, r, order) else NOP_INSN;
    RebuiltAt(was, g);
    forall x | IsRef(was, x)
      ensures x < MakeRef(|was|, 0)
    {
      RefUnpacked(x);
      RefRoundTrip(RefBb(x), RefI(x), |was|, 0);
    }
    SameBlocks(WithMemoryDeps(was, order), now);
  }

  // ---- Marks ----

  /** Accesses may be reordered. */
  predicate Loose(order: Ordering) { order.MoNone? || order.MoWeak? }

  ghost predicate DepsValid(bbs: Blocks) {
    forall r, k :: IsRef(bbs, r) && 0 <= k < |At(bbs, r).dep| ==> IsRef(bbs, At(bbs, r).dep[k])
  }

  ghost function Elements(s: seq<int>): set<int> { set x | x in s }

  /** Instructions that are no memory access but carry the mark. */
  ghost function Stale(bbs: Blocks): set<int> { FlagSet(FFlag1, bbs) - Elements(AllMemRefs(bbs)) }

  /** The schedule for an order that may be changed. */
  ghost function Scheduled(bbs: Blocks): seq<int>
    requires AllMem(bbs, AllMemRefs(bbs))
  {
    ScheduleFrom(bbs, Stale(bbs), AllMemRefs(bbs), 0)
  }

  lemma FlaggedShape(bbs: Blocks, flagged: set<int>)
    ensures SameShape(bbs, Flagged(FFlag1, bbs, flagged))
  {
    hide RefBb, RefI, Flagged;
    FlaggedAt(FFlag1, bbs, flagged);
  }

  lemma FlaggedBefore(bbs: Blocks, flagged: set<int>, x: int, y: int)
    requires IsAccess(bbs, x) && IsAccess(bbs, y)
    ensures var q := Flagged(FFlag1, bbs, flagged);
      IsAccess(q, x) && IsAccess(q, y) && (Before(q, At(q, x), At(q, y)) <==> Before(bbs, At(bbs, x), At(bbs, y)))
  {
    hide RefBb, RefI, Flagged, Before, MemInsn;
    FlaggedShape(bbs, flagged);
    FlaggedAt(FFlag1, bbs, flagged);
    var q := Flagged(FFlag1, bbs, flagged);
    ShapeConflict(bbs, q, At(bbs, x), At(bbs, y), At(q, x), At(q, y), MoNone);
  }

  ghost function Marked(was: Blocks, b: nat, i: nat, order: Ordering): set<int>
    requires b <= |was| && (b < |was| ==> i <= |was[b]|) && (b == |was| ==> i == 0)
  {
    if Loose(order) then Elements(MemRefs(was, b, i)) else {}
  }

  lemma MemRefsStart(bbs: Blocks)
    ensures MemRefs(bbs, 0, 0) == []
  {
  }

  lemma MemRefsNext(bbs: Blocks, b: nat)
    requires b < |bbs|
    ensures MemRefs(bbs, b + 1, 0) == MemRefs(bbs, b, |bbs[b]|)
  {
  }

  /** The list only grows. */
  lemma {:induction false} MemRefsBound(bbs: Blocks, b: nat, i: nat)
    requires b < |bbs| && i <= |bbs[b]|
    ensures |MemRefs(bbs, b, i)| <= |AllMemRefs(bbs)|
    decreases |bbs| - b, |bbs[b]| - i
  {
    if i < |bbs[b]| {
      MemRefsBound(bbs, b, i + 1);
    } else if b + 1 < |bbs| {
      MemRefsBound(bbs, b + 1, 0);
    }
  }

  lemma MarkedNext(bbs: Blocks, b: nat, i: nat, order: Ordering, flags: set<int>)
    requires Sized(bbs) && b < |bbs| && i < |bbs[b]|
    ensures var r := MakeRef(b, i);
      if IsMem(At(bbs, r)) then
        MemRefs(bbs, b, i + 1) == MemRefs(bbs, b, i) + [r] &&
        flags + Marked(bbs, b, i + 1, order) ==
          (if Loose(order) then flags + Marked(bbs, b, i, order) + {r} else flags + Marked(bbs, b, i, order))
      else
        MemRefs(bbs, b, i + 1) == MemRefs(bbs, b, i) &&
        flags + Marked(bbs, b, i + 1, order) == flags + Marked(bbs, b, i, order)
  {
  }

  /** What one round of the scheduler does to the marks. */
  lemma SettleOne(s: seq<int>, i: nat, best: nat, stale: set<int>)
    requires i <= best < |s| && Increasing(s, i) && forall k :: 0 <= k < |s| ==> s[k] !in stale
    ensures var r := MoveUp(s, i, best);
      (stale + Unscheduled(s, i)) - {s[best]} == stale + Unscheduled(r, i + 1) && r[i] == s[best] &&
      forall k :: 0 <= k < |r| ==> r[k] !in stale
  {
    hide MoveUp;
    var r := MoveUp(s, i, best);
    forall k | 0 <= k < i ensures r[k] == s[k] { assert r[..i][k] == s[..i][k]; }
    forall x
      ensures x in Unscheduled(r, i + 1) <==> x in Unscheduled(s, i) && x != s[best]
    {
      if x in Unscheduled(s, i) && x != s[best] {
        var k :| i <= k < |s| && s[k] == x;
        assert r[if k < best then k + 1 else k] == x;
      }
    }
  }

  /** The accesses of the function in program order. */
  lemma AccessesListed(bbs: Blocks)
    requires MemOk(bbs)
    ensures Sized(bbs) && AllMem(bbs, AllMemRefs(bbs)) && Increasing(AllMemRefs(bbs), 0)
    ensures forall x :: x in AllMemRefs(bbs) <==> IsRef(bbs, x) && IsMem(At(bbs, x))
  {
    hide RefBb, RefI, MakeRef, MemInsn, MemRefs;
    MemRefsInOrder(bbs, |bbs|, 0);
    forall x | IsRef(bbs, x)
      ensures x < MakeRef(|bbs|, 0)
    {
      RefUnpacked(x);
      RefRoundTrip(RefBb(x), RefI(x), |bbs|, 0);
    }
  }

  lemma AllSettled(stale: set<int>, s: seq<int>)
    ensures stale + Unscheduled(s, |s|) == stale
  {
  }

  lemma StaleStart(bbs: Blocks)
    ensures FlagSet(FFlag1, bbs) + Elements(AllMemRefs(bbs)) == Stale(bbs) + Unscheduled(AllMemRefs(bbs), 0)
    ensures forall k :: 0 <= k < |AllMemRefs(bbs)| ==> AllMemRefs(bbs)[k] !in Stale(bbs)
  {
  }

  /** The scheduler's order is a permutation that leaves every place with its block, and no access comes before an
      earlier one it depends on. */
  lemma ScheduledOrder(bbs: Blocks)
    requires MemOk(bbs) && AllMem(bbs, AllMemRefs(bbs))
    ensures var prog, sched := AllMemRefs(bbs), Scheduled(bbs);
      |sched| == |prog| && multiset(sched) == multiset(prog) && Extends(bbs, sched, |sched|) &&
      forall k :: 0 <= k < |prog| ==> RefBb(sched[k]) == RefBb(prog[k])
  {
    hide MemRefs, RefBb, RefI, MemInsn, Increasing, AllMemRefs, Stale, At;
    AccessesListed(bbs);
    var prog, stale := AllMemRefs(bbs), Stale(bbs);
    SchedulePermutes(bbs, stale, prog, 0);
    ScheduleExtends(bbs, stale, prog, 0);
    forall k | 0 <= k < |prog|
      ensures RefBb(Scheduled(bbs)[k]) == RefBb(prog[k])
    {
      ScheduleKeepsBlocks(bbs, stale, prog, 0, k);
    }
  }

  /** The dependencies of `r` on the accesses in `allMem`. */
  method AddDeps(f: Func, r: int, allMem: seq<int>, order: Ordering)
    requires IsRef(f.bb, r) && AllMem(f.bb, allMem) && MemInsn(f.bb, At(f.bb, r))
    modifies f`bb
    ensures f.bb == Put(old(f.bb), r,
      At(old(f.bb), r).(dep := AddConflicts(old(f.bb), At(old(f.bb), r), At(old(f.bb), r).dep, allMem, |allMem|,
      order)))
  {
    hide Conflict, RefBb, RefI, MemInsn, Put;
    ghost var was := f.bb;
    PutSame(f.bb, r);
    for t := 0 to |allMem|
      invariant f.bb == Put(was, r, At(was, r).(dep := AddConflicts(was, At(was, r), At(was, r).dep, allMem, t, order)))
    {
      ghost var dep := AddConflicts(was, At(was, r), At(was, r).dep, allMem, t, order);
      assert SameShape(was, f.bb);
      assert IsAccess(was, allMem[t]);
      ShapeConflict(was, f.bb, At(was, r), At(was, allMem[t]), At(f.bb, r), At(f.bb, allMem[t]), order);
      PutTwice(was, r, At(f.bb, r), At(f.bb, r).(dep := AddDep(dep, allMem[t])));
      if Conflict(f.bb, At(f.bb, r), At(f.bb, allMem[t]), order) {
        f.SetInsn(r, At(f.bb, r).(dep := AddDep(At(f.bb, r).dep, allMem[t])));
      }
    }
  }

  /** One instruction of the walk. */
  method AddOne(f: Func, ghost was: Blocks, b: nat, i: nat, allMem: seq<int>,
    order: Ordering) returns (allMem': seq<int>)
    requires MemOk(was) && b < |was| && i < |was[b]| && AddedTo(was, f.bb, MakeRef(b, i), order) &&
      allMem == MemRefs(was, b, i)
    modifies f`bb
    ensures AddedTo(was, f.bb, MakeRef(b, i + 1), order) && allMem' == MemRefs(was, b, i + 1)
  {
    hide MemRefs, Conflict, RefBb, RefI, MemInsn, MakeRef, AddConflicts, Dependent, Put, AddedTo, AllMem;
    var r := MakeRef(b, i);
    BeforeOne(was, f.bb, b, i, order);
    allMem' := allMem;
    if IsMem(At(f.bb, r)) {
      AddDeps(f, r, allMem, order);
      allMem' := AddDep(allMem, r);
    }
    AfterOne(was, old(f.bb), b, i, order);
  }

  /** add_memory_dep. */
  method AddMemoryDep(f: Func, order: Ordering)
    requires MemOk(f.bb)
    modifies f`bb
    ensures f.bb == WithMemoryDeps(old(f.bb), order)
  {
    hide MemRefs, Conflict, RefBb, RefI, MemInsn, MakeRef, AddConflicts, Dependent, Rebuild, AddedTo;
    ghost var was := f.bb;
    var allMem := [];
    AddedNone(was, order);
    for b := 0 to |f.bb|
      invariant AddedTo(was, f.bb, MakeRef(b, 0), order) && allMem == MemRefs(was, b, 0)
    {
      AddedSizes(was, f.bb, MakeRef(b, 0), order);
      for i := 0 to |f.bb[b]|
        invariant AddedTo(was, f.bb, MakeRef(b, i), order) && allMem == MemRefs(was, b, i)
      {
        allMem := AddOne(f, was, b, i, allMem, order);
      }
      NextBlock(was, f.bb, b, order);
    }
    AddedAll(was, f.bb, order);
  }

  /** Is something that `r` depends on still marked as unscheduled? */
  method IsBlocked(f: Func, r: int, ghost was: Blocks, ghost flagged: set<int>) returns (blocked: bool)
    requires IsRef(was, r) && DepsValid(was) && f.bb == Flagged(FFlag1, was, flagged)
    ensures blocked == Blocked(was, flagged, r)
  {
    hide RefBb, RefI, Flagged;
    FlaggedAt(FFlag1, was, flagged);
    var dep := At(f.bb, r).dep;
    assert dep == At(was, r).dep;
    blocked := false;
    for k := 0 to |dep|
      invariant forall j :: 0 <= j < k ==> dep[j] !in flagged
    {
      assert IsRef(was, dep[k]);
      if FFlag1 in At(f.bb, dep[k]).ty {
        return true;
      }
    }
  }

  /** The scan for the access to schedule in place `i`. */
  method PickBest(f: Func, i: nat, ghost was: Blocks, ghost flagged: set<int>) returns (best: nat)
    requires i < f.nmsched <= f.msched.Length && AllMem(was, f.msched[..f.nmsched])
    requires DepsValid(was) && f.bb == Flagged(FFlag1, was, flagged)
    ensures best == Pick(was, flagged, f.msched[..f.nmsched], i + 1, i)
  {
    hide RefBb, RefI, Flagged, Before, Blocked, MemInsn;
    ghost var s := f.msched[..f.nmsched];
    best := i;
    for j := i + 1 to f.nmsched
      invariant best < j && Pick(was, flagged, s, j, best) == Pick(was, flagged, s, i + 1, i)
    {
      assert IsAccess(was, s[j]) && IsAccess(was, s[best]);
      FlaggedBefore(was, flagged, s[j], s[best]);
      var x, y := f.msched[j], f.msched[best];
      if RefBb(x) == RefBb(y) && Before(f.bb, At(f.bb, x), At(f.bb, y)) {
        var blocked := IsBlocked(f, x, was, flagged);
        if !blocked {
          best := j;
        }
      }
    }
  }

  /** The access at `best` moves to `i` and those in between make room. */
  method Shift(f: Func, i: nat, best: nat)
    requires i <= best < f.nmsched <= f.msched.Length
    modifies f.msched
    ensures f.msched[..f.nmsched] == MoveUp(old(f.msched[..f.nmsched]), i, best)
  {
    var tmp := f.msched[best];
    var j := best;
    while j > i
      invariant i <= j <= best
      invariant forall k :: 0 <= k < f.nmsched ==> f.msched[k] == if j < k <= best then old(f.msched[k - 1])
        else old(f.msched[k])
    {
      f.msched[j] := f.msched[j - 1];
      j := j - 1;
    }
    f.msched[i] := tmp;
    ghost var r, was := f.msched[..f.nmsched], old(f.msched[..f.nmsched]);
    assert forall k :: 0 <= k < i ==> MoveUp(was, i, best)[..i][k] == was[k];
    assert forall k :: 0 <= k < f.nmsched ==> r[k] == MoveUp(was, i, best)[k];
  }

  /** The accesses in program order; with an order that may be changed each is marked as unscheduled. */
  method Collect(f: Func, order: Ordering)
    requires MemOk(f.bb) && |AllMemRefs(f.bb)| <= f.msched.Length
    modifies f, f.msched
    ensures f.nmsched == |AllMemRefs(old(f.bb))| && f.msched[..f.nmsched] == AllMemRefs(old(f.bb))
    ensures f.bb == Flagged(FFlag1, old(f.bb), FlagSet(FFlag1, old(f.bb)) + if Loose(order) then
      Elements(AllMemRefs(old(f.bb))) else {})
  {
    hide RefBb, RefI, MakeRef, Put, Flagged, MemRefs, MemInsn;
    ghost var was, flags := f.bb, FlagSet(FFlag1, f.bb);
    FlaggedSame(FFlag1, was);
    f.nmsched := 0;
    MemRefsStart(was);
    assert flags + Marked(was, 0, 0, order) == flags;
    for b := 0 to |f.bb|
      invariant |f.bb| == |was| && Collected(f, was, b, 0, order, flags)
    {
      FlaggedSizes(FFlag1, was, flags + Marked(was, b, 0, order));
      for i := 0 to |f.bb[b]|
        invariant |f.bb| == |was| && |f.bb[b]| == |was[b]| && Collected(f, was, b, i, order, flags)
      {
        CollectOne(f, b, i, order, was, flags);
        FlaggedSizes(FFlag1, was, flags + Marked(was, b, i + 1, order));
      }
      MemRefsNext(was, b);
    }
  }

  ghost predicate Collected(f: Func, was: Blocks, b: nat, i: nat, order: Ordering, flags: set<int>)
    requires b <= |was| && (b < |was| ==> i <= |was[b]|) && (b == |was| ==> i == 0)
    reads f, f.msched
  {
    f.nmsched <= f.msched.Length && f.msched[..f.nmsched] == MemRefs(was, b, i) &&
      f.bb == Flagged(FFlag1, was, flags + Marked(was, b, i, order))
  }

  method CollectOne(f: Func, b: nat, i: nat, order: Ordering, ghost was: Blocks, ghost flags: set<int>)
    requires MemOk(was) && |AllMemRefs(was)| <= f.msched.Length && b < |was| && i < |was[b]| &&
      Collected(f, was, b, i, order, flags)
    modifies f, f.msched
    ensures Collected(f, was, b, i + 1, order, flags)
  {
    hide RefBb, RefI, MakeRef, Put, Flagged, MemInsn, Marked, MemRefs;
    var r := MakeRef(b, i);
    RefRoundTrip(b, i, b, i);
    FlaggedAt(FFlag1, was, flags + Marked(was, b, i, order));
    MemRefsBound(was, b, i + 1);
    MarkedNext(was, b, i, order, flags);
    if IsMem(At(f.bb, r)) {
      f.msched[f.nmsched] := r;
      f.nmsched := f.nmsched + 1;
      if Loose(order) {
        Mark(f, FFlag1, r, true, was, flags + Marked(was, b, i, order));
      }
    }
  }

  /** One place of the schedule is settled. */
  method Round(f: Func, i: nat, ghost was: Blocks, ghost stale: set<int>)
    requires MemOk(was) && DepsValid(was) && i < f.nmsched <= f.msched.Length && AllMem(was, f.msched[..f.nmsched])
    requires Increasing(f.msched[..f.nmsched], i) && (forall k :: 0 <= k < f.nmsched ==> f.msched[k] !in stale)
    requires f.bb == Flagged(FFlag1, was, stale + Unscheduled(f.msched[..f.nmsched], i))
    modifies f`bb, f.msched
    ensures AllMem(was, f.msched[..f.nmsched]) && Increasing(f.msched[..f.nmsched], i + 1) &&
      (forall k :: 0 <= k < f.nmsched ==> f.msched[k] !in stale)
    ensures f.bb == Flagged(FFlag1, was, stale + Unscheduled(f.msched[..f.nmsched], i + 1))
    ensures ScheduleFrom(was, stale, f.msched[..f.nmsched], i + 1) ==
      old(ScheduleFrom(was, stale, f.msched[..f.nmsched], i))
  {
    hide RefBb, RefI, MakeRef, Flagged, MemInsn, At, MoveUp, Pick, Increasing, Unscheduled;
    ghost var s := f.msched[..f.nmsched];
    ghost var flagged := stale + Unscheduled(s, i);
    var best := PickBest(f, i, was, flagged);
    assert IsAccess(was, s[i]);
    MoveUpKeeps(s, i, best);
    Shift(f, i, best);
    SettleOne(s, i, best, stale);
    assert f.msched[i] == f.msched[..f.nmsched][i] == s[best];
    assert forall k :: 0 <= k < f.nmsched ==> f.msched[k] == f.msched[..f.nmsched][k];
    Mark(f, FFlag1, f.msched[i], false, was, flagged);
  }

  /** The collecting and reordering part of schedule_memory. */
  method Schedule(f: Func, order: Ordering)
    requires MemOk(f.bb) && DepsValid(f.bb) && |AllMemRefs(f.bb)| <= f.msched.Length
    modifies f, f.msched
    ensures f.nmsched == |AllMemRefs(old(f.bb))| && AllMem(old(f.bb), AllMemRefs(old(f.bb)))
    ensures !Loose(order) ==> f.msched[..f.nmsched] == AllMemRefs(old(f.bb)) && f.bb == old(f.bb)
    ensures Loose(order) ==> f.msched[..f.nmsched] == Scheduled(old(f.bb))
    ensures Loose(order) ==> f.bb == Flagged(FFlag1, old(f.bb), Stale(old(f.bb)))
  {
    hide RefBb, RefI, MakeRef, Flagged, MemInsn, At, MoveUp, Pick, Increasing, MemRefs, Sized, FlagSet, Stale,
      Unscheduled, AllMemRefs, IsAccess, MemOk;
    ghost var was, stale := f.bb, Stale(f.bb);
    AccessesListed(was);
    Collect(f, order);
    if Loose(order) {
      ghost var s0 := AllMemRefs(was);
      StaleStart(was);
      for i := 0 to f.nmsched
        invariant f.nmsched == |s0| && AllMem(was, f.msched[..f.nmsched]) && Increasing(f.msched[..f.nmsched], i)
        invariant forall k :: 0 <= k < f.nmsched ==> f.msched[k] !in stale
        invariant f.bb == Flagged(FFlag1, was, stale + Unscheduled(f.msched[..f.nmsched], i))
        invariant ScheduleFrom(was, stale, f.msched[..f.nmsched], i) == ScheduleFrom(was, stale, s0, 0)
      {
        Round(f, i, was, stale);
      }
      AllSettled(stale, f.msched[..f.nmsched]);
    } else {
      FlaggedSame(FFlag1, was);
      assert FlagSet(FFlag1, was) + {} == FlagSet(FFlag1, was);
    }
  }
}
