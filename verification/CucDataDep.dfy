/** add_data_dep: every instruction depends on what it computes with, and on what that depends on. */
module CucDataDep {
  import opened CucInsn
  import opened CucFunc
  import opened CucNops
  import opened CucDead
  import opened CucMemory
  import opened CucSchedule

  /** add_dep of every element of a list. */
  function AddAll(list: seq<int>, more: seq<int>): (r: seq<int>)
    ensures forall x :: x in r <==> x in list || x in more
  {
    if more == [] then list else AddDep(AddAll(list, more[..|more| - 1]), more[|more| - 1])
  }

  /** The dependencies of `r` after its operand `o` has been looked at. */
  function WithOperand(bbs: Blocks, r: int, dep: seq<int>, o: Operand): (s: seq<int>)
    ensures forall x :: x in dep ==> x in s
    ensures o.Ref? ==> o.i in s && (o.i != r && IsRef(bbs, o.i) ==> forall x :: x in At(bbs, o.i).dep ==> x in s)
    ensures forall x :: x in s ==>
      x in dep ||
      (o.Ref? && (x == o.i || (o.i != r && IsRef(bbs, o.i) && x in At(bbs, o.i).dep)))
  {
    if !o.Ref? then dep
    else AddDep(if o.i == r || !IsRef(bbs, o.i) then dep else AddAll(dep, At(bbs, o.i).dep), o.i)
  }

  function WithData(bbs: Blocks, r: int): (s: seq<int>)
    requires IsRef(bbs, r)
  {
    var ins := At(bbs, r);
    WithOperand(bbs, r, WithOperand(bbs, r, WithOperand(bbs, r, WithOperand(bbs, r, ins.dep, ins.a0), ins.a1), ins.a2),
      ins.a3)
  }

  function DataOne(bbs: Blocks, r: int): (q: Blocks)
    requires IsRef(bbs, r)
    ensures |q| == |bbs| && forall b :: 0 <= b < |bbs| ==> |q[b]| == |bbs[b]|
  {
    Put(bbs, r, At(bbs, r).(dep := WithData(bbs, r)))
  }

  /** The function when the walk has passed the first `b` blocks and `i` instructions of the next. */
  function DataTo(bbs: Blocks, b: nat, i: nat): (q: Blocks)
    requires Sized(bbs) && b <= |bbs| && (b < |bbs| ==> i <= |bbs[b]|) && (b == |bbs| ==> i == 0)
    ensures |q| == |bbs| && forall c :: 0 <= c < |bbs| ==> |q[c]| == |bbs[c]|
    decreases b, i
  {
    if i > 0 then
      RefRoundTrip(b, i - 1, b, i - 1);
      DataOne(DataTo(bbs, b, i - 1), MakeRef(b, i - 1))
    else if b > 0 then DataTo(bbs, b - 1, |bbs[b - 1]|)
    else bbs
  }

  /** Instruction `r` depends on its operands, and on everything that operands before it depend on. */
  ghost predicate DataClosed(bbs: Blocks, r: int)
    requires IsRef(bbs, r)
  {
    forall d :: Uses(At(bbs, r), d) && IsRef(bbs, d) ==>
      d in At(bbs, r).dep && (d < r ==> forall x :: x in At(bbs, d).dep ==> x in At(bbs, r).dep)
  }

  /** Nothing but the dependencies changes, and those only grow; what the walk has passed is closed. */
  ghost predicate DataDone(was: Blocks, now: Blocks, limit: int) {
    |now| == |was| && (forall b :: 0 <= b < |was| ==> |now[b]| == |was[b]|) &&
    (forall r :: IsRef(was, r) ==>
      IsRef(now, r) && At(now, r).(dep := At(was, r).dep) == At(was, r) &&
      (r >= limit ==> At(now, r) == At(was, r))) &&
    (forall r, x :: IsRef(was, r) && x in At(was, r).dep ==> x in At(now, r).dep) &&
    forall r :: IsRef(now, r) && r < limit ==> DataClosed(now, r)
  }

  lemma WithDataHas(bbs: Blocks, r: int)
    requires IsRef(bbs, r)
    ensures forall x :: x in At(bbs, r).dep ==> x in WithData(bbs, r)
    ensures forall d :: Uses(At(bbs, r), d) && IsRef(bbs, d) ==>
      d in WithData(bbs, r) && (d != r ==> forall x :: x in At(bbs, d).dep ==> x in WithData(bbs, r))
  {
  }

  lemma DataStep(was: Blocks, now: Blocks, r: int)
    requires IsRef(was, r) && DataDone(was, now, r)
    ensures DataDone(was, DataOne(now, r), r + 1)
  {
    hide RefBb, RefI, WithData, Put;
    WithDataHas(now, r);
    var q := DataOne(now, r);
    forall p | IsRef(q, p) && p < r + 1
      ensures DataClosed(q, p)
    {
      if p < r {
        assert DataClosed(now, p);
      }
    }
  }

  lemma {:induction false} DataToDone(bbs: Blocks, b: nat, i: nat)
    requires Sized(bbs) && b <= |bbs| && (b < |bbs| ==> i <= |bbs[b]|) && (b == |bbs| ==> i == 0)
    ensures DataDone(bbs, DataTo(bbs, b, i), MakeRef(b, i))
    decreases b, i
  {
    hide RefBb, RefI, MakeRef, DataOne, DataClosed, Uses;
    if i > 0 {
      DataToDone(bbs, b, i - 1);
      RefRoundTrip(b, i - 1, b, i);
      var r := MakeRef(b, i - 1);
      DataStep(bbs, DataTo(bbs, b, i - 1), r);
      SameLimit(bbs, DataTo(bbs, b, i), b, i);
    } else if b > 0 {
      DataToDone(bbs, b - 1, |bbs[b - 1]|);
      BetweenBlocks(bbs, DataTo(bbs, b, 0), b);
    } else {
      FirstRef();
    }
  }

  lemma SameLimit(was: Blocks, now: Blocks, b: nat, i: nat)
    requires i > 0 && Sized(was) && b < |was| && i <= |was[b]| && DataDone(was, now, MakeRef(b, i - 1) + 1)
    ensures DataDone(was, now, MakeRef(b, i))
  {
  }

  lemma BetweenBlocks(was: Blocks, now: Blocks, b: nat)
    requires 0 < b <= |was| && Sized(was) && DataDone(was, now, MakeRef(b - 1, |was[b - 1]|))
    ensures DataDone(was, now, MakeRef(b, 0))
  {
    hide RefBb, RefI, MakeRef, DataClosed;
    assert forall x :: IsRef(now, x) <==> IsRef(was, x);
    forall x | IsRef(was, x)
      ensures x < MakeRef(b, 0) <==> x < MakeRef(b - 1, |was[b - 1]|)
    {
      RefUnpacked(x);
      RefRoundTrip(RefBb(x), RefI(x), b, 0);
      RefRoundTrip(RefBb(x), RefI(x), b - 1, |was[b - 1]|);
    }
  }

  function WithDataDeps(bbs: Blocks): Blocks
    requires Sized(bbs)
  {
    DataTo(bbs, |bbs|, 0)
  }

  // ---- What follows for the schedule ----

  /** `r` is computed from `d` in the same pass through the code, directly or over other instructions. */
  predicate FedBy(bbs: Blocks, r: int, d: int)
    requires IsRef(bbs, r)
    decreases r, 1
  {
    var ins := At(bbs, r);
    OperandFed(bbs, r, ins.a0, d) || OperandFed(bbs, r, ins.a1, d) ||
    OperandFed(bbs, r, ins.a2, d) || OperandFed(bbs, r, ins.a3, d)
  }

  /** Operand `o` of `r` is `d` or computed from it; a reference that does not lead back is to the pass before. */
  predicate OperandFed(bbs: Blocks, r: int, o: Operand, d: int)
    requires IsRef(bbs, r)
    decreases r, 0
  {
    o.Ref? && o.i < r && IsRef(bbs, o.i) && (o.i == d || FedBy(bbs, o.i, d))
  }

  lemma {:induction false} FedBelow(bbs: Blocks, r: int, d: int)
    requires IsRef(bbs, r) && FedBy(bbs, r, d)
    ensures IsRef(bbs, d) && d < r
    decreases r
  {
    var o := Feeder(bbs, r, d);
    if o != d {
      FedBelow(bbs, o, d);
    }
  }

  /** The operand through which `d` feeds `r`. */
  lemma Feeder(bbs: Blocks, r: int, d: int) returns (o: int)
    requires IsRef(bbs, r) && FedBy(bbs, r, d)
    ensures Uses(At(bbs, r), o) && IsRef(bbs, o) && o < r && (o == d || FedBy(bbs, o, d))
  {
    hide At, RefBb, RefI;
    var ins := At(bbs, r);
    o := if OperandFed(bbs, r, ins.a0, d) then ins.a0.i
         else if OperandFed(bbs, r, ins.a1, d) then ins.a1.i
         else if OperandFed(bbs, r, ins.a2, d) then ins.a2.i else ins.a3.i;
  }

  /** Every instruction depends on everything that feeds it. */
  ghost predicate FedComplete(bbs: Blocks) {
    forall r, d :: IsRef(bbs, r) && FedBy(bbs, r, d) ==> d in At(bbs, r).dep
  }

  lemma FeedersInDeps(bbs: Blocks)
    requires Sized(bbs)
    ensures FedComplete(WithDataDeps(bbs))
  {
    hide RefBb, RefI, MakeRef, DataTo, FedBy;
    var q := WithDataDeps(bbs);
    DataToDone(bbs, |bbs|, 0);
    forall r | IsRef(q, r)
      ensures DataClosed(q, r)
    {
      RefBelow(q, r);
    }
    forall r, d | IsRef(q, r) && FedBy(q, r, d)
      ensures d in At(q, r).dep
    {
      FeederInDeps(q, r, d);
    }
  }

  lemma {:induction false} FeederInDeps(bbs: Blocks, r: int, d: int)
    requires IsRef(bbs, r) && FedBy(bbs, r, d) && forall r' :: IsRef(bbs, r') ==> DataClosed(bbs, r')
    ensures d in At(bbs, r).dep
    decreases r
  {
    hide RefBb, RefI, At, FedBy, Uses;
    var o := Feeder(bbs, r, d);
    assert DataClosed(bbs, r);
    if o != d {
      FeederInDeps(bbs, o, d);
    }
  }

  lemma RefBelow(bbs: Blocks, r: int)
    requires IsRef(bbs, r)
    ensures r < MakeRef(|bbs|, 0)
  {
  }

  /** Nothing else is added: whatever holds of the dependencies there were and of operands, and is passed on from
      operands, holds of all dependencies. */
  lemma {:induction false} DataDepsWithin(bbs: Blocks, b: nat, i: nat, rel: (int, int) -> bool)
    requires Sized(bbs) && b <= |bbs| && (b < |bbs| ==> i <= |bbs[b]|) && (b == |bbs| ==> i == 0)
    requires forall r, x :: IsRef(bbs, r) && x in At(bbs, r).dep ==> rel(r, x)
    requires forall r, d :: IsRef(bbs, r) && Uses(At(bbs, r), d) ==> rel(r, d)
    requires forall r, d, x :: IsRef(bbs, r) && Uses(At(bbs, r), d) && rel(d, x) ==> rel(r, x)
    ensures forall r, x :: IsRef(bbs, r) && x in At(DataTo(bbs, b, i), r).dep ==> rel(r, x)
    decreases b, i
  {
    hide RefBb, RefI, MakeRef, DataOne, Put;
    if i > 0 {
      RefRoundTrip(b, i - 1, b, i - 1);
      DataToDone(bbs, b, i - 1);
      DataDepsWithin(bbs, b, i - 1, rel);
      WithinOne(bbs, DataTo(bbs, b, i - 1), MakeRef(b, i - 1), rel);
    } else if b > 0 {
      DataDepsWithin(bbs, b - 1, |bbs[b - 1]|, rel);
    }
  }

  lemma WithinOne(was: Blocks, now: Blocks, r: int, rel: (int, int) -> bool)
    requires IsRef(was, r) && DataDone(was, now, r)
    requires forall p, x :: IsRef(was, p) && x in At(now, p).dep ==> rel(p, x)
    requires forall p, d :: IsRef(was, p) && Uses(At(was, p), d) ==> rel(p, d)
    requires forall p, d, x :: IsRef(was, p) && Uses(At(was, p), d) && rel(d, x) ==> rel(p, x)
    ensures forall p, x :: IsRef(was, p) && x in At(DataOne(now, r), p).dep ==> rel(p, x)
  {
    hide RefBb, RefI;
    forall x | x in WithData(now, r)
      ensures rel(r, x)
    {
      assert x in At(now, r).dep || exists d ::
        Uses(At(was, r), d) && (x == d || (IsRef(was, d) && x in At(now, d).dep));
    }
  }

  /** So the scheduler never moves a store in front of a load whose value goes into the stored value or the address. */
  lemma ScheduleRespectsData(bbs: Blocks, i: nat, j: nat)
    requires Sized(bbs) && MemOk(WithDataDeps(bbs)) && AllMem(WithDataDeps(bbs), AllMemRefs(WithDataDeps(bbs)))
    requires
      var s := Scheduled(WithDataDeps(bbs));
      i < |s| && j < |s| && FedBy(WithDataDeps(bbs), s[j], s[i])
    ensures i < j
  {
    hide RefBb, RefI, MakeRef, DataTo, MemRefs, MemInsn, Increasing, AllMemRefs, Stale, At, Uses, Extends, FedBy,
      ScheduleFrom, MemOk;
    var q := WithDataDeps(bbs);
    var s := Scheduled(q);
    FeedersInDeps(bbs);
    FedBelow(q, s[j], s[i]);
    AccessesListed(q);
    NothingBefore(q, AllMemRefs(q));
    ScheduleExtends(q, Stale(q), AllMemRefs(q), 0);
    InOrder(q, s, i, j);
  }

  lemma NothingBefore(bbs: Blocks, sched: seq<int>)
    requires AllMem(bbs, sched)
    ensures Extends(bbs, sched, 0)
  {
  }

  lemma InOrder(bbs: Blocks, s: seq<int>, i: nat, j: nat)
    requires AllMem(bbs, s) && Extends(bbs, s, |s|) && i < |s| && j < |s|
    requires s[i] in At(bbs, s[j]).dep && s[i] < s[j]
    ensures i < j
  {
  }

  // ---- The pass ----

  /** add_dep of every element of a list, one after the other. */
  method AddList(list: seq<int>, more: seq<int>) returns (r: seq<int>)
    ensures r == AddAll(list, more)
  {
    r := list;
    assert more[..0] == [];
    for k := 0 to |more|
      invariant r == AddAll(list, more[..k])
    {
      assert more[..k + 1][..k] == more[..k];
      r := AddDep(r, more[k]);
    }
    assert more[..|more|] == more;
  }

  method LookAt(f: Func, r: int, o: Operand, dep: seq<int>) returns (s: seq<int>)
    ensures s == WithOperand(f.bb, r, dep, o)
  {
    s := dep;
    if o.Ref? {
      if o.i != r && IsRef(f.bb, o.i) {
        s := AddList(s, At(f.bb, o.i).dep);
      }
      s := AddDep(s, o.i);
    }
  }

  /** add_data_dep. */
  method AddDataDep(f: Func)
    requires Sized(f.bb)
    modifies f`bb
    ensures f.bb == WithDataDeps(old(f.bb))
  {
    hide RefBb, RefI, MakeRef, WithOperand;
    ghost var was := f.bb;
    for b := 0 to |f.bb|
      invariant f.bb == DataTo(was, b, 0)
    {
      for i := 0 to |f.bb[b]|
        invariant f.bb == DataTo(was, b, i)
      {
        RefRoundTrip(b, i, b, i);
        var r := MakeRef(b, i);
        var ins := At(f.bb, r);
        var dep := LookAt(f, r, ins.a0, ins.dep);
        dep := LookAt(f, r, ins.a1, dep);
        dep := LookAt(f, r, ins.a2, dep);
        dep := LookAt(f, r, ins.a3, dep);
        f.SetInsn(r, ins.(dep := dep));
      }
    }
  }
}
