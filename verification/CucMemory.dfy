/** Memory dependencies and the reordering of memory accesses. */
module CucMemory {
  import opened CucInsn
  import opened CucFunc
  import CucExec

  datatype Ordering = MoNone | MoWeak | MoStrong | MoExact

  predicate IsMem(ins: Insn) { FMemory in ins.ty }

  /** A load or a store; operand 1 is its address. */
  predicate MemInsn(bbs: Blocks, ins: Insn) {
    (IsLoad(ins.index) || IsStore(ins.index)) && (ins.a1.Ref? ==> IsRef(bbs, ins.a1.i))
  }

  /** The address is the result of an addition. */
  predicate Summed(bbs: Blocks, ins: Insn)
    requires MemInsn(bbs, ins)
  {
    ins.a1.Ref? && At(bbs, ins.a1.i).index.Add?
  }

  /** Two accesses at known offsets from the same base. */
  predicate SameBase(bbs: Blocks, a: Insn, b: Insn)
    requires MemInsn(bbs, a) && MemInsn(bbs, b)
  {
    Summed(bbs, a) && Summed(bbs, b) &&
    var x, y := At(bbs, a.a1.i), At(bbs, b.a1.i);
    x.a1 == y.a1 && x.a2.Const? && y.a2.Const?
  }

  function Offset(bbs: Blocks, a: Insn): Word
    requires MemInsn(bbs, a) && Summed(bbs, a) && At(bbs, a.a1.i).a2.Const?
  {
    At(bbs, a.a1.i).a2.w
  }

  /** The overlap test on offsets and widths; the ends of the ranges are computed as words and can wrap around. */
  predicate Overlap(o: Word, w: nat, p: Word, v: nat) {
    (p <= o < CucExec.Wrap(p + v)) || (o <= p < CucExec.Wrap(o + w))
  }

  /** check_memory_conflict. */
  predicate Conflict(bbs: Blocks, a: Insn, b: Insn, order: Ordering)
    requires MemInsn(bbs, a) && MemInsn(bbs, b)
  {
    match order
    case MoExact => true
    case MoStrong => true
    case MoWeak => SameBase(bbs, a, b) ==> Overlap(Offset(bbs, a), MemWidth(a.index), Offset(bbs, b), MemWidth(b.index))
    case MoNone => false
  }

  /** mem_ordering_cmp. */
  predicate Before(bbs: Blocks, a: Insn, b: Insn)
    requires MemInsn(bbs, a) && MemInsn(bbs, b)
  {
    SameBase(bbs, a, b) && Offset(bbs, a) < Offset(bbs, b)
  }

  ghost predicate AllMem(bbs: Blocks, sched: seq<int>) {
    forall k :: 0 <= k < |sched| ==> IsAccess(bbs, sched[k])
  }

  // ---- Accesses to disjoint bytes commute ----

  function ByteAddr(a: int, k: int): Word { CucExec.Wrap(a + k) }

  ghost predicate Apart(a: int, n: nat, b: int, m: nat) {
    forall k, l :: 0 <= k < n && 0 <= l < m ==> ByteAddr(a, k) != ByteAddr(b, l)
  }

  ghost predicate Outside(x: Word, b: int, m: nat) { forall l :: 0 <= l < m ==> x != ByteAddr(b, l) }

  lemma {:induction false} ReadPast(mem: map<Word, Byte>, a: int, n: nat, b: int, m: nat, v: nat)
    requires Apart(a, n, b, m)
    ensures CucExec.BytesAt(CucExec.PutBytes(mem, b, m, v), a, n) == CucExec.BytesAt(mem, a, n)
  {
    if n > 0 {
      ReadPast(mem, a, n - 1, b, m, v);
      assert ByteAddr(a, n - 1) == CucExec.Wrap(a + n - 1);
      ByteUntouched(mem, a + n - 1, b, m, v);
    }
  }

  lemma {:induction false} ByteUntouched(mem: map<Word, Byte>, x: int, b: int, m: nat, v: nat)
    requires Outside(CucExec.Wrap(x), b, m)
    ensures CucExec.ByteAt(CucExec.PutBytes(mem, b, m, v), x) == CucExec.ByteAt(mem, x)
  {
    if m > 0 {
      assert ByteAddr(b, m - 1) == CucExec.Wrap(b + m - 1);
      ByteUntouched(mem, x, b, m - 1, v / 0x100);
    }
  }

  lemma {:induction false} PutCommutes(mem: map<Word, Byte>, a: int, n: nat, u: nat, b: int, m: nat, v: nat)
    requires Apart(a, n, b, m)
    ensures CucExec.PutBytes(CucExec.PutBytes(mem, a, n, u), b, m, v) ==
      CucExec.PutBytes(CucExec.PutBytes(mem, b, m, v), a, n, u)
  {
    if n > 0 {
      PutCommutes(mem, a, n - 1, u / 0x100, b, m, v);
      assert ByteAddr(a, n - 1) == CucExec.Wrap(a + n - 1);
      OneByteCommutes(CucExec.PutBytes(mem, a, n - 1, u / 0x100), CucExec.Wrap(a + n - 1), u % 0x100, b, m, v);
    }
  }

  lemma {:induction false} OneByteCommutes(mem: map<Word, Byte>, x: Word, y: Byte, b: int, m: nat, v: nat)
    requires Outside(x, b, m)
    ensures CucExec.PutBytes(mem[x := y], b, m, v) == CucExec.PutBytes(mem, b, m, v)[x := y]
  {
    if m > 0 {
      OneByteCommutes(mem, x, y, b, m - 1, v / 0x100);
      assert ByteAddr(b, m - 1) == CucExec.Wrap(b + m - 1);
    }
  }

  predicate IsAccess(bbs: Blocks, r: int) { IsRef(bbs, r) && MemInsn(bbs, At(bbs, r)) }

  // ---- When the weak check is right ----

  lemma WrapTwice(a: int, k: int)
    ensures CucExec.Wrap(CucExec.Wrap(a) + k) == CucExec.Wrap(a + k)
  {
  }

  lemma WrapApart(x: int, y: int)
    requires x != y && -WORD_LIMIT < x - y < WORD_LIMIT
    ensures CucExec.Wrap(x) != CucExec.Wrap(y)
  {
  }

  /** The end of the first range, wrapped around the address space, stays off the second. */
  predicate StaysOff(o: Word, w: nat, p: Word) { o + w <= WORD_LIMIT + p }

  /** The end of the range is no word. */
  predicate Reaches(o: Word, w: nat) { o + w >= WORD_LIMIT }

  /** The ranges have a number in common. */
  predicate Touches(o: Word, w: nat, p: Word, v: nat) { (p <= o < p + v) || (o <= p < o + w) }

  /** Neither range wraps around onto the other, and if one reaches the end of the address space they have nothing in
      common before that. */
  predicate Fits(o: Word, w: nat, p: Word, v: nat) {
    StaysOff(o, w, p) && StaysOff(p, v, o) && (Reaches(o, w) || Reaches(p, v) ==> !Touches(o, w, p, v))
  }

  /** Ranges that both end before the end of the address space need no further condition. */
  lemma EndsBelow(o: Word, w: nat, p: Word, v: nat)
    requires !Reaches(o, w) && !Reaches(p, v)
    ensures Fits(o, w, p, v)
  {
  }

  /** At two offsets from any base, ranges that the test finds overlapping do overlap; others are disjoint exactly when
      they fit. */
  lemma RangesApart(base: Word, o: Word, w: nat, p: Word, v: nat)
    requires 0 < w <= 4 && 0 < v <= 4
    ensures Overlap(o, w, p, v) ==> !Apart(CucExec.Wrap(base + o), w, CucExec.Wrap(base + p), v)
    ensures !Overlap(o, w, p, v) ==>
      (Apart(CucExec.Wrap(base + o), w, CucExec.Wrap(base + p), v) <==> Fits(o, w, p, v))
  {
    hide Apart;
    if Touches(o, w, p, v) {
      TouchingMeet(base, o, w, p, v);
    } else {
      UntouchedApart(base, o, w, p, v);
    }
  }

  lemma TouchingMeet(base: Word, o: Word, w: nat, p: Word, v: nat)
    requires 0 < w <= 4 && 0 < v <= 4 && Touches(o, w, p, v)
    ensures !Apart(CucExec.Wrap(base + o), w, CucExec.Wrap(base + p), v)
  {
    hide CucExec.Wrap;
    var k, l := if p <= o then 0 else p - o, if p <= o then o - p else 0;
    WrapTwice(base + o, k);
    WrapTwice(base + p, l);
    assert ByteAddr(CucExec.Wrap(base + o), k) == ByteAddr(CucExec.Wrap(base + p), l);
  }

  /** Ranges that have no number in common are disjoint exactly when neither wraps around onto the other. */
  lemma UntouchedApart(base: Word, o: Word, w: nat, p: Word, v: nat)
    requires 0 < w <= 4 && 0 < v <= 4 && !Touches(o, w, p, v)
    ensures Apart(CucExec.Wrap(base + o), w, CucExec.Wrap(base + p), v) <==> StaysOff(o, w, p) && StaysOff(p, v, o)
  {
    hide CucExec.Wrap;
    var a, b := CucExec.Wrap(base + o), CucExec.Wrap(base + p);
    if StaysOff(o, w, p) && StaysOff(p, v, o) {
      forall k, l | 0 <= k < w && 0 <= l < v
        ensures ByteAddr(a, k) != ByteAddr(b, l)
      {
        WrapTwice(base + o, k);
        WrapTwice(base + p, l);
        WrapApart(base + o + k, base + p + l);
      }
    } else if !StaysOff(o, w, p) {
      var k := WORD_LIMIT + p - o;
      WrapTwice(base + o, k);
      WrapTwice(base + p, 0);
      WrapAround(base + p);
      assert ByteAddr(a, k) == ByteAddr(b, 0);
    } else {
      var l := WORD_LIMIT + o - p;
      WrapTwice(base + p, l);
      WrapTwice(base + o, 0);
      WrapAround(base + o);
      assert ByteAddr(a, 0) == ByteAddr(b, l);
    }
  }

  lemma WrapAround(a: int)
    ensures CucExec.Wrap(a + WORD_LIMIT) == CucExec.Wrap(a)
  {
  }

  /** Two accesses at offsets from one base fit. */
  predicate PairFits(bbs: Blocks, x: Insn, y: Insn)
    requires MemInsn(bbs, x) && MemInsn(bbs, y)
  {
    SameBase(bbs, x, y) ==> Fits(Offset(bbs, x), MemWidth(x.index), Offset(bbs, y), MemWidth(y.index))
  }

  // ---- The schedule ----

  /** The accesses that `r` must come after. */
  predicate Blocked(bbs: Blocks, flagged: set<int>, r: int)
    requires IsRef(bbs, r)
  {
    exists k :: 0 <= k < |At(bbs, r).dep| && At(bbs, r).dep[k] in flagged
  }

  /** The scan for the access to schedule next: the best of the block so far, `best`, gives way to `j` if that has a
      smaller offset and nothing it depends on is unscheduled. */
  function Pick(bbs: Blocks, flagged: set<int>, sched: seq<int>, j: nat, best: nat): (r: nat)
    requires AllMem(bbs, sched) && best < j <= |sched|
    ensures best <= r < |sched| && RefBb(sched[r]) == RefBb(sched[best])
    ensures r == best || !Blocked(bbs, flagged, sched[r])
    decreases |sched| - j
  {
    if j == |sched| then best
    else if RefBb(sched[j]) == RefBb(sched[best]) && Before(bbs, At(bbs, sched[j]), At(bbs, sched[best])) &&
            !Blocked(bbs, flagged, sched[j])
    then Pick(bbs, flagged, sched, j + 1, j)
    else Pick(bbs, flagged, sched, j + 1, best)
  }

  /** The access at `best` moves up to `i`, those in between move down. */
  function MoveUp(sched: seq<int>, i: nat, best: nat): (r: seq<int>)
    requires i <= best < |sched|
    ensures |r| == |sched| && r[..i] == sched[..i] && r[i] == sched[best]
    ensures forall k :: i < k <= best ==> r[k] == sched[k - 1]
    ensures forall k :: best < k < |sched| ==> r[k] == sched[k]
  {
    sched[..i] + [sched[best]] + sched[i..best] + sched[best + 1..]
  }

  function Unscheduled(sched: seq<int>, i: nat): (s: set<int>)
    requires i <= |sched|
  {
    set k | i <= k < |sched| :: sched[k]
  }

  /** The schedule once the first `i` places are settled; `stale` are other instructions that carry the mark. */
  function ScheduleFrom(bbs: Blocks, stale: set<int>, sched: seq<int>, i: nat): (r: seq<int>)
    requires AllMem(bbs, sched) && i <= |sched|
    ensures |r| == |sched| && AllMem(bbs, r)
    decreases |sched| - i
  {
    if i == |sched| then sched
    else
      var best := Pick(bbs, stale + Unscheduled(sched, i), sched, i + 1, i);
      ScheduleFrom(bbs, stale, MoveUp(sched, i, best), i + 1)
  }

  lemma MoveUpPermutes(sched: seq<int>, i: nat, best: nat)
    requires i <= best < |sched|
    ensures multiset(MoveUp(sched, i, best)) == multiset(sched)
  {
    assert sched == sched[..i] + sched[i..best] + [sched[best]] + sched[best + 1..];
  }

  /** The schedule is a permutation of the accesses. */
  lemma {:induction false} SchedulePermutes(bbs: Blocks, stale: set<int>, sched: seq<int>, i: nat)
    requires AllMem(bbs, sched) && i <= |sched|
    ensures multiset(ScheduleFrom(bbs, stale, sched, i)) == multiset(sched)
    decreases |sched| - i
  {
    hide MoveUp, Pick;
    if i < |sched| {
      var best := Pick(bbs, stale + Unscheduled(sched, i), sched, i + 1, i);
      MoveUpPermutes(sched, i, best);
      SchedulePermutes(bbs, stale, MoveUp(sched, i, best), i + 1);
    }
  }

  /** From `i` on the accesses are in program order. */
  ghost predicate Increasing(sched: seq<int>, i: nat) { forall p, q :: i <= p < q < |sched| ==>
    0 <= sched[p] < sched[q] }

  lemma BlocksInOrder(r: nat, r': nat)
    ensures r <= r' ==> RefBb(r) <= RefBb(r')
  {
  }

  lemma MoveUpKeeps(sched: seq<int>, i: nat, best: nat)
    requires i <= best < |sched| && Increasing(sched, i) && 0 <= sched[i] && RefBb(sched[best]) == RefBb(sched[i])
    ensures Increasing(MoveUp(sched, i, best), i + 1)
    ensures forall k :: i <= k <= best ==> 0 <= sched[k] && RefBb(sched[k]) == RefBb(sched[i])
    ensures forall k :: 0 <= k < |sched| && (k < i || best < k) ==> MoveUp(sched, i, best)[k] == sched[k]
  {
    hide MoveUp, RefBb;
    var r := MoveUp(sched, i, best);
    forall k | i <= k <= best
      ensures 0 <= sched[k] && RefBb(sched[k]) == RefBb(sched[i])
    {
      BlocksInOrder(sched[i], sched[k]);
      BlocksInOrder(sched[k], sched[best]);
    }
    forall k | 0 <= k < i
      ensures r[k] == sched[k]
    {
      assert r[..i][k] == sched[..i][k];
    }
  }

  /** Every place of the schedule stays with its block, so blocks stay contiguous and in order. */
  lemma {:induction false} ScheduleKeepsBlocks(bbs: Blocks, stale: set<int>, sched: seq<int>, i: nat, k: nat)
    requires AllMem(bbs, sched) && i <= |sched| && Increasing(sched, i) && k < |sched|
    ensures RefBb(ScheduleFrom(bbs, stale, sched, i)[k]) == RefBb(sched[k])
    decreases |sched| - i
  {
    hide MoveUp, Pick, RefBb;
    if i < |sched| {
      var best := Pick(bbs, stale + Unscheduled(sched, i), sched, i + 1, i);
      MoveUpKeeps(sched, i, best);
      ScheduleKeepsBlocks(bbs, stale, MoveUp(sched, i, best), i + 1, k);
    }
  }

  /** No access among the first `i` comes before an earlier instruction it depends on. */
  ghost predicate Extends(bbs: Blocks, sched: seq<int>, i: nat)
    requires AllMem(bbs, sched)
  {
    forall p, q :: 0 <= p < q < |sched| && p < i && sched[q] in At(bbs, sched[p]).dep ==> sched[q] > sched[p]
  }

  lemma MoveUpExtends(bbs: Blocks, flagged: set<int>, sched: seq<int>, i: nat, best: nat)
    requires AllMem(bbs, sched) && i <= best < |sched| && Increasing(sched, i) && Extends(bbs, sched, i)
    requires Unscheduled(sched, i) <= flagged
    requires best == i || !Blocked(bbs, flagged, sched[best])
    ensures AllMem(bbs, MoveUp(sched, i, best)) && Extends(bbs, MoveUp(sched, i, best), i + 1)
  {
    hide MoveUp, At;
    var r := MoveUp(sched, i, best);
    forall k | 0 <= k < i ensures r[k] == sched[k] { assert r[..i][k] == sched[..i][k]; }
    forall p, q | 0 <= p < q < |r| && p < i + 1 && r[q] in At(bbs, r[p]).dep
      ensures r[q] > r[p]
    {
      var q' := if q < i || best < q then q else if q == i then best else q - 1;
      assert r[q] == sched[q'];
      if p == i {
        assert sched[q'] in Unscheduled(sched, i);
        var k :| 0 <= k < |At(bbs, sched[best]).dep| && At(bbs, sched[best]).dep[k] == r[q];
      } else {
        assert sched[q'] in At(bbs, sched[p]).dep;
      }
    }
  }

  /** The schedule is a linear extension of the dependencies on earlier instructions. */
  lemma {:induction false} ScheduleExtends(bbs: Blocks, stale: set<int>, sched: seq<int>, i: nat)
    requires AllMem(bbs, sched) && i <= |sched| && Increasing(sched, i) && Extends(bbs, sched, i)
    ensures var r := ScheduleFrom(bbs, stale, sched, i); Extends(bbs, r, |r|)
    decreases |sched| - i
  {
    hide MoveUp, Pick, Extends, Increasing;
    if i < |sched| {
      var flagged := stale + Unscheduled(sched, i);
      var best := Pick(bbs, flagged, sched, i + 1, i);
      MoveUpKeeps(sched, i, best);
      MoveUpExtends(bbs, flagged, sched, i, best);
      ScheduleExtends(bbs, stale, MoveUp(sched, i, best), i + 1);
    }
  }

  /** Every access depends on the earlier ones it conflicts with. */
  ghost predicate DepsComplete(bbs: Blocks, sched: seq<int>, order: Ordering)
    requires AllMem(bbs, sched)
  {
    forall x, y :: x in sched && y in sched && y < x ==> DependsOnConflict(bbs, x, y, order)
  }

  ghost predicate DependsOnConflict(bbs: Blocks, x: int, y: int, order: Ordering)
    requires IsAccess(bbs, x) && IsAccess(bbs, y)
  {
    Conflict(bbs, At(bbs, x), At(bbs, y), order) ==> y in At(bbs, x).dep
  }

  lemma SameElements(s: seq<int>, r: seq<int>)
    requires multiset(s) == multiset(r)
    ensures forall x :: x in s <==> x in r
  {
    forall x
      ensures x in s <==> x in r
    {
      assert x in s <==> x in multiset(s);
    }
  }

  // ---- Building the lists ----

  /** The memory instructions of the first `b` blocks and the first `i` instructions of block `b`, in program order. */
  function MemRefs(bbs: Blocks, b: nat, i: nat): (r: seq<int>)
    requires b <= |bbs| && (b < |bbs| ==> i <= |bbs[b]|) && (b == |bbs| ==> i == 0)
    decreases b, i
  {
    if i > 0 then
      MemRefs(bbs, b, i - 1) + if IsMem(bbs[b][i - 1]) then [MakeRef(b, i - 1)] else []
    else if b > 0 then MemRefs(bbs, b - 1, |bbs[b - 1]|)
    else []
  }

  function AllMemRefs(bbs: Blocks): seq<int> { MemRefs(bbs, |bbs|, 0) }

  /** Every memory instruction is a load or a store whose address operand, if it is a reference, is one to an
      instruction. */
  ghost predicate MemOk(bbs: Blocks) {
    Sized(bbs) && forall r :: IsRef(bbs, r) && IsMem(At(bbs, r)) ==> MemInsn(bbs, At(bbs, r))
  }

  lemma {:induction false} MemRefsInOrder(bbs: Blocks, b: nat, i: nat)
    requires MemOk(bbs) && b <= |bbs| && (b < |bbs| ==> i <= |bbs[b]|) && (b == |bbs| ==> i == 0)
    ensures var r := MemRefs(bbs, b, i);
      Increasing(r, 0) && AllMem(bbs, r) && (forall k :: 0 <= k < |r| ==> r[k] < MakeRef(b, i)) &&
      forall x :: x in r <==> IsRef(bbs, x) && x < MakeRef(b, i) && IsMem(At(bbs, x))
    decreases b, i
  {
    hide MemInsn, RefBb, RefI, MakeRef;
    var r := MemRefs(bbs, b, i);
    if i > 0 {
      MemRefsInOrder(bbs, b, i - 1);
      RefRoundTrip(b, i - 1, b, i);
      assert At(bbs, MakeRef(b, i - 1)) == bbs[b][i - 1];
      forall x | IsRef(bbs, x) && MakeRef(b, i - 1) <= x < MakeRef(b, i)
        ensures x == MakeRef(b, i - 1)
      {
        NextRef(b, i - 1, x);
      }
    } else if b > 0 {
      MemRefsInOrder(bbs, b - 1, |bbs[b - 1]|);
      RefRoundTrip(b - 1, |bbs[b - 1]|, b, 0);
      forall x | IsRef(bbs, x) && x < MakeRef(b, 0)
        ensures x < MakeRef(b - 1, |bbs[b - 1]|)
      {
        RefUnpacked(x);
        RefRoundTrip(RefBb(x), RefI(x), b, 0);
        RefRoundTrip(RefBb(x), RefI(x), b - 1, |bbs[b - 1]|);
      }
    } else {
      FirstRef();
    }
  }

  lemma NextRef(b: nat, i: nat, x: nat)
    requires MakeRef(b, i) <= x < MakeRef(b, i + 1)
    ensures x == MakeRef(b, i)
  {
  }

  lemma FirstRef()
    ensures MakeRef(0, 0) == 0
  {
  }

  // ---- What the order of accesses is good for ----

  /** The scan leaves no access of the block behind that is ready and has a smaller offset from the same base. */
  lemma {:induction false} PickLeavesNone(bbs: Blocks, flagged: set<int>, sched: seq<int>, i: nat, j: nat, best: nat,
    k: nat)
    requires AllMem(bbs, sched) && i <= best < j <= |sched| && i <= k < |sched|
    requires forall h :: i <= h < j && RefBb(sched[h]) == RefBb(sched[best]) && !Blocked(bbs, flagged, sched[h]) ==>
      !Before(bbs, At(bbs, sched[h]), At(bbs, sched[best]))
    ensures
      var r := Pick(bbs, flagged, sched, j, best);
      var x, y := At(bbs, sched[k]), At(bbs, sched[r]);
      RefBb(sched[k]) == RefBb(sched[best]) && SameBase(bbs, x, y) && Offset(bbs, x) < Offset(bbs, y) ==>
      Blocked(bbs, flagged, sched[k])
    decreases |sched| - j
  {
    hide RefBb, RefI, Blocked, MemInsn;
    if j < |sched| {
      var next := if RefBb(sched[j]) == RefBb(sched[best]) && Before(bbs, At(bbs, sched[j]), At(bbs, sched[best])) &&
        !Blocked(bbs, flagged, sched[j]) then j else best;
      PickLeavesNone(bbs, flagged, sched, i, j + 1, next, k);
    }
  }

  /** Exact and strong order keep every access behind all earlier ones, no order behind none, and weak order behind
      those whose address is not known relative to its own. */
  lemma ConflictByOrder(bbs: Blocks, a: Insn, b: Insn)
    requires MemInsn(bbs, a) && MemInsn(bbs, b)
    ensures Conflict(bbs, a, b, MoExact) && Conflict(bbs, a, b, MoStrong) && !Conflict(bbs, a, b, MoNone)
    ensures !SameBase(bbs, a, b) ==> Conflict(bbs, a, b, MoWeak)
  {
  }
}
