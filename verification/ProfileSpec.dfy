/** Call-stack time accounting as values: what the profiler keeps, and a reference that knows for every open call when
    it started and how long its own calls took. */
module ProfileSpec {

  /** Times are unsigned int and wrap around. */
  const LIMIT := 0x1_0000_0000
  type Cycles = c: int | 0 <= c < 0x1_0000_0000

  /** One line of the profile: a function is entered or left. */
  datatype Record = Enter(cycles: Cycles, raddr: int, addr: int) | Leave(cycles: Cycles, raddr: int)

  datatype Frame = Frame(cycles: Cycles, raddr: int, addr: int)

  datatype FuncStat = FuncStat(addr: int, cum: int, calls: nat)

  /** The function with this address; the number of functions if it is new. */
  function FindFunc(funcs: seq<FuncStat>, addr: int, j: nat): (k: nat)
    requires j <= |funcs|
    ensures j <= k <= |funcs| && (k < |funcs| ==> funcs[k].addr == addr) && forall h :: j <= h < k ==>
      funcs[h].addr != addr
    decreases |funcs| - j
  {
    if j == |funcs| || funcs[j].addr == addr then j else FindFunc(funcs, addr, j + 1)
  }

  /** A closed call is charged to its function. */
  function Charge(funcs: seq<FuncStat>, addr: int, time: int): (r: seq<FuncStat>)
    ensures |funcs| <= |r| <= |funcs| + 1
  {
    var k := FindFunc(funcs, addr, 0);
    if k < |funcs| then funcs[k := FuncStat(addr, funcs[k].cum + time, funcs[k].calls + 1)]
    else funcs + [FuncStat(addr, time, 1)]
  }

  /** The topmost of the first `n` frames with this return address; -1 if there is none. */
  function FindFrame(raddrs: seq<int>, raddr: int, n: nat): (i: int)
    requires n <= |raddrs|
    ensures -1 <= i < n && (i >= 0 ==> raddrs[i] == raddr) && forall h :: i < h < n ==> raddrs[h] != raddr
  {
    if n == 0 then -1 else if raddrs[n - 1] == raddr then n - 1 else FindFrame(raddrs, raddr, n - 1)
  }

  function Raddrs(stack: seq<Frame>): (r: seq<int>)
    ensures |r| == |stack| && forall k :: 0 <= k < |stack| ==> r[k] == stack[k].raddr
  {
    seq(|stack|, k requires 0 <= k < |stack| => stack[k].raddr)
  }

  // ---- What the profiler keeps ----

  datatype Profile = Profile(stack: seq<Frame>, funcs: seq<FuncStat>)

  function Delayed(stack: seq<Frame>, time: Cycles): (r: seq<Frame>)
    ensures |r| == |stack| &&
      forall k :: 0 <= k < |stack| ==> r[k] == stack[k].(cycles := (stack[k].cycles + time) % LIMIT)
  {
    seq(|stack|, k requires 0 <= k < |stack| => stack[k].(cycles := (stack[k].cycles + time) % LIMIT))
  }

  /** The time charged to the top frame.  It is the difference of two unsigned numbers, so never negative. */
  function Span(p: Profile, now: Cycles): Cycles
    requires p.stack != []
  {
    (now - p.stack[|p.stack| - 1].cycles) % LIMIT
  }

  /** The top frame is closed; in normal mode the frames below it start later by the time it took. */
  function Pop(p: Profile, now: Cycles, cumulative: bool): (r: Profile)
    requires p.stack != []
    ensures |r.stack| == |p.stack| - 1
  {
    var n := |p.stack| - 1;
    var time := Span(p, now);
    Profile(if cumulative then p.stack[..n] else Delayed(p.stack[..n], time), Charge(p.funcs, p.stack[n].addr, time))
  }

  function PopTo(p: Profile, i: nat, now: Cycles, cumulative: bool): (r: Profile)
    requires i <= |p.stack|
    ensures |r.stack| == i
    decreases |p.stack|
  {
    if |p.stack| == i then p else PopTo(Pop(p, now, cumulative), i, now, cumulative)
  }

  function Step(p: Profile, r: Record, cumulative: bool): Profile {
    match r
    case Enter(cycles, raddr, addr) => p.(stack := p.stack + [Frame(cycles, raddr, addr)])
    case Leave(cycles, raddr) =>
      var i := FindFrame(Raddrs(p.stack), raddr, |p.stack|);
      if i >= 0 then PopTo(p, i, cycles, cumulative) else p
  }

  function Run(records: seq<Record>, cumulative: bool): Profile {
    if records == [] then Profile([], [])
    else Step(Run(records[..|records| - 1], cumulative), records[|records| - 1], cumulative)
  }

  lemma NothingRun(cumulative: bool)
    ensures Run([], cumulative) == Profile([], [])
  {
  }

  lemma RunStep(records: seq<Record>, i: nat, cumulative: bool)
    requires i < |records|
    ensures Run(records[..i + 1], cumulative) == Step(Run(records[..i], cumulative), records[i], cumulative)
  {
    assert records[..i + 1][..i] == records[..i];
  }

  // ---- The reference ----

  /** An open call: when it started, and the total length of the calls it has made and that have returned. */
  datatype Open = Open(start: int, inner: int, raddr: int, addr: int)

  /** A call that has returned: its length, the total length of the calls it made, and whether nothing called it. */
  datatype Closed = Closed(addr: int, length: int, inner: int, outermost: bool)

  datatype Reference = Reference(opens: seq<Open>, closed: seq<Closed>)

  /** The innermost call returns, and its caller has made a call of that length. */
  function Close(c: Reference, now: int): (r: Reference)
    requires c.opens != []
    ensures |r.opens| == |c.opens| - 1
  {
    var n := |c.opens| - 1;
    var o := c.opens[n];
    var length := now - o.start;
    var closed := c.closed + [Closed(o.addr, length, o.inner, n == 0)];
    if n == 0 then Reference([], closed)
    else Reference(c.opens[..n][n - 1 := c.opens[n - 1].(inner := c.opens[n - 1].inner + length)], closed)
  }

  function CloseTo(c: Reference, i: nat, now: int): (r: Reference)
    requires i <= |c.opens|
    ensures |r.opens| == i
    decreases |c.opens|
  {
    if |c.opens| == i then c else CloseTo(Close(c, now), i, now)
  }

  function OpenRaddrs(opens: seq<Open>): (r: seq<int>)
    ensures |r| == |opens| && forall k :: 0 <= k < |opens| ==> r[k] == opens[k].raddr
  {
    seq(|opens|, k requires 0 <= k < |opens| => opens[k].raddr)
  }

  function Refer(c: Reference, r: Record): Reference {
    match r
    case Enter(cycles, raddr, addr) => c.(opens := c.opens + [Open(cycles, 0, raddr, addr)])
    case Leave(cycles, raddr) =>
      var i := FindFrame(OpenRaddrs(c.opens), raddr, |c.opens|);
      if i >= 0 then CloseTo(c, i, cycles) else c
  }

  function Account(records: seq<Record>): Reference {
    if records == [] then Reference([], []) else Refer(Account(records[..|records| - 1]), records[|records| - 1])
  }

  // ---- The profiler keeps what the reference says ----

  /** Time never runs backwards. */
  ghost predicate Timely(records: seq<Record>) {
    forall i, j :: 0 <= i < j < |records| ==> records[i].cycles <= records[j].cycles
  }

  /** The total length of the returned calls of the frames from `k` up. */
  function InnerFrom(opens: seq<Open>, k: nat): int
    requires k <= |opens|
    decreases |opens| - k
  {
    if k == |opens| then 0 else opens[k].inner + InnerFrom(opens, k + 1)
  }

  /** Frame by frame: the start, in normal mode adjusted by everything that has returned in the calls above. */
  ghost predicate Adjusted(stack: seq<Frame>, opens: seq<Open>, cumulative: bool) {
    |stack| == |opens| &&
    forall k :: 0 <= k < |stack| ==>
      stack[k].raddr == opens[k].raddr && stack[k].addr == opens[k].addr &&
      stack[k].cycles == opens[k].start + if cumulative then 0 else InnerFrom(opens, k)
  }

  /** Adjusted starts do not decrease up the stack and do not lie after `now`. */
  ghost predicate Nested(stack: seq<Frame>, now: int) {
    (forall i, j :: 0 <= i < j < |stack| ==> stack[i].cycles <= stack[j].cycles) &&
    forall i :: 0 <= i < |stack| ==> stack[i].cycles <= now
  }

  lemma {:induction false} InnerPrefix(opens: seq<Open>, n: nat, length: int, k: nat)
    requires 0 < n == |opens| - 1 && k < n
    ensures InnerFrom(opens[..n][n - 1 := opens[n - 1].(inner := opens[n - 1].inner + length)], k) ==
      InnerFrom(opens, k) - opens[n].inner + length
    decreases n - k
  {
    if k < n - 1 { InnerPrefix(opens, n, length, k + 1); } else { assert InnerFrom(opens, n) == opens[n].inner; }
  }

  /** Without running backwards nothing wraps around. */
  lemma SpanPassed(p: Profile, now: Cycles)
    requires p.stack != [] && Nested(p.stack, now)
    ensures
      var n := |p.stack| - 1;
      var time := now - p.stack[n].cycles;
      Span(p, now) == time &&
      forall k :: 0 <= k < n ==>
        Delayed(p.stack[..n], time)[k] == p.stack[k].(cycles := p.stack[k].cycles + time)
  {
    var n := |p.stack| - 1;
    var time := now - p.stack[n].cycles;
    Small(time);
    forall k | 0 <= k < n
      ensures Delayed(p.stack[..n], time)[k] == p.stack[k].(cycles := p.stack[k].cycles + time)
    {
      Small(p.stack[k].cycles + time);
    }
  }

  lemma Small(c: nat)
    requires c < LIMIT
    ensures c % LIMIT == c
  {
  }

  /** What a call costs its function: in normal mode its length less that of the calls it made. */
  function Cost(c: Closed, cumulative: bool): int { if cumulative then c.length else c.length - c.inner }

  /** The total cost, and the number, of the calls of the function at `addr`. */
  function CostOf(closed: seq<Closed>, addr: int, cumulative: bool): int {
    if closed == [] then 0
    else
      var last := closed[|closed| - 1];
      CostOf(closed[..|closed| - 1], addr, cumulative) + if last.addr == addr then Cost(last, cumulative) else 0
  }

  function CallsOf(closed: seq<Closed>, addr: int): nat {
    if closed == [] then 0
    else CallsOf(closed[..|closed| - 1], addr) + if closed[|closed| - 1].addr == addr then 1 else 0
  }

  ghost predicate Listed(funcs: seq<FuncStat>, addr: int) { exists k :: 0 <= k < |funcs| && funcs[k].addr == addr }

  /** The table of functions is what the closed calls say: every function that has returned is in it once, with its own
      total and its own number of calls. */
  ghost predicate Ledger(funcs: seq<FuncStat>, closed: seq<Closed>, cumulative: bool) {
    (forall i, j :: 0 <= i < j < |funcs| ==> funcs[i].addr != funcs[j].addr) &&
    (forall k :: 0 <= k < |funcs| ==>
      funcs[k].cum == CostOf(closed, funcs[k].addr, cumulative) && funcs[k].calls == CallsOf(closed, funcs[k].addr)) &&
    forall addr :: Listed(funcs, addr) <==> CallsOf(closed, addr) > 0
  }

  /** Charging a call that closes keeps the table right. */
  lemma ChargeLedger(funcs: seq<FuncStat>, closed: seq<Closed>, c: Closed, cumulative: bool)
    requires Ledger(funcs, closed, cumulative)
    ensures Ledger(Charge(funcs, c.addr, Cost(c, cumulative)), closed + [c], cumulative)
  {
    var time := Cost(c, cumulative);
    var now, all := Charge(funcs, c.addr, time), closed + [c];
    assert all[..|closed|] == closed;
    var k := FindFunc(funcs, c.addr, 0);
    NeverCalled(closed, c.addr, cumulative);
    forall addr
      ensures CostOf(all, addr, cumulative) == CostOf(closed, addr, cumulative) + if addr == c.addr then time else 0
      ensures CallsOf(all, addr) == CallsOf(closed, addr) + if addr == c.addr then 1 else 0
      ensures Listed(now, addr) <==> Listed(funcs, addr) || addr == c.addr
    {
      if Listed(funcs, addr) {
        var i :| 0 <= i < |funcs| && funcs[i].addr == addr;
        assert now[i].addr == addr;
      }
      assert now[k].addr == c.addr;
    }
  }

  lemma {:induction false} NeverCalled(closed: seq<Closed>, addr: int, cumulative: bool)
    ensures CallsOf(closed, addr) == 0 ==> CostOf(closed, addr, cumulative) == 0
  {
    if closed != [] { NeverCalled(closed[..|closed| - 1], addr, cumulative); }
  }

  /** The profiler's stack and table are those of the reference. */
  ghost predicate Matches(p: Profile, c: Reference, now: int, cumulative: bool) {
    Adjusted(p.stack, c.opens, cumulative) && Nested(p.stack, now) && Ledger(p.funcs, c.closed, cumulative) &&
    Sum(p.funcs) == CostOfAll(c.closed, cumulative)
  }

  /** Closing the top frame keeps the correspondence, and the time charged is what has passed since its start. */
  lemma PopCloses(p: Profile, c: Reference, now: Cycles, cumulative: bool)
    requires p.stack != [] && Matches(p, c, now, cumulative)
    ensures Matches(Pop(p, now, cumulative), Close(c, now), now, cumulative)
    ensures Span(p, now) == now - p.stack[|p.stack| - 1].cycles
  {
    hide Ledger, Sum, Adjusted, Nested, Pop, Close, Span, CostOfAll;
    PopAdjusts(p, c, now, cumulative);
    PopCharges(p, c, now, cumulative);
  }

  lemma PopAdjusts(p: Profile, c: Reference, now: Cycles, cumulative: bool)
    requires p.stack != [] && Adjusted(p.stack, c.opens, cumulative) && Nested(p.stack, now)
    ensures var q, d := Pop(p, now, cumulative), Close(c, now);
      Adjusted(q.stack, d.opens, cumulative) && Nested(q.stack, now)
    ensures Span(p, now) == now - p.stack[|p.stack| - 1].cycles
  {
    hide Charge, Delayed, Span, Nested;
    var n := |p.stack| - 1;
    assert InnerFrom(c.opens, n) == c.opens[n].inner;
    var q, d := Pop(p, now, cumulative), Close(c, now);
    SpanPassed(p, now);
    PopNests(p, now, cumulative);
    forall k | 0 <= k < n && !cumulative
      ensures q.stack[k].cycles == d.opens[k].start + InnerFrom(d.opens, k)
    {
      InnerPrefix(c.opens, n, now - c.opens[n].start, k);
    }
  }

  lemma PopNests(p: Profile, now: Cycles, cumulative: bool)
    requires p.stack != [] && Nested(p.stack, now)
    ensures Nested(Pop(p, now, cumulative).stack, now)
  {
    hide Charge, Delayed, Span;
    SpanPassed(p, now);
  }

  lemma PopCharges(p: Profile, c: Reference, now: Cycles, cumulative: bool)
    requires p.stack != [] && Matches(p, c, now, cumulative)
    ensures var q, d := Pop(p, now, cumulative), Close(c, now);
      Ledger(q.funcs, d.closed, cumulative) && Sum(q.funcs) == CostOfAll(d.closed, cumulative)
  {
    hide Charge, Delayed, Span, Ledger, Sum;
    var n := |p.stack| - 1;
    assert InnerFrom(c.opens, n) == c.opens[n].inner;
    SpanPassed(p, now);
    var o := c.opens[n];
    var last := Closed(o.addr, now - o.start, o.inner, n == 0);
    assert Close(c, now).closed == c.closed + [last];
    assert (c.closed + [last])[..|c.closed|] == c.closed;
    ChargeLedger(p.funcs, c.closed, last, cumulative);
    ChargeSum(p.funcs, last.addr, Cost(last, cumulative));
  }

  lemma {:induction false} PopsClose(p: Profile, c: Reference, i: nat, now: Cycles, cumulative: bool)
    requires i <= |p.stack| && Matches(p, c, now, cumulative)
    ensures Matches(PopTo(p, i, now, cumulative), CloseTo(c, i, now), now, cumulative)
    decreases |p.stack|
  {
    hide Matches;
    if |p.stack| > i {
      PopCloses(p, c, now, cumulative);
      SameDepth(p, c, now, cumulative);
      PopsClose(Pop(p, now, cumulative), Close(c, now), i, now, cumulative);
    }
    SameDepth(p, c, now, cumulative);
  }

  lemma SameDepth(p: Profile, c: Reference, now: Cycles, cumulative: bool)
    requires Matches(p, c, now, cumulative)
    ensures |p.stack| == |c.opens|
  {
  }

  lemma {:induction false} InnerPushed(opens: seq<Open>, o: Open, k: nat)
    requires k <= |opens| && o.inner == 0
    ensures InnerFrom(opens + [o], k) == InnerFrom(opens, k)
    decreases |opens| - k
  {
    if k < |opens| { InnerPushed(opens, o, k + 1); } else { assert InnerFrom(opens + [o], k + 1) == 0; }
  }

  /** A new call starts now and has made no calls. */
  lemma PushOpens(stack: seq<Frame>, opens: seq<Open>, cycles: Cycles, raddr: int, addr: int, now: int,
    cumulative: bool)
    requires Adjusted(stack, opens, cumulative) && Nested(stack, now) && (stack != [] ==> now <= cycles)
    ensures Adjusted(stack + [Frame(cycles, raddr, addr)], opens + [Open(cycles, 0, raddr, addr)], cumulative)
    ensures Nested(stack + [Frame(cycles, raddr, addr)], cycles)
  {
    hide InnerFrom;
    var o := Open(cycles, 0, raddr, addr);
    forall k | 0 <= k <= |opens|
      ensures InnerFrom(opens + [o], k) == InnerFrom(opens, k)
    {
      InnerPushed(opens, o, k);
    }
    NoInner(opens);
  }

  lemma NoInner(opens: seq<Open>)
    ensures InnerFrom(opens, |opens|) == 0
  {
  }

  /** Whatever calls and returns, matched or not: as long as time does not run backwards every function that has
      returned is in the table once, with the number of its calls and, in normal mode, the sum of their lengths less
      those of the calls they made, in cumulative mode the sum of their lengths. */
  lemma {:induction false} TimesCharged(records: seq<Record>, cumulative: bool)
    requires Timely(records)
    ensures Matches(Run(records, cumulative), Account(records),
      if records == [] then 0 else records[|records| - 1].cycles, cumulative)
  {
    if records != [] {
      var n := |records| - 1;
      var before, r := records[..n], records[n];
      hide PopTo, CloseTo, FindFrame, InnerFrom, Ledger, Sum, CostOfAll;
      TimesCharged(before, cumulative);
      var p, c := Run(before, cumulative), Account(before);
      assert n > 0 ==> before[n - 1].cycles <= r.cycles;
      assert n == 0 ==> p.stack == [];
      match r
      case Enter(cycles, raddr, addr) =>
        PushOpens(p.stack, c.opens, cycles, raddr, addr, if n == 0 then 0 else before[n - 1].cycles, cumulative);
      case Leave(cycles, raddr) =>
        assert Raddrs(p.stack) == OpenRaddrs(c.opens);
        var i := FindFrame(Raddrs(p.stack), raddr, |p.stack|);
        if i >= 0 { PopsClose(p, c, i, cycles, cumulative); }
    }
  }

  // ---- Conservation ----

  function Sum(funcs: seq<FuncStat>): int { if funcs == [] then 0
    else Sum(funcs[..|funcs| - 1]) + funcs[|funcs| - 1].cum }

  lemma {:induction false} SumUpdate(funcs: seq<FuncStat>, k: nat, f: FuncStat)
    requires k < |funcs|
    ensures Sum(funcs[k := f]) == Sum(funcs) - funcs[k].cum + f.cum
  {
    var n := |funcs| - 1;
    if k < n {
      assert funcs[k := f][..n] == funcs[..n][k := f];
      SumUpdate(funcs[..n], k, f);
    } else {
      assert funcs[k := f][..n] == funcs[..n];
    }
  }

  lemma ChargeSum(funcs: seq<FuncStat>, addr: int, time: int)
    ensures Sum(Charge(funcs, addr, time)) == Sum(funcs) + time
  {
    var k := FindFunc(funcs, addr, 0);
    if k < |funcs| {
      SumUpdate(funcs, k, FuncStat(addr, funcs[k].cum + time, funcs[k].calls + 1));
    } else {
      assert (funcs + [FuncStat(addr, time, 1)])[..|funcs|] == funcs;
    }
  }

  function CostOfAll(closed: seq<Closed>, cumulative: bool): int {
    if closed == [] then 0 else CostOfAll(closed[..|closed| - 1], cumulative) + Cost(closed[|closed| - 1], cumulative)
  }

  /** The total length of the calls that nothing called. */
  function Outer(closed: seq<Closed>): int {
    if closed == [] then 0
    else Outer(closed[..|closed| - 1]) + if closed[|closed| - 1].outermost then closed[|closed| - 1].length else 0
  }

  lemma CloseSum(c: Reference, now: int)
    requires c.opens != []
    ensures var d := Close(c, now);
      CostOfAll(d.closed, false) - Outer(d.closed) - InnerFrom(d.opens, 0) ==
      CostOfAll(c.closed, false) - Outer(c.closed) - InnerFrom(c.opens, 0)
  {
    var n := |c.opens| - 1;
    var d := Close(c, now);
    assert d.closed[..|c.closed|] == c.closed;
    if n > 0 { InnerPrefix(c.opens, n, now - c.opens[n].start, 0); }
  }

  lemma {:induction false} CloseToSum(c: Reference, i: nat, now: int)
    requires i <= |c.opens|
    ensures var d := CloseTo(c, i, now);
      CostOfAll(d.closed, false) - Outer(d.closed) - InnerFrom(d.opens, 0) ==
      CostOfAll(c.closed, false) - Outer(c.closed) - InnerFrom(c.opens, 0)
    decreases |c.opens|
  {
    if |c.opens| > i {
      CloseSum(c, now);
      CloseToSum(Close(c, now), i, now);
    }
  }

  lemma {:induction false} AccountSum(records: seq<Record>)
    ensures var c := Account(records); CostOfAll(c.closed, false) == Outer(c.closed) + InnerFrom(c.opens, 0)
  {
    if records != [] {
      var n := |records| - 1;
      AccountSum(records[..n]);
      var c := Account(records[..n]);
      match records[n]
      case Enter(cycles, raddr, addr) => InnerPushed(c.opens, Open(cycles, 0, raddr, addr), 0);
      case Leave(cycles, raddr) =>
        var i := FindFrame(OpenRaddrs(c.opens), raddr, |c.opens|);
        if i >= 0 { CloseToSum(c, i, cycles); }
    }
  }

  /** No cycle is lost or counted twice: in normal mode all charges together are the closed outermost calls and what the
      bottom frame's start has been moved by; once the stack is empty they are the outermost calls. */
  lemma Conserved(records: seq<Record>)
    requires Timely(records)
    ensures var p, c := Run(records, false), Account(records);
      |p.stack| == |c.opens| &&
      Sum(p.funcs) == Outer(c.closed) + if p.stack == [] then 0 else p.stack[0].cycles - c.opens[0].start
  {
    hide Ledger, Sum, CostOfAll, Outer;
    TimesCharged(records, false);
    AccountSum(records);
  }

  /** Where time runs backwards by one cycle a function is charged almost 2^32 of them. */
  lemma BackwardsCharge(raddr: int, addr: int)
    ensures Run([Enter(1, raddr, addr), Leave(0, raddr)], false) == Profile([], [FuncStat(addr, LIMIT - 1, 1)])
  {
    var enter, leave := Enter(1, raddr, addr), Leave(0, raddr);
    assert [enter, leave][..1] == [enter] && [enter][..0] == [];
    var p := Run([enter], false);
    assert Run([], false) == Profile([], []);
    assert p == Step(Run([enter][..0], false), enter, false);
    assert p == Profile([Frame(1, raddr, addr)], []);
    assert FindFrame(Raddrs(p.stack), raddr, 1) == 0;
    assert Pop(p, 0, false) == Profile([], [FuncStat(addr, LIMIT - 1, 1)]);
    assert PopTo(p, 0, 0, false) == Pop(p, 0, false);
    assert Run([enter, leave], false) == Step(Run([enter, leave][..1], false), leave, false);
  }
}
