/** The record loop of prof_acquire, on the stack and function arrays. */
module Profiler {
  import opened ProfileSpec

  class Profiling {
    const stack: array<Frame>
    var nstack: nat
    const funcs: array<FuncStat>
    var nfuncs: nat
    /** Time of the last record. */
    var cycles: int
    var maxstack: nat
    var ntotcalls: nat
    var nfunccalls: nat
    const cumulative: bool
    const quiet: bool

    constructor (maxStack: nat, maxFuncs: nat, cumulative: bool, quiet: bool)
      ensures Room(0) && View() == Profile([], []) && nfunccalls == ntotcalls == maxstack == 0 && fresh(stack) &&
        fresh(funcs)
      ensures stack.Length == maxStack && funcs.Length == maxFuncs && this.cumulative == cumulative &&
        this.quiet == quiet
    {
      stack := new Frame[maxStack](_ => Frame(0, 0, 0));
      funcs := new FuncStat[maxFuncs](_ => FuncStat(0, 0, 0));
      nstack, nfuncs, cycles, maxstack, ntotcalls, nfunccalls := 0, 0, 0, 0, 0, 0;
      this.cumulative, this.quiet := cumulative, quiet;
    }

    /** The arrays have room for `n` more calls. */
    ghost predicate Room(n: nat)
      reads this
    {
      nstack + n <= stack.Length && nfuncs + nstack + n <= funcs.Length
    }

    ghost function View(): Profile
      requires nstack <= stack.Length && nfuncs <= funcs.Length
      reads this, stack, funcs
    {
      Profile(stack[..nstack], funcs[..nfuncs])
    }

    /** A closed call is charged to its function, which is added if it is new. */
    method ChargeFunc(addr: int, time: int)
      requires nfuncs < funcs.Length
      modifies funcs, this`nfuncs, this`nfunccalls
      ensures nfuncs <= funcs.Length && nfuncs <= old(nfuncs) + 1 && nfunccalls == old(nfunccalls) + 1
      ensures funcs[..nfuncs] == Charge(old(funcs[..nfuncs]), addr, time)
    {
      ghost var was := funcs[..nfuncs];
      var j := 0;
      while j < nfuncs && funcs[j].addr != addr
        invariant j <= nfuncs && FindFunc(was, addr, j) == FindFunc(was, addr, 0)
      {
        j := j + 1;
      }
      if j < nfuncs {
        funcs[j] := FuncStat(addr, funcs[j].cum + time, funcs[j].calls + 1);
      } else {
        funcs[nfuncs] := FuncStat(addr, time, 1);
        nfuncs := nfuncs + 1;
      }
      nfunccalls := nfunccalls + 1;
    }

    /** The frames below start later. */
    method DelayAll(time: Cycles)
      requires nstack <= stack.Length
      modifies stack
      ensures stack[..nstack] == Delayed(old(stack[..nstack]), time)
    {
      for j := 0 to nstack
        invariant forall k :: 0 <= k < nstack ==>
          stack[k] == if k < j then old(stack[k]).(cycles := (old(stack[k]).cycles + time) % LIMIT) else old(stack[k])
      {
        stack[j] := stack[j].(cycles := (stack[j].cycles + time) % LIMIT);
      }
    }

    /** The top frame is closed. */
    method PopFrame(now: Cycles)
      requires Room(0) && nstack > 0
      modifies this`nstack, this`nfuncs, this`nfunccalls, stack, funcs
      ensures Room(0) && nstack == old(nstack) - 1 && View() == Pop(old(View()), now, cumulative)
      ensures nfuncs + nstack <= old(nfuncs + nstack) && nfunccalls == old(nfunccalls) + 1
    {
      ghost var p := View();
      nstack := nstack - 1;
      var time: int := (now - stack[nstack].cycles) % LIMIT;
      if !quiet && time < 0 {
        time := 0;
      }
      assert time == Span(p, now);
      assert stack[..nstack] == p.stack[..nstack];
      var addr := stack[nstack].addr;
      if !cumulative {
        DelayAll(time);
      }
      ChargeFunc(addr, time);
    }

    /** A '+' line. */
    method EnterFunc(now: Cycles, raddr: int, addr: int)
      requires Room(1)
      modifies this`nstack, this`cycles, this`maxstack, this`ntotcalls, stack
      ensures Room(0) && nstack == old(nstack) + 1 &&
        View() == Step(old(View()), Enter(now, raddr, addr), cumulative)
      ensures ntotcalls == old(ntotcalls) + 1 &&
        maxstack == (if nstack > old(maxstack) then nstack else old(maxstack)) && cycles == now
    {
      stack[nstack] := Frame(now, raddr, addr);
      cycles := now;
      nstack := nstack + 1;
      if nstack > maxstack {
        maxstack := nstack;
      }
      ntotcalls := ntotcalls + 1;
    }

    /** The topmost frame with this return address; -1 if there is none. */
    method FindReturn(raddr: int) returns (i: int)
      requires Room(0)
      ensures i == FindFrame(Raddrs(stack[..nstack]), raddr, nstack)
    {
      ghost var raddrs := Raddrs(stack[..nstack]);
      i := nstack - 1;
      while i >= 0 && stack[i].raddr != raddr
        invariant -1 <= i < nstack && FindFrame(raddrs, raddr, i + 1) == FindFrame(raddrs, raddr, nstack)
      {
        i := i - 1;
      }
    }

    /** The frames from `i` up are closed, the top one first. */
    method PopFrames(i: nat, now: Cycles)
      requires Room(0) && i <= nstack
      modifies this`nstack, this`nfuncs, this`nfunccalls, stack, funcs
      ensures Room(0) && nstack == i && View() == PopTo(old(View()), i, now, cumulative)
      ensures nfuncs + nstack <= old(nfuncs + nstack) && nfunccalls == old(nfunccalls) + (old(nstack) - nstack)
    {
      hide Pop;
      ghost var p := View();
      while nstack > i
        invariant i <= nstack <= old(nstack) && Room(0)
        invariant nfuncs + nstack <= old(nfuncs + nstack) && nfunccalls == old(nfunccalls) + (old(nstack) - nstack)
        invariant PopTo(View(), i, now, cumulative) == PopTo(p, i, now, cumulative)
      {
        PopFrame(now);
      }
    }

    /** A '-' line. */
    method LeaveFunc(now: Cycles, raddr: int)
      requires Room(0)
      modifies this`nstack, this`nfuncs, this`nfunccalls, this`cycles, stack, funcs
      ensures Room(0) && View() == Step(old(View()), Leave(now, raddr), cumulative) && cycles == now
      ensures nstack <= old(nstack) && nfuncs + nstack <= old(nfuncs + nstack)
      ensures nfunccalls == old(nfunccalls) + (old(nstack) - nstack)
    {
      hide PopTo, FindFrame;
      cycles := now;
      var i := FindReturn(raddr);
      if i >= 0 {
        PopFrames(i, now);
      }
    }

    /** The record loop. */
    method Acquire(records: seq<Record>)
      requires Room(|records|) && View() == Profile([], []) && nfunccalls == 0
      modifies this, stack, funcs
      ensures Room(0) && View() == Run(records, cumulative)
      ensures Timely(records) ==> Ledger(funcs[..nfuncs], Account(records).closed, cumulative)
    {
      hide Ledger, Sum, Charge, Run;
      NothingRun(cumulative);
      for i := 0 to |records|
        invariant Room(|records| - i) && View() == Run(records[..i], cumulative)
      {
        RunStep(records, i, cumulative);
        match records[i]
        case Enter(now, raddr, addr) => EnterFunc(now, raddr, addr);
        case Leave(now, raddr) => LeaveFunc(now, raddr);
      }
      assert records[..|records|] == records;
      if Timely(records) { TimesCharged(records, cumulative); }
    }
  }
}
