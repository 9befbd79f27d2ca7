/** set_func_deps: which of the loaded functions can be compiled, and what each of them calls. */
module CucFuncDeps {

  /** Start address of every function, and the addresses it calls in instruction order. */
  datatype Program = Program(start: seq<int>, calls: seq<seq<int>>)

  ghost predicate WellFormed(p: Program) {
    |p.start| == |p.calls| && forall i, j :: 0 <= i < j < |p.start| ==> p.start[i] != p.start[j]
  }

  predicate Calls(p: Program, f: nat, j: nat)
    requires f < |p.calls| && j < |p.start|
  {
    p.start[j] in p.calls[f]
  }

  /** The call can be resolved within `s`, to another function. */
  ghost predicate Resolved(p: Program, s: set<nat>, f: nat, addr: int) {
    exists j :: j in s && j < |p.start| && j != f && p.start[j] == addr
  }

  /** Every call of a member leads to another member, and calls lead down `level`, so there is no cycle. */
  ghost predicate Compilable(p: Program, s: set<nat>, level: seq<nat>)
    requires WellFormed(p)
  {
    |level| == |p.start| && (forall f :: f in s ==> f < |p.start|) &&
    (forall f, addr :: f in s && addr in p.calls[f] ==> Resolved(p, s, f, addr)) &&
    (forall f, j :: f in s && j in s && Calls(p, f, j) ==> level[j] < level[f])
  }

  /** A function with a call that leads nowhere, or to itself, is in no compilable set. */
  lemma UnresolvedOut(p: Program, alive: set<nat>, f: nat, addr: int, s: set<nat>, level: seq<nat>)
    requires WellFormed(p) && Compilable(p, s, level) && s <= alive && f < |p.start|
    requires addr in p.calls[f] && !Resolved(p, alive, f, addr)
    ensures f !in s
  {
  }

  /** A function that calls one outside every compilable set is in none either; so functions left over when no more can
      be marked, each of which calls another such, are in none. */
  lemma {:induction false} StuckOut(p: Program, stuck: set<nat>, s: set<nat>, level: seq<nat>, f: nat)
    requires WellFormed(p) && Compilable(p, s, level) && (forall g :: g in stuck ==> CallsInto(p, g, stuck))
    requires f in stuck
    ensures f !in s
    decreases if f < |level| then level[f] else 0
  {
    if f in s {
      var j := CalleeIn(p, stuck, s, level, f);
      StuckOut(p, stuck, s, level, j);
    }
  }

  ghost predicate CallsInto(p: Program, f: nat, stuck: set<nat>)
    requires WellFormed(p)
  {
    f < |p.start| && exists j :: j in stuck && j < |p.start| && Calls(p, f, j)
  }

  lemma CalleeIn(p: Program, stuck: set<nat>, s: set<nat>, level: seq<nat>, f: nat) returns (j: nat)
    requires WellFormed(p) && Compilable(p, s, level) && f in s && CallsInto(p, f, stuck)
    ensures j in stuck && j in s && level[j] < level[f]
  {
    j :| j in stuck && j < |p.start| && Calls(p, f, j);
    assert Resolved(p, s, f, p.start[j]);
    var k :| k in s && k < |p.start| && k != f && p.start[k] == p.start[j];
    assert k == j;
  }

  class Functions {
    const p: Program
    /** Is the function still there? */
    const func: array<bool>
    /** The functions that a function calls. */
    const fdeps: array<seq<nat>>
    const tmp: array<bool>

    ghost predicate Valid()
      reads func, fdeps, tmp
    {
      WellFormed(p) && func.Length == fdeps.Length == tmp.Length == |p.start| && func != tmp
    }

    ghost function Alive(): (s: set<nat>)
      reads func
    {
      set f: nat | f < func.Length && func[f]
    }

    constructor (p: Program)
      requires WellFormed(p)
      ensures Valid() && this.p == p && (forall f :: 0 <= f < |p.start| ==> func[f]) && fresh(func) && fresh(fdeps) &&
        fresh(tmp)
    {
      this.p := p;
      var n := |p.start|;
      func := new bool[n](_ => true);
      fdeps := new seq<nat>[n](_ => []);
      tmp := new bool[n](_ => false);
    }

    /** The first function that starts at `addr`; the number of functions if there is none. */
    method FindFunction(addr: int) returns (j: nat)
      requires Valid()
      ensures j <= |p.start| && (j < |p.start| ==> func[j] && p.start[j] == addr)
      ensures j == |p.start| ==> forall k :: k in Alive() ==> p.start[k] != addr
    {
      j := 0;
      while j < |p.start| && !(func[j] && p.start[j] == addr)
        invariant j <= |p.start| && forall k :: 0 <= k < j ==> !(func[k] && p.start[k] == addr)
      {
        j := j + 1;
      }
    }

    /** Counts the calls of `f` by callee, up to one that leads nowhere or to `f` itself. */
    method CountCalls(f: nat) returns (ok: bool, fused: array<nat>)
      requires Valid() && f < |p.start| && func[f]
      ensures fresh(fused) && fused.Length == |p.start|
      ensures ok ==> forall addr :: addr in p.calls[f] ==> Resolved(p, Alive(), f, addr)
      ensures ok ==> forall j :: 0 <= j < |p.start| ==> (fused[j] > 0 <==> func[j] && Calls(p, f, j))
      ensures !ok ==> exists addr :: addr in p.calls[f] && !Resolved(p, Alive(), f, addr)
    {
      fused := new nat[|p.start|](_ => 0);
      var calls := p.calls[f];
      for i := 0 to |calls|
        invariant forall k :: 0 <= k < i ==> Resolved(p, Alive(), f, calls[k])
        invariant forall j :: 0 <= j < |p.start| ==> (fused[j] > 0 <==> func[j] && p.start[j] in calls[..i])
      {
        var j := FindFunction(calls[i]);
        assert calls[..i + 1] == calls[..i] + [calls[i]];
        if j >= |p.start| {
          assert !Resolved(p, Alive(), f, calls[i]);
          return false, fused;
        } else if f == j {
          assert !Resolved(p, Alive(), f, calls[i]);
          return false, fused;
        }
        assert j in Alive();
        fused[j] := fused[j] + 1;
      }
      assert calls[..|calls|] == calls;
      ok := true;
    }

    /** The list of functions with a count, in order. */
    method ListUsed(fused: array<nat>) returns (deps: seq<nat>)
      ensures (forall j: nat :: j in deps <==> j < fused.Length && fused[j] > 0) && Ascending(deps)
    {
      deps := [];
      for i := 0 to fused.Length
        invariant (forall j: nat :: j in deps <==> j < i && fused[j] > 0) && Ascending(deps)
      {
        if fused[i] > 0 {
          assert forall k :: 0 <= k < |deps| ==> deps[k] in deps;
          deps := deps + [i];
        }
      }
    }

    ghost predicate Ascending(s: seq<nat>) { forall i, j :: 0 <= i < j < |s| ==> s[i] < s[j] }

    /** The list of `f` holds exactly the functions it calls, each once. */
    ghost predicate DepsOf(f: nat)
      requires Valid() && f < |p.start|
      reads func, fdeps, tmp
    {
      Ascending(fdeps[f]) && (forall j :: j in fdeps[f] <==> j in Alive() && j < |p.start| && Calls(p, f, j)) &&
      forall addr :: addr in p.calls[f] ==> Resolved(p, Alive(), f, addr)
    }

    /** One pass over the functions; it stops when one had to be removed. */
    method BuildDeps() returns (removed: bool)
      requires Valid()
      modifies func, fdeps
      ensures Valid()
      ensures !removed ==> Alive() == old(Alive()) && forall f :: f in Alive() ==> DepsOf(f)
      ensures removed ==> Alive() < old(Alive())
      ensures removed ==> forall s, level :: Compilable(p, s, level) && s <= old(Alive()) ==> s <= Alive()
    {
      for f := 0 to |p.start|
        invariant Alive() == old(Alive()) && forall g :: g in Alive() && g < f ==> DepsOf(g)
      {
        if func[f] {
          var ok, fused := CountCalls(f);
          if !ok {
            Remove(f);
            return true;
          }
          fdeps[f] := ListUsed(fused);
        }
      }
      removed := false;
    }

    method Remove(f: nat)
      requires Valid() && f < |p.start| && func[f]
      requires exists addr :: addr in p.calls[f] && !Resolved(p, Alive(), f, addr)
      modifies func
      ensures Valid() && Alive() == old(Alive()) - {f}
      ensures forall s, level :: Compilable(p, s, level) && s <= old(Alive()) ==> s <= Alive()
    {
      ghost var addr :| addr in p.calls[f] && !Resolved(p, Alive(), f, addr);
      forall s, level | Compilable(p, s, level) && s <= Alive()
        ensures f !in s
      {
        UnresolvedOut(p, Alive(), f, addr, s, level);
      }
      func[f] := false;
    }

    ghost predicate Marked(f: nat)
      reads func, tmp
    {
      f < func.Length && f < tmp.Length && func[f] && tmp[f]
    }

    /** Every marked function calls only functions that were marked before it. */
    ghost predicate MarksLayered(level: seq<nat>, n: nat)
      requires Valid()
      reads func, fdeps, tmp
    {
      |level| == |p.start| && (forall f: nat :: Marked(f) ==> level[f] < n) &&
      forall f: nat, j: nat :: Marked(f) && j in fdeps[f] ==> Marked(j) && level[j] < level[f]
    }

    ghost predicate Ready()
      requires Valid()
      reads func, fdeps, tmp
    {
      forall f :: f in Alive() ==> DepsOf(f)
    }

    /** Some function that `f` calls is not marked. */
    ghost predicate Waits(f: nat)
      requires Valid() && f < |p.start|
      reads func, fdeps, tmp
    {
      exists j :: j in fdeps[f] && !Marked(j)
    }

    method AllDepsMarked(f: nat) returns (o: bool)
      requires Valid() && Ready() && f in Alive()
      ensures o ==> forall j :: j in fdeps[f] ==> Marked(j)
      ensures !o ==> Waits(f)
    {
      o := true;
      assert DepsOf(f);
      for i := 0 to |fdeps[f]|
        invariant forall k :: 0 <= k < i ==> Marked(fdeps[f][k])
      {
        assert fdeps[f][i] in fdeps[f];
        if !tmp[fdeps[f][i]] {
          assert !Marked(fdeps[f][i]);
          return false;
        }
      }
    }

    ghost function Unmarked(): (s: set<nat>)
      requires Valid()
      reads func, tmp, fdeps
    {
      set f: nat | f < func.Length && func[f] && !tmp[f]
    }

    /** Functions are marked as soon as everything they call is, until nothing changes. */
    method MarkLayers() returns (ghost level: seq<nat>)
      requires Valid() && Ready()
      modifies tmp
      ensures Ready() && exists n :: MarksLayered(level, n)
      ensures forall f :: f in Alive() && !tmp[f] ==> Waits(f)
    {
      for f := 0 to |p.start|
        invariant Ready() && forall g :: 0 <= g < f && func[g] ==> !tmp[g]
      {
        if func[f] {
          tmp[f] := false;
        }
      }
      level := seq(|p.start|, _ => 0);
      ghost var n := 0;
      var change := true;
      while change
        invariant Ready() && MarksLayered(level, n)
        invariant !change ==> forall f :: f in Alive() && !tmp[f] ==> Waits(f)
        decreases Unmarked(), change
      {
        change, level, n := MarkPass(level, n);
      }
    }

    method MarkOne(f: nat, ghost level: seq<nat>, ghost n: nat) returns (ghost level': seq<nat>)
      requires Valid() && Ready() && MarksLayered(level, n) && f in Alive() && !tmp[f]
      requires forall j :: j in fdeps[f] ==> Marked(j)
      modifies tmp
      ensures Ready() && MarksLayered(level', n + 1) && Unmarked() == old(Unmarked()) - {f}
    {
      level' := level[f := n];
      assert DepsOf(f);
      tmp[f] := true;
      forall g: nat, j: nat | Marked(g) && j in fdeps[g]
        ensures Marked(j) && level'[j] < level'[g]
      {
        assert g != f ==> old(Marked(g));
        assert old(Marked(j));
      }
    }

    method MarkPass(ghost level: seq<nat>, ghost n: nat) returns (change: bool, ghost level': seq<nat>, ghost n': nat)
      requires Valid() && Ready() && MarksLayered(level, n)
      modifies tmp
      ensures Ready() && MarksLayered(level', n')
      ensures if change then Unmarked() < old(Unmarked()) else Unmarked() == old(Unmarked())
      ensures !change ==> forall f :: f in Alive() && !tmp[f] ==> Waits(f)
    {
      change, level', n' := false, level, n;
      for f := 0 to |p.start|
        invariant Ready() && MarksLayered(level', n')
        invariant if change then Unmarked() < old(Unmarked()) else Unmarked() == old(Unmarked())
        invariant !change ==> forall g :: g in Alive() && g < f && !tmp[g] ==> Waits(g)
      {
        if func[f] && !tmp[f] {
          assert f in Unmarked();
          var o := AllDepsMarked(f);
          if o {
            level' := MarkOne(f, level', n');
            n', change := n' + 1, true;
          }
        }
      }
    }

    /** Everything that could not be marked is removed. */
    method RemoveUnmarked() returns (change: bool)
      requires Valid()
      modifies func
      ensures Alive() == old(Alive()) - old(Unmarked())
      ensures change <==> old(Unmarked()) != {}
    {
      change := false;
      ghost var unmarked := Unmarked();
      for f := 0 to |p.start|
        invariant forall g :: 0 <= g < |p.start| ==> func[g] == (old(func[g]) && (g < f ==> g !in unmarked))
        invariant change <==> exists g: nat :: g < f && g in unmarked
      {
        if func[f] && !tmp[f] {
          assert f in unmarked;
          func[f] := false;
          change := true;
        }
      }
    }

    /** set_func_deps: what is left is the greatest compilable set of the functions there were, and every function that
        is left lists exactly the functions it calls. */
    method SetFuncDeps() returns (ghost level: seq<nat>)
      requires Valid()
      modifies func, fdeps, tmp
      ensures Valid() && Alive() <= old(Alive()) && Compilable(p, Alive(), level)
      ensures forall s, l :: Compilable(p, s, l) && s <= old(Alive()) ==> s <= Alive()
      ensures forall f :: f in Alive() ==> DepsOf(f)
    {
      ghost var start := Alive();
      var again := true;
      level := [];
      while again
        invariant Alive() <= start && forall s, l :: Compilable(p, s, l) && s <= start ==> s <= Alive()
        invariant !again ==> Compilable(p, Alive(), level) && Ready()
        decreases Alive(), again
      {
        again := BuildDeps();
        if !again {
          again, level := DropCycles();
        }
      }
    }

    /** The loop detection: functions on a cycle, and those that call into one, are removed. */
    method DropCycles() returns (change: bool, ghost level: seq<nat>)
      requires Valid() && Ready()
      modifies func, tmp
      ensures Valid() && forall s, l :: Compilable(p, s, l) && s <= old(Alive()) ==> s <= Alive()
      ensures if change then Alive() < old(Alive()) else Alive() == old(Alive())
      ensures !change ==> Compilable(p, Alive(), level) && Ready()
    {
      hide Compilable, Waits;
      level := MarkLayers();
      ghost var alive, stuck := Alive(), Unmarked();
      forall g | g in stuck
        ensures CallsInto(p, g, stuck)
      {
        StuckCalls(g);
      }
      forall s, l, f | Compilable(p, s, l) && s <= alive && f in stuck
        ensures f !in s
      {
        StuckOut(p, stuck, s, l, f);
      }
      if stuck == {} { MarkedCompilable(level); }
      change := RemoveUnmarked();
    }

    lemma StuckCalls(g: nat)
      requires Valid() && Ready() && g in Unmarked() && Waits(g)
      ensures CallsInto(p, g, Unmarked())
    {
      assert DepsOf(g);
      var j: nat :| j in fdeps[g] && !Marked(j);
      assert j in Unmarked();
    }

    /** When everything could be marked, the order of marking shows that there is no cycle. */
    lemma MarkedCompilable(level: seq<nat>)
      requires Valid() && Ready() && Unmarked() == {} && exists n :: MarksLayered(level, n)
      ensures Compilable(p, Alive(), level)
    {
      forall f | f in Alive()
        ensures Marked(f) && DepsOf(f)
      {
        assert f !in Unmarked();
      }
    }
  }
}
