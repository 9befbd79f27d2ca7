/** Three functions that the memory scheduler reorders with a different outcome: one whose accesses wrap around, one
    where only the end of an offset range does, and one that is scheduled without its data dependencies. */
module CucReordered {
  import opened CucInsn
  import opened CucFunc
  import opened CucNops
  import opened CucDead
  import opened CucMemory
  import opened CucSchedule
  import opened CucDataDep
  import opened CucFlow
  import CucExec

  /** One block of four instructions without dependencies and marks, two of them accesses that do not conflict. */
  ghost predicate Example(bbs: Blocks, x: int, y: int) {
    |bbs| == 1 && |bbs[0]| == 4 && 0 <= x < y < 4 && MemOk(bbs) && RefsOk(bbs) && AllMemRefs(bbs) == [x, y] &&
    (forall r :: 0 <= r < 4 ==>
      bbs[0][r].dep == [] && FFlag1 !in bbs[0][r].ty &&
      (IsMem(bbs[0][r]) <==> r == x || r == y)) &&
    MemInsn(bbs, bbs[0][x]) && MemInsn(bbs, bbs[0][y]) &&
    !Conflict(bbs, bbs[0][y], bbs[0][x], MoWeak) && Before(bbs, bbs[0][y], bbs[0][x])
  }

  lemma FourRefs(bbs: Blocks)
    requires |bbs| == 1 && |bbs[0]| == 4
    ensures Sized(bbs) && forall r :: IsRef(bbs, r) <==> 0 <= r < 4
    ensures forall r :: 0 <= r < 4 ==> At(bbs, r) == bbs[0][r] && RefBb(r) == 0
  {
  }

  lemma FourMemRefs(bbs: Blocks)
    requires |bbs| == 1 && |bbs[0]| == 4
    ensures AllMemRefs(bbs) ==
      (if IsMem(bbs[0][0]) then [0] else []) + (if IsMem(bbs[0][1]) then [1] else []) +
      (if IsMem(bbs[0][2]) then [2] else []) + (if IsMem(bbs[0][3]) then [3] else [])
  {
    hide IsMem;
    assert MemRefs(bbs, 0, 0) == [];
    assert MemRefs(bbs, 0, 1) == if IsMem(bbs[0][0]) then [0] else [];
    assert MemRefs(bbs, 0, 2) == MemRefs(bbs, 0, 1) + if IsMem(bbs[0][1]) then [1] else [];
    assert MemRefs(bbs, 0, 3) == MemRefs(bbs, 0, 2) + if IsMem(bbs[0][2]) then [2] else [];
    assert MemRefs(bbs, 0, 4) == MemRefs(bbs, 0, 3) + if IsMem(bbs[0][3]) then [3] else [];
  }

  /** No memory dependencies are added. */
  lemma NothingAdded(bbs: Blocks, x: int, y: int)
    requires Example(bbs, x, y)
    ensures WithMemoryDeps(bbs, MoWeak) == bbs
  {
    hide RefBb, RefI, MakeRef, MemInsn, AddConflicts, Conflict, WithMemoryDeps, MemRefs, Before;
    MemoryDepsShape(bbs, MoWeak);
    FourRefs(bbs);
    forall r | IsRef(bbs, r)
      ensures Dependent(bbs, r, MoWeak) == At(bbs, r)
    {
      var dep := Dependent(bbs, r, MoWeak).dep;
      if dep != [] {
        DependentValid(bbs, r, dep[0], MoWeak);
        DependentDeps(bbs, r, dep[0], MoWeak);
        assert false;
      }
    }
    SameBlocks(bbs, WithMemoryDeps(bbs, MoWeak));
  }

  /** The second access goes first if it depends on neither. */
  lemma SecondFirst(bbs: Blocks, q: Blocks, x: int, y: int)
    requires Example(bbs, x, y) && SameButDeps(bbs, q) && MemOk(q) && AllMem(q, AllMemRefs(q))
    requires AllMemRefs(q) == [x, y] && IsRef(q, y) && x !in At(q, y).dep && y !in At(q, y).dep
    ensures Scheduled(q) == [y, x]
  {
    hide Before, RefBb, RefI, MemRefs, MemInsn, AllMemRefs, Stale, Conflict, Flagged;
    FourRefs(bbs);
    FourRefs(q);
    ButDepsShape(bbs, q);
    ShapeConflict(bbs, q, At(bbs, y), At(bbs, x), At(q, y), At(q, x), MoWeak);
    NotStale(bbs, q, x, y);
    var s := [x, y];
    var flagged := Stale(q) + Unscheduled(s, 0);
    assert IsAccess(q, s[0]) && IsAccess(q, s[1]);
    assert !Blocked(q, flagged, y);
    assert Pick(q, flagged, s, 2, 1) == 1;
    assert Pick(q, flagged, s, 1, 0) == 1;
    assert MoveUp(s, 0, 1) == [y, x] && MoveUp([y, x], 1, 1) == [y, x];
    assert ScheduleFrom(q, Stale(q), [y, x], 2) == [y, x];
    assert Pick(q, Stale(q) + Unscheduled([y, x], 1), [y, x], 2, 1) == 1;
    assert ScheduleFrom(q, Stale(q), [y, x], 1) == [y, x];
  }

  /** Accesses that use no other access are scheduled the other way round. */
  lemma ExampleScheduled(bbs: Blocks, x: int, y: int)
    requires Example(bbs, x, y) && forall r, d :: 0 <= r < 4 && Uses(bbs[0][r], d) ==> d != x && d != y
    ensures WeakSchedule(bbs) == [y, x]
  {
    hide RefBb, RefI, MemInsn, Conflict, Before, AllMemRefs, Scheduled, FedComplete, DepsComplete, Uses;
    FourRefs(bbs);
    NothingAdded(bbs, x, y);
    PreparedComplete(bbs, MoWeak);
    PreparedSame(bbs, MoWeak);
    DataDepsWithin(bbs, 1, 0, (r, d) => d != x && d != y);
    SecondFirst(bbs, Prepared(bbs, MoWeak), x, y);
  }

  lemma NotStale(bbs: Blocks, q: Blocks, x: int, y: int)
    requires Example(bbs, x, y) && SameButDeps(bbs, q)
    ensures Stale(q) == {}
  {
    hide MemRefs, MemInsn, AllMemRefs, Conflict, Before;
    FourRefs(bbs);
    FourRefs(q);
    assert FlagSet(FFlag1, q) == {};
  }

  lemma TwoRun(bbs: Blocks, x: int, y: int, env: Env, m: Memory)
    requires IsAccess(bbs, x) && IsAccess(bbs, y) && RefBb(x) == RefBb(y) == 0
    ensures AllMem(bbs, [x, y])
    ensures RunBlock(bbs, [x, y], 0, env, m) == Access(bbs, y, env, Access(bbs, x, env, m))
  {
    hide Access, MemInsn, RefBb, RefI;
    assert [x, y][..1] == [x] && [x][..0] == [];
    assert RunBlock(bbs, [x], 0, env, m) == Access(bbs, x, env, m);
  }

  // ---- Wrapping around ----

  /** A word is stored at r3 - 2 and then a byte loaded at r3. */
  const WRAPPING: Blocks := [[
    Insn({}, Add, Dest(NO_REG), Reg(3), Const(0xffff_fffe), None, []),
    Insn({}, Add, Dest(NO_REG), Reg(3), Const(0), None, []),
    Insn({FMemory}, Sw, Reg(4), Ref(0), None, None, []),
    Insn({FMemory}, Lb, Dest(NO_REG), Ref(1), None, None, [])]]

  lemma WrappingExample()
    ensures Example(WRAPPING, 2, 3)
  {
    hide RefBb, RefI;
    FourRefs(WRAPPING);
    FourMemRefs(WRAPPING);
  }

  lemma WrappingScheduled()
    ensures MemOk(WRAPPING) && WeakSchedule(WRAPPING) == [3, 2]
  {
    hide WeakSchedule, Example;
    WrappingExample();
    ExampleScheduled(WRAPPING, 2, 3);
  }

  /** The weak check misses the overlap of these two, and the scheduled load reads something else. */
  lemma WrapMissed(env: Env)
    requires env.val(Reg(3)) == 2 && env.val(Reg(4)) == 0xffff_ffff
    ensures MemOk(WRAPPING) && AllMemRefs(WRAPPING) == [2, 3] && AllMem(WRAPPING, AllMemRefs(WRAPPING))
    ensures
      var m := Memory(map[], map[]);
      var r, r' := RunBlock(WRAPPING, AllMemRefs(WRAPPING), 0, env, m),
        RunBlock(WRAPPING, WeakSchedule(WRAPPING), 0, env, m);
      3 in r.loaded && r.loaded[3] == 0xff && 3 in r'.loaded && r'.loaded[3] == 0
  {
    hide RefBb, RefI, Conflict, Before, AllMemRefs, WeakSchedule, RunBlock;
    WrappingExample();
    WrappingScheduled();
    FourRefs(WRAPPING);
    assert AllMem(WRAPPING, [2, 3]);
    var m := Memory(map[], map[]);
    TwoRun(WRAPPING, 2, 3, env, m);
    TwoRun(WRAPPING, 3, 2, env, m);
    forall loaded: map<int, Word>
      ensures Address(WRAPPING, 2, env, loaded) == 0 && Address(WRAPPING, 3, env, loaded) == 2
    {
      SumAddress(WRAPPING, 2, env, loaded);
      SumAddress(WRAPPING, 3, env, loaded);
    }
    WordStored(map[], 0, 0xffff_ffff);
    ByteLoaded(map[], 2);
    ByteLoaded(CucExec.PutBytes(map[], 0, 4, 0xffff_ffff), 2);
  }

  // ---- The end of a range wraps around ----

  /** A byte is loaded at r3 - 1 and then the word stored at r3 - 4 that it is the last byte of. */
  const ENDING: Blocks := [[
    Insn({}, Add, Dest(NO_REG), Reg(3), Const(0xffff_ffff), None, []),
    Insn({FMemory}, Lb, Dest(NO_REG), Ref(0), None, None, []),
    Insn({}, Add, Dest(NO_REG), Reg(3), Const(0xffff_fffc), None, []),
    Insn({FMemory}, Sw, Reg(4), Ref(2), None, None, [])]]

  lemma EndingExample()
    ensures Example(ENDING, 1, 3)
  {
    hide RefBb, RefI;
    FourRefs(ENDING);
    FourMemRefs(ENDING);
  }

  lemma EndingScheduled()
    ensures MemOk(ENDING) && WeakSchedule(ENDING) == [3, 1]
  {
    hide WeakSchedule, Example;
    EndingExample();
    ExampleScheduled(ENDING, 1, 3);
  }

  /** With r3 = 4 no access wraps around, but the offset of the word plus its width does, so the weak check misses the
      overlap; the store goes first and the load reads what it has stored. */
  lemma EndMissed(env: Env)
    requires env.val(Reg(3)) == 4 && env.val(Reg(4)) == 0xff
    ensures MemOk(ENDING) && AllMemRefs(ENDING) == [1, 3] && AllMem(ENDING, AllMemRefs(ENDING))
    ensures StaysOff(0xffff_ffff, 1, 0xffff_fffc) && StaysOff(0xffff_fffc, 4, 0xffff_ffff)
    ensures
      var m := Memory(map[], map[]);
      var r := RunBlock(ENDING, AllMemRefs(ENDING), 0, env, m);
      var r' := RunBlock(ENDING, WeakSchedule(ENDING), 0, env, m);
      1 in r.loaded && r.loaded[1] == 0 && 1 in r'.loaded && r'.loaded[1] == 0xff
  {
    hide RefBb, RefI, Conflict, Before, AllMemRefs, WeakSchedule, RunBlock;
    EndingExample();
    EndingScheduled();
    FourRefs(ENDING);
    assert AllMem(ENDING, [1, 3]);
    var m := Memory(map[], map[]);
    TwoRun(ENDING, 1, 3, env, m);
    TwoRun(ENDING, 3, 1, env, m);
    forall loaded: map<int, Word>
      ensures Address(ENDING, 1, env, loaded) == 3 && Address(ENDING, 3, env, loaded) == 0
    {
      SumAddress(ENDING, 1, env, loaded);
      SumAddress(ENDING, 3, env, loaded);
    }
    WordStored(map[], 0, 0xff);
    ByteLoaded(map[], 3);
    ByteLoaded(CucExec.PutBytes(map[], 0, 4, 0xff), 3);
  }

  lemma WordStored(mem: map<Word, Byte>, a: nat, v: nat)
    requires a + 4 <= WORD_LIMIT
    ensures
      var s := CucExec.PutBytes(mem, a, 4, v);
      CucExec.ByteAt(s, a + 2) == v / 0x100 % 0x100 && CucExec.ByteAt(s, a + 3) == v % 0x100
  {
    var s3 := CucExec.PutBytes(mem, a, 3, v / 0x100);
    assert CucExec.PutBytes(mem, a, 4, v) == s3[a + 3 := v % 0x100];
    assert s3 == CucExec.PutBytes(mem, a, 2, v / 0x100 / 0x100)[a + 2 := v / 0x100 % 0x100];
  }

  lemma ByteLoaded(mem: map<Word, Byte>, a: Word)
    ensures CucExec.Load(Lb, false, a, mem) == CucExec.ByteAt(mem, a)
  {
    assert CucExec.BytesAt(mem, a, 1) == CucExec.ByteAt(mem, a);
  }

  // ---- Without data dependencies ----

  /** What has been loaded at r3 + 8 is stored at r3 + 4. */
  const FEEDING: Blocks := [[
    Insn({}, Add, Dest(NO_REG), Reg(3), Const(8), None, []),
    Insn({FMemory}, Lw, Dest(NO_REG), Ref(0), None, None, []),
    Insn({}, Add, Dest(NO_REG), Reg(3), Const(4), None, []),
    Insn({FMemory}, Sw, Ref(1), Ref(2), None, None, [])]]

  lemma FeedingExample()
    ensures Example(FEEDING, 1, 3)
  {
    hide RefBb, RefI;
    FourRefs(FEEDING);
    FourMemRefs(FEEDING);
  }

  /** Memory dependencies alone let the store go first, although all accesses fit. */
  lemma DataDepsNeeded(env: Env)
    requires env.val(Reg(3)) == 0 && env.val(Ref(1)) == 0
    ensures MemOk(FEEDING) && AllMemRefs(FEEDING) == [1, 3] && AllMem(FEEDING, AllMemRefs(FEEDING))
    ensures WithMemoryDeps(FEEDING, MoWeak) == FEEDING && Scheduled(FEEDING) == [3, 1] && AllMem(FEEDING, [3, 1])
    ensures BlockFits(FEEDING, AllMemRefs(FEEDING), 0) &&
      !BlockSame(FEEDING, [3, 1], 0, env, Memory(map[11 := 1], map[]))
  {
    hide RefBb, RefI, Conflict, Before, AllMemRefs, RunBlock, WithMemoryDeps, Scheduled, BlockFits, Access;
    FeedingExample();
    NothingAdded(FEEDING, 1, 3);
    FourRefs(FEEDING);
    assert AllMem(FEEDING, [1, 3]);
    SecondFirst(FEEDING, FEEDING, 1, 3);
    FeedingStays();
    var m := Memory(map[11 := 1], map[]);
    TwoRun(FEEDING, 1, 3, env, m);
    TwoRun(FEEDING, 3, 1, env, m);
    FeedingInOrder(env);
    FeedingSwapped(env);
  }

  lemma FeedingStays()
    requires AllMem(FEEDING, AllMemRefs(FEEDING)) && AllMemRefs(FEEDING) == [1, 3]
    ensures BlockFits(FEEDING, AllMemRefs(FEEDING), 0)
  {
    hide RefBb, RefI, AllMemRefs, MemInsn;
    FourRefs(FEEDING);
  }

  lemma FeedingAddresses(env: Env, loaded: map<int, Word>)
    requires env.val(Reg(3)) == 0
    ensures IsRef(FEEDING, 1) && IsRef(FEEDING, 3)
    ensures Address(FEEDING, 1, env, loaded) == 8 && Address(FEEDING, 3, env, loaded) == 4
  {
    hide RefBb, RefI;
    FourRefs(FEEDING);
    SumAddress(FEEDING, 1, env, loaded);
    SumAddress(FEEDING, 3, env, loaded);
  }

  lemma FeedingInOrder(env: Env)
    requires env.val(Reg(3)) == 0 && IsAccess(FEEDING, 1) && IsAccess(FEEDING, 3)
    ensures
      var r := Access(FEEDING, 3, env, Access(FEEDING, 1, env, Memory(map[11 := 1], map[])));
      CucExec.ByteAt(r.mem, 7) == 1
  {
    hide RefBb, RefI, Address, CucExec.PutBytes;
    FourRefs(FEEDING);
    var m := Memory(map[11 := 1], map[]);
    FeedingAddresses(env, m.loaded);
    WordLoaded(m.mem, 8);
    var m' := Access(FEEDING, 1, env, m);
    assert m'.mem == m.mem && m'.loaded == map[1 := 1];
    FeedingAddresses(env, m'.loaded);
    assert Data(FEEDING, 3, env, m'.loaded) == 1;
    WordStored(m.mem, 4, 1);
  }

  lemma FeedingSwapped(env: Env)
    requires env.val(Reg(3)) == 0 && env.val(Ref(1)) == 0 && IsAccess(FEEDING, 1) && IsAccess(FEEDING, 3)
    ensures
      var r := Access(FEEDING, 1, env, Access(FEEDING, 3, env, Memory(map[11 := 1], map[])));
      CucExec.ByteAt(r.mem, 7) == 0
  {
    hide RefBb, RefI, Address, CucExec.PutBytes;
    FourRefs(FEEDING);
    var m := Memory(map[11 := 1], map[]);
    FeedingAddresses(env, m.loaded);
    assert Data(FEEDING, 3, env, m.loaded) == 0;
    WordStored(m.mem, 4, 0);
  }

  lemma WordLoaded(mem: map<Word, Byte>, a: Word)
    requires a + 4 <= WORD_LIMIT
    ensures CucExec.Load(Lw, false, a, mem) ==
      0x100_0000 * CucExec.ByteAt(mem, a) + 0x1_0000 * CucExec.ByteAt(mem, a + 1) + 0x100 * CucExec.ByteAt(mem, a + 2) +
      CucExec.ByteAt(mem, a + 3)
  {
    hide CucExec.ByteAt;
    assert CucExec.BytesAt(mem, a, 1) == CucExec.ByteAt(mem, a);
    assert CucExec.BytesAt(mem, a, 2) == 0x100 * CucExec.ByteAt(mem, a) + CucExec.ByteAt(mem, a + 1);
    assert CucExec.BytesAt(mem, a, 3) == 0x100 * CucExec.BytesAt(mem, a, 2) + CucExec.ByteAt(mem, a + 2);
  }
}
