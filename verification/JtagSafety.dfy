/** What holds over every sequence of shifted data registers. */
module JtagSafety {
  import opened Bits
  import opened Crc
  import opened JtagSpec

  /** A register and its length. */
  datatype Shift = Shift(reg: Bits, numBits: nat)

  /** Is `s` a WRITE_COMMAND whose CRC is good? */
  predicate GoodWriteCommand(s: Shift) {
    8 <= |s.reg| && !IsSelect(s.reg) && Command(s.reg) == JCMD_WRITE_COMMAND && 89 <= |s.reg| && CrcGood(s.reg, 57)
  }

  lemma SixteenBits(a: Bits)
    requires |a| == 16
    ensures ToNat(a) < 65536
  {
    ToNatToBits(a);
    assert Power2(16) == 65536 by { assert Power2(8) == 256; assert Power2(12) == 4096; }
  }

  // ---- Corrupted registers ----

  /** How many bits before its CRC field a register's CRC covers; none if the register has no such field. */
  function Covered(d: Debug, reg: Bits, numBits: nat): (n: int)
    requires Shiftable(d, reg, numBits)
    ensures 0 <= n ==> n + 32 <= |reg| && 5 <= n
  {
    if IsSelect(reg) then if numBits == SELECT_BITS then 5 else -1
    else if Command(reg) == JCMD_GO_COMMAND then
      if !d.writeDefined then -1
      else if WriteAccess(d.accType) then 5 + 8 * GoBytes(numBits) else 5
    else if numBits != COMMAND_BITS then -1
    else if Command(reg) == JCMD_WRITE_COMMAND || Command(reg) == JCMD_WRITE_CONTROL then 57
    else 5
  }

  /** The command bits of a register are the ones its handler feeds into the CRC. */
  lemma CommandBits(reg: Bits)
    requires |reg| >= 8
    ensures reg[1..5] == Sent(Command(reg), 4)
    ensures reg[..5] == [reg[0]] + Sent(Command(reg), 4)
    ensures IsGo(reg) <==> reg[..5] == Zeros(5)
  {
    hide Reverse, Zeros;
    var f := Field(reg, 1, 4);
    ToNatToBits(f);
    ReverseTwice(reg[1..5]);
    assert ToBits(0, 4) == Zeros(4);
    assert ToNat(Zeros(4)) == 0 by { ToBitsToNat(0, 4); }
    assert Reverse(Zeros(4)) == Zeros(4);
    if reg[..5] == Zeros(5) {
      assert reg[1..5] == reg[..5][1..5] == Zeros(4);
      assert f == Zeros(4);
      assert !reg[..5][0];
    }
  }

  /** The state apart from the pending command and the CPU control bits. */
  predicate SameTarget(d: Debug, d': Debug) {
    d'.mem == d.mem && d'.sprs == d.sprs && d'.modId == d.modId && d'.instr == d.instr
  }

  predicate SameCpu(d: Debug, d': Debug) { d'.stalled == d.stalled && d'.resets == d.resets }

  lemma SelectFrame(d: Debug, reg: Bits, numBits: nat)
    requires 8 <= |reg| && numBits <= |reg| && IsSelect(reg)
    ensures SelectModule(d, reg, numBits).0 == d.(modId := SelectModule(d, reg, numBits).0.modId)
    ensures numBits == SELECT_BITS && !CrcGood(reg, 5) ==> SelectModule(d, reg, numBits).0 == d
  {
    hide Over, Respond, Field, StatusAndCrc, ValidModule;
    assert reg[..5] == [true] + reg[1..5];
  }

  lemma WriteCommandFrame(d: Debug, reg: Bits, numBits: nat)
    requires 8 <= |reg| && numBits <= |reg| && !IsSelect(reg) && Command(reg) == JCMD_WRITE_COMMAND
    ensures
      var d' := WriteCommand(d, reg, numBits).0;
      SameTarget(d, d') && SameCpu(d, d') &&
      (d'.writeDefined ==> GoodWriteCommand(Shift(reg, numBits))) &&
      (!d'.writeDefined ==> d'.addr == d.addr && d'.accType == d.accType && d'.size == d.size) &&
      (d'.writeDefined ==> (WriteAccess(d'.accType) || ReadAccess(d'.accType)) && 1 <= d'.size <= 65536)
  {
    hide Over, Respond, Field, StatusAndCrc, Command, ToNat;
    CommandBits(reg);
    if numBits == COMMAND_BITS {
      assert reg[..57] == reg[..5] + reg[5..57];
      SixteenBits(Field(reg, 41, 16));
    }
  }

  lemma WriteControlFrame(d: Debug, reg: Bits, numBits: nat)
    requires 8 <= |reg| && numBits <= |reg| && !IsSelect(reg) && Command(reg) == JCMD_WRITE_CONTROL
    ensures
      var d' := WriteControl(d, reg, numBits).0;
      d' == d.(stalled := d'.stalled, resets := d'.resets) &&
      (numBits == COMMAND_BITS && !CrcGood(reg, 57) ==> d' == d)
  {
    hide Over, Respond, Field, StatusAndCrc, Command;
    CommandBits(reg);
    if numBits == COMMAND_BITS {
      assert reg[..57] == reg[..5] + reg[5..57];
    }
  }

  lemma GoFrame(d: Debug, reg: Bits, numBits: nat)
    requires Shiftable(d, reg, numBits) && IsGo(reg)
    ensures
      var d' := GoCommand(d, reg, numBits).0;
      d' == d.(mem := d'.mem, sprs := d'.sprs, addr := d'.addr) && d'.mem.Keys == d.mem.Keys &&
      (!d.writeDefined ==> d' == d) &&
      (Covered(d, reg, numBits) >= 0 && !CrcGood(reg, Covered(d, reg, numBits)) ==> d' == d)
  {
    hide Over, Respond, Field, StatusAndCrc, ReadData, Stream, DataBytes, Command, WishboneStatus, SprValue;
    CommandBits(reg);
    var n := Covered(d, reg, numBits);
    assert n >= 5 ==> reg[..n] == reg[..5] + reg[5..n];
  }

  /** A register whose CRC is wrong changes neither memory, nor an SPR, nor the selected module, nor the CPU. */
  lemma BadCrcChangesNothing(d: Debug, reg: Bits, numBits: nat)
    requires Shiftable(d, reg, numBits)
    requires Covered(d, reg, numBits) >= 0 && !CrcGood(reg, Covered(d, reg, numBits))
    ensures
      var d' := ShiftDr(d, reg, numBits).0;
      SameTarget(d, d') && SameCpu(d, d') && d'.addr == d.addr && (d'.writeDefined ==> d.writeDefined)
  {
    hide CrcGood, Respond, Command, SelectModule, WriteCommand, WriteControl, GoCommand, Report;
    if IsSelect(reg) {
      SelectFrame(d, reg, numBits);
    } else if IsGo(reg) {
      GoFrame(d, reg, numBits);
    } else if Command(reg) == JCMD_WRITE_COMMAND {
      WriteCommandFrame(d, reg, numBits);
    } else if Command(reg) == JCMD_WRITE_CONTROL {
      WriteControlFrame(d, reg, numBits);
    }
  }

  /** If a register has a good CRC, any other register that differs from it only inside 32 consecutive covered bits
      has a bad one. */
  lemma BurstRejected(reg: Bits, reg': Bits, n: nat, from: nat, width: nat)
    requires n + 32 <= |reg| == |reg'| && width <= 32 && from + width <= n
    requires reg != reg' && forall k :: 0 <= k < |reg| && !(from <= k < from + width) ==> reg[k] == reg'[k]
    requires CrcGood(reg, n)
    ensures !CrcGood(reg', n)
  {
    hide Over;
    var before, after := reg[..from], reg[from + width..n];
    var x, y := reg[from..from + width], reg'[from..from + width];
    assert reg[..n] == before + x + after;
    assert reg'[..n] == before + y + after;
    assert reg[n..n + 32] == reg'[n..n + 32];
    var k :| 0 <= k < |reg| && reg[k] != reg'[k];
    assert x[k - from] != y[k - from];
    BurstDetected(Ones(32), before, x, y, after);
  }

  // ---- Invariants of every run ----

  /** A defined WRITE_COMMAND always describes a legal access of 1 to 65536 bytes, for the module that was selected. */
  predicate Consistent(d: Debug) {
    (d.writeDefined ==> (WriteAccess(d.accType) || ReadAccess(d.accType)) && 1 <= d.size <= 65536) &&
    (d.modId == JM_UNDEFINED || ValidModule(d.modId))
  }

  lemma ShiftKeepsConsistent(d: Debug, reg: Bits, numBits: nat)
    requires Shiftable(d, reg, numBits) && Consistent(d)
    ensures Consistent(ShiftDr(d, reg, numBits).0)
    ensures ShiftDr(d, reg, numBits).0.mem.Keys == d.mem.Keys
  {
    hide CrcGood, Respond, Command, WriteCommand, WriteControl, GoCommand, Report, StatusAndCrc, Over, Field;
    if IsSelect(reg) {
      SelectFrame(d, reg, numBits);
    } else if IsGo(reg) {
      GoFrame(d, reg, numBits);
    } else if Command(reg) == JCMD_WRITE_COMMAND {
      WriteCommandFrame(d, reg, numBits);
    } else if Command(reg) == JCMD_WRITE_CONTROL {
      WriteControlFrame(d, reg, numBits);
    }
  }

  /** Without a defined WRITE_COMMAND a register leaves memory and SPRs alone. */
  lemma UndefinedTouchesNothing(d: Debug, reg: Bits, numBits: nat)
    requires Shiftable(d, reg, numBits) && !d.writeDefined
    ensures
      var d' := ShiftDr(d, reg, numBits).0;
      d'.mem == d.mem && d'.sprs == d.sprs && (d'.writeDefined ==> GoodWriteCommand(Shift(reg, numBits)))
  {
    hide CrcGood, Respond, Command, SelectModule, WriteCommand, WriteControl, GoCommand, Report, GoodWriteCommand;
    if IsSelect(reg) {
      SelectFrame(d, reg, numBits);
    } else if IsGo(reg) {
      GoFrame(d, reg, numBits);
    } else if Command(reg) == JCMD_WRITE_COMMAND {
      WriteCommandFrame(d, reg, numBits);
    } else if Command(reg) == JCMD_WRITE_CONTROL {
      WriteControlFrame(d, reg, numBits);
    }
  }

  predicate AllShiftable(d: Debug, shifts: seq<Shift>)
    decreases |shifts|
  {
    shifts == [] ||
    (Shiftable(d, shifts[0].reg, shifts[0].numBits) &&
     AllShiftable(ShiftDr(d, shifts[0].reg, shifts[0].numBits).0, shifts[1..]))
  }

  function Run(d: Debug, shifts: seq<Shift>): Debug
    requires AllShiftable(d, shifts)
    decreases |shifts|
  {
    if shifts == [] then d else Run(ShiftDr(d, shifts[0].reg, shifts[0].numBits).0, shifts[1..])
  }

  lemma {:induction false} RunKeepsConsistent(d: Debug, shifts: seq<Shift>)
    requires AllShiftable(d, shifts) && Consistent(d)
    ensures Consistent(Run(d, shifts)) && Run(d, shifts).mem.Keys == d.mem.Keys
    decreases |shifts|
  {
    hide ShiftDr, Consistent, Shiftable;
    if shifts != [] {
      ShiftKeepsConsistent(d, shifts[0].reg, shifts[0].numBits);
      RunKeepsConsistent(ShiftDr(d, shifts[0].reg, shifts[0].numBits).0, shifts[1..]);
    }
  }

  /** After a rejected WRITE_COMMAND nothing touches memory or SPRs until a good WRITE_COMMAND comes. */
  lemma {:induction false} NothingUntilWriteCommand(d: Debug, shifts: seq<Shift>)
    requires AllShiftable(d, shifts) && !d.writeDefined
    requires forall s :: s in shifts ==> !GoodWriteCommand(s)
    ensures Run(d, shifts).mem == d.mem && Run(d, shifts).sprs == d.sprs && !Run(d, shifts).writeDefined
    decreases |shifts|
  {
    hide ShiftDr, GoodWriteCommand, Shiftable;
    if shifts != [] {
      UndefinedTouchesNothing(d, shifts[0].reg, shifts[0].numBits);
      assert !GoodWriteCommand(shifts[0]);
      NothingUntilWriteCommand(ShiftDr(d, shifts[0].reg, shifts[0].numBits).0, shifts[1..]);
    }
  }

  // ---- The address advances ----

  /** A GO_COMMAND that ended without an error. */
  predicate ErrorFreeGo(d: Debug, s: Shift) {
    Shiftable(d, s.reg, s.numBits) && IsGo(s.reg) && s.numBits == SELECT_BITS + 8 * d.size &&
    CrcGood(s.reg, if WriteAccess(d.accType) then 5 + 8 * d.size else 5) && AllMapped(d.mem, d.addr, d.size)
  }

  predicate AllErrorFree(d: Debug, shifts: seq<Shift>)
    decreases |shifts|
  {
    shifts == [] ||
    (ErrorFreeGo(d, shifts[0]) && AllErrorFree(ShiftDr(d, shifts[0].reg, shifts[0].numBits).0, shifts[1..]))
  }

  lemma ErrorFreeGoAdvances(d: Debug, s: Shift)
    requires d.instr == JI_DEBUG && d.modId == JM_WISHBONE && d.writeDefined && Consistent(d) && ErrorFreeGo(d, s)
    ensures
      var d' := ShiftDr(d, s.reg, s.numBits).0;
      d' == d.(addr := d.addr + d.size, mem := d'.mem) && d'.mem.Keys == d.mem.Keys
  {
    hide Over, Respond, StatusAndCrc, Stream, DataBytes, ReadData, Command, Field;
    CommandBits(s.reg);
    assert GoBytes(s.numBits) == d.size;
    if WriteAccess(d.accType) {
      assert s.reg[..5 + 8 * d.size] == s.reg[..5] + s.reg[5..5 + 8 * d.size];
    }
  }

  /** After one WRITE_COMMAND, `k` error-free GO_COMMANDs leave the address `k` times the size further on. */
  lemma {:induction false} AddressAdvances(d: Debug, shifts: seq<Shift>)
    requires d.instr == JI_DEBUG && d.modId == JM_WISHBONE && d.writeDefined && Consistent(d)
    requires AllErrorFree(d, shifts)
    ensures AllShiftable(d, shifts)
    ensures Run(d, shifts).addr == d.addr + |shifts| * d.size
    decreases |shifts|
  {
    hide ShiftDr, Command, CrcGood, Consistent, AllMapped;
    if shifts != [] {
      ErrorFreeGoAdvances(d, shifts[0]);
      ShiftKeepsConsistent(d, shifts[0].reg, shifts[0].numBits);
      AddressAdvances(ShiftDr(d, shifts[0].reg, shifts[0].numBits).0, shifts[1..]);
    }
  }
}
