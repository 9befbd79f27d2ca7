/** What a host reads in the answers of the debug unit: the status of every command, and what READ_COMMAND and
    READ_CONTROL give back. */
module JtagReplies {
  import opened Bits
  import opened Crc
  import opened JtagSpec
  import opened JtagSafety
  import opened JtagRoundTrip

  /** The bits that share a byte with the start of the status are zero. */
  predicate CleanAt(reg: Bits, skip: nat) {
    8 * (skip / 8 + ResponseBytes(skip)) <= |reg| && forall k :: skip <= k < skip - skip % 8 + 8 ==> !reg[k]
  }

  lemma CleanFits(reg: Bits, skip: nat)
    requires CleanAt(reg, skip)
    ensures skip + 36 <= |reg|
  {
  }

  /** The status is readable, and the CRC goes on over it. */
  lemma StatusSent(reg: Bits, status: Status, crc: Crc32, skip: nat, zero: nat)
    requires CleanAt(reg, skip) && zero <= skip
    ensures var out := Respond(reg, StatusAndCrc(status, crc), skip, zero);
      skip + 36 <= |out| && Field(out, skip, 4) == status &&
      Field(out, skip + 4, 32) == Over(crc, out[skip..skip + 4])
  {
    hide Over, Respond;
    var resp := StatusAndCrc(status, crc);
    var out := Respond(reg, resp, skip, zero);
    RespondReadable(reg, resp, skip, zero);
    assert out[skip..skip + 4] == out[skip..skip + 36][..4] == Reverse(status);
    assert out[skip + 4..skip + 36] == out[skip..skip + 36][4..] == Reverse(Over(crc, Reverse(status)));
    ReverseTwice(status);
    ReverseTwice(Over(crc, Reverse(status)));
  }

  /** Where the status of the answer starts. */
  function StatusAt(d: Debug, reg: Bits, numBits: nat): nat
    requires 8 <= |reg|
  {
    if IsSelect(reg) then 37
    else if IsGo(reg) then (if SELECT_BITS <= numBits then 37 + 8 * ((numBits - SELECT_BITS) / 8) else 0)
    else 89
  }

  /** The status that comes back says that the CRC was bad if and only if it was. */
  lemma BadCrcReported(d: Debug, reg: Bits, numBits: nat)
    requires Shiftable(d, reg, numBits) && d.instr == JI_DEBUG && Covered(d, reg, numBits) >= 0
    requires CleanAt(reg, StatusAt(d, reg, numBits)) && Answered(d, reg)
    ensures
      var out, skip := ShiftDr(d, reg, numBits).1, StatusAt(d, reg, numBits);
      skip + 4 <= |out| &&
      (Field(out, skip, 4)[0] <==> !CrcGood(reg, Covered(d, reg, numBits)))
  {
    hide Over, Respond, StatusAndCrc, Field, ReadData, ToNat, Sent, CleanAt;
    CommandBits(reg);
    var skip := StatusAt(d, reg, numBits);
    if IsSelect(reg) {
      SelectStatus(d, reg);
    } else if IsGo(reg) {
      GoStatusSent(d, reg, numBits);
    } else {
      CommandStatus(d, reg);
    }
  }

  /** The register is one of the commands there are, and a GO_COMMAND follows a WRITE_COMMAND with a legal access. */
  predicate Answered(d: Debug, reg: Bits)
    requires 8 <= |reg|
  {
    IsSelect(reg) || (IsGo(reg) && d.writeDefined && (WriteAccess(d.accType) || ReadAccess(d.accType))) ||
    (!IsSelect(reg) && 1 <= Command(reg) <= 4)
  }

  /** SELECT_MODULE: with a good CRC the module is the one asked for, if there is such a module; otherwise none is
      selected, and the status says that it is missing. */
  lemma SelectStatus(d: Debug, reg: Bits)
    requires SELECT_BITS <= |reg| && IsSelect(reg) && d.instr == JI_DEBUG && CleanAt(reg, 37)
    ensures
      var (d', out) := ShiftDr(d, reg, SELECT_BITS);
      var id := ToNat(Field(reg, 1, 4));
      41 <= |out| && var status := Field(out, 37, 4);
      (status[0] <==> !CrcGood(reg, 5)) && (status[1] <==> CrcGood(reg, 5) && id >= 3) && !status[2] && !status[3] &&
      d' == d.(modId := if !CrcGood(reg, 5) then d.modId else if id < 3 then id else -1)
  {
    hide Over, Respond, StatusAndCrc, ToNat, Sent;
    assert reg[..5] == [true] + reg[1..5];
    StatusSent(reg, JS_OK, Ones(32), 37, 37);
    StatusSent(reg, Flagged(JS_OK, JS_CRC_IN_ERROR), Ones(32), 37, 37);
    StatusSent(reg, Flagged(JS_OK, JS_MODULE_MISSING), Ones(32), 37, 37);
  }

  /** GO_COMMAND: the status says whether the CRC was bad, whether the length was not the one announced, and, with a
      good CRC and memory as the module, whether a byte was not mapped. */
  lemma GoStatusSent(d: Debug, reg: Bits, numBits: nat)
    requires Shiftable(d, reg, numBits) && d.instr == JI_DEBUG && IsGo(reg) && Answered(d, reg)
    requires CleanAt(reg, 37 + 8 * ((numBits - SELECT_BITS) / 8))
    ensures
      var n := (numBits - SELECT_BITS) / 8;
      var out := ShiftDr(d, reg, numBits).1;
      var good := CrcGood(reg, if d.accType <= 2 then 5 + 8 * n else 5);
      41 + 8 * n <= |out| && var status := Field(out, 37 + 8 * n, 4);
      (status[0] <==> !good) && !status[1] && (status[3] <==> numBits != SELECT_BITS + 8 * d.size) &&
      (status[2] <==>
        (good && d.modId == JM_WISHBONE && exists i :: 0 <= i < Min(n, d.size) && Bus(d.addr, i) !in d.mem))
  {
    hide Over, Respond, StatusAndCrc, ReadData, Sent, Field, PutAll, DataBytes, Command, Stream;
    CommandBits(reg);
    var n := GoBytes(numBits);
    var skip := 37 + 8 * n;
    assert skip == StatusAt(d, reg, numBits);
    CleanFits(reg, skip);
    if WriteAccess(d.accType) {
      assert reg[..5 + 8 * n] == Zeros(5) + reg[5..5 + 8 * n];
      StatusSent(reg, Flagged(GoStatus(d, numBits), JS_CRC_IN_ERROR), Ones(32), skip, skip);
      var s := WriteEffect(d, DataBytes(reg, 5, n), GoStatus(d, numBits)).1;
      StatusSent(reg, s, Ones(32), skip, skip);
    } else {
      StatusSent(reg, Flagged(GoStatus(d, numBits), JS_CRC_IN_ERROR), Zeros(32), skip, 37);
      ReadLength(d, n);
      var data := Stream(ReadData(d, n));
      var mid := reg[..37] + data + reg[37 + 8 * n..];
      assert forall k :: skip <= k < |reg| ==> mid[k] == reg[k];
      assert CleanAt(mid, skip);
      var s := ReadEffect(d, n, GoStatus(d, numBits)).1;
      StatusSent(mid, s, Over(Ones(32), data), skip, 37);
    }
  }

  lemma ReadLength(d: Debug, n: nat)
    ensures |ReadData(d, n)| == n
  {
  }

  /** The other commands: bad CRC or not. */
  lemma CommandStatus(d: Debug, reg: Bits)
    requires COMMAND_BITS <= |reg| && d.instr == JI_DEBUG && !IsSelect(reg) && 1 <= Command(reg) <= 4 &&
      CleanAt(reg, 89)
    ensures
      var out := ShiftDr(d, reg, COMMAND_BITS).1;
      var good := CrcGood(reg, if Command(reg) % 2 == 0 then 57 else 5);
      93 <= |out| && Field(out, 89, 4) == if good then JS_OK else [true, false, false, false]
  {
    hide Over, Respond, StatusAndCrc, Sent, Field, ToNat, CommandFields, ControlFields;
    CommandBits(reg);
    assert reg[..57] == reg[..5] + reg[5..57];
    assert Flagged(JS_OK, JS_CRC_IN_ERROR) == [true, false, false, false];
    StatusSent(reg, JS_OK, Ones(32), 89, 89);
    StatusSent(reg, Flagged(JS_OK, JS_CRC_IN_ERROR), Ones(32), 89, 89);
    StatusSent(reg, Flagged(JS_OK, JS_CRC_IN_ERROR), Ones(32), 89, 37);
    ReportStatus(reg, CommandFields(d));
    ReportStatus(reg, ControlFields(d));
  }

  lemma ReportStatus(reg: Bits, fields: Bits)
    requires CleanAt(reg, 89) && |fields| == 52
    ensures var out := Respond(Insert(reg, fields), StatusAndCrc(JS_OK, Over(Ones(32), fields)), 89, 37);
      125 <= |out| && Field(out, 89, 4) == JS_OK
  {
    hide Over, Respond, StatusAndCrc;
    assert forall k :: 89 <= k < |reg| ==> Insert(reg, fields)[k] == reg[k];
    assert CleanAt(Insert(reg, fields), 89);
    StatusSent(Insert(reg, fields), JS_OK, Over(Ones(32), fields), 89, 37);
  }

  // ---- What is reported ----

  /** A register that has zeros where 52 bits of data are ORed in. */
  predicate CleanData(reg: Bits) { 89 <= |reg| && forall k :: 37 <= k < 89 ==> !reg[k] }

  /** The data come back as they are, with status OK and a CRC that checks over both. */
  lemma Reported(reg: Bits, fields: Bits)
    requires CleanAt(reg, 89) && CleanData(reg) && |fields| == 52
    ensures var out := Respond(Insert(reg, fields), StatusAndCrc(JS_OK, Over(Ones(32), fields)), 89, 37);
      125 <= |out| && out[37..89] == fields && Field(out, 89, 4) == JS_OK &&
      Over(Ones(32), out[37..93]) == Field(out, 93, 32)
  {
    hide Over, StatusAndCrc;
    var mid := Insert(reg, fields);
    var out := Respond(mid, StatusAndCrc(JS_OK, Over(Ones(32), fields)), 89, 37);
    assert forall k :: 89 <= k < |reg| ==> mid[k] == reg[k];
    assert CleanAt(mid, 89);
    StatusSent(mid, JS_OK, Over(Ones(32), fields), 89, 37);
    assert forall k :: 37 <= k < 89 ==> out[k] == mid[k] == fields[k - 37];
    assert out[37..89] == fields;
    assert out[37..93] == fields + out[89..93];
    OverConcat(Ones(32), fields, out[89..93]);
  }

  /** READ_COMMAND after a recorded WRITE_COMMAND gives back the access type, the address and the size that it had. */
  lemma CommandReadBack(d: Debug, write: Bits, read: Bits, acc: nat, addr: nat, size: nat)
    requires Target(d) && IsWriteCommand(write, acc, addr, size)
    requires acc < 16 && addr < 0x1_0000_0000 && size <= 0x1_0000 && ValidWishbone(acc, addr, size)
    requires COMMAND_BITS <= |read| && CleanAt(read, 89) && CleanData(read) && CrcGood(read, 5)
    requires !IsSelect(read) && Command(read) == JCMD_READ_COMMAND
    ensures
      var d' := ShiftDr(d, write, COMMAND_BITS).0;
      var out := ShiftDr(d', read, COMMAND_BITS).1;
      125 <= |out| && ToNat(Field(out, 37, 4)) == acc && ToNat(Field(out, 41, 32)) == addr &&
      ToNat(Field(out, 73, 16)) == size - 1 && Field(out, 89, 4) == JS_OK &&
      Over(Ones(32), out[37..93]) == Field(out, 93, 32)
  {
    hide Over, Respond, StatusAndCrc, Field, ToNat, Sent, ValidWishbone, IsWriteCommand, Command, CleanAt, CleanData,
      Insert, Power2;
    CommandFits(write, acc, addr, size);
    CommandRecorded(d, write, acc, addr, size);
    CommandBits(read);
    var d' := ShiftDr(d, write, COMMAND_BITS).0;
    var out := ShiftDr(d', read, COMMAND_BITS).1;
    Reported(read, CommandFields(d'));
    var fields := CommandFields(d');
    assert fields == Sent(acc, 4) + Sent(addr, 32) + Sent(size - 1, 16);
    assert out[37..41] == out[37..89][..4] == Sent(acc, 4);
    assert out[41..73] == out[37..89][4..36] == Sent(addr, 32);
    assert out[73..89] == out[37..89][36..] == Sent(size - 1, 16);
    Widths();
    FieldIsSent(out, 37, acc, 4);
    FieldIsSent(out, 41, addr, 32);
    FieldIsSent(out, 73, size - 1, 16);
  }

  /** READ_CONTROL after WRITE_CONTROL gives back the stall bit, unless the CPU was reset instead; nothing else is set.
      */
  lemma ControlReadBack(d: Debug, write: Bits, read: Bits)
    requires CpuTarget(d) && COMMAND_BITS <= |write| && COMMAND_BITS <= |read|
    requires !IsSelect(write) && Command(write) == JCMD_WRITE_CONTROL && CrcGood(write, 57)
    requires !IsSelect(read) && Command(read) == JCMD_READ_CONTROL && CrcGood(read, 5)
    requires CleanAt(read, 89) && CleanData(read)
    ensures
      var d' := ShiftDr(d, write, COMMAND_BITS).0;
      var out := ShiftDr(d', read, COMMAND_BITS).1;
      d'.resets == d.resets + (if write[5] then 1 else 0) && d'.stalled == (if write[5] then d.stalled else write[6]) &&
      125 <= |out| && Field(out, 89, 4) == JS_OK && (out[38] <==> d'.stalled) &&
      forall k :: 37 <= k < 89 && k != 38 ==> !out[k]
  {
    hide Over, Respond, StatusAndCrc, Field, ToNat, Sent, Command, CleanAt, CleanData, Insert;
    CommandBits(write);
    CommandBits(read);
    assert write[..57] == write[..5] + write[5..57];
    var d' := ShiftDr(d, write, COMMAND_BITS).0;
    var out := ShiftDr(d', read, COMMAND_BITS).1;
    Reported(read, ControlFields(d'));
    assert forall k :: 37 <= k < 89 ==> out[k] == out[37..89][k - 37];
  }

  // ---- Which commands are accepted ----

  /** A good WRITE_COMMAND is recorded if and only if its access fits the module: for memory a known width with address
      and size multiples of it, for the CPU one register of four bytes; otherwise no command is pending. */
  lemma CommandDecided(d: Debug, reg: Bits, acc: nat, addr: nat, size: nat)
    requires d.instr == JI_DEBUG && IsWriteCommand(reg, acc, addr, size)
    requires acc < 16 && addr < 0x1_0000_0000 && size <= 0x1_0000
    ensures
      var d' := ShiftDr(d, reg, COMMAND_BITS).0;
      var memory := d.modId == 0 && (acc in {0, 4} || (acc in {1, 5} && addr % 2 == 0 && size % 2 == 0) ||
        (acc in {2, 6} && addr % 4 == 0 && size % 4 == 0));
      var spr := d.modId == 1 && acc in {2, 6} && size == 4;
      if memory then d' == d.(writeDefined := true, accType := acc, addr := addr, size := size)
      else if spr then d' == d.(writeDefined := true, accType := acc, addr := addr % 0x1_0000, size := 4)
      else d' == d.(writeDefined := false)
  {
    hide Over, Respond, Field, StatusAndCrc, Command, ToNat, Sent;
    CommandFieldsRead(reg, acc, addr, size);
    CommandBits(reg);
    assert reg[..57] == reg[..5] + reg[5..57];
  }

  /** A GO_COMMAND without a pending command gives back zeros and does nothing. */
  lemma UndefinedGo(d: Debug, reg: Bits, numBits: nat)
    requires Shiftable(d, reg, numBits) && d.instr == JI_DEBUG && IsGo(reg) && !d.writeDefined
    ensures
      var (d', out) := ShiftDr(d, reg, numBits);
      d' == d && |out| == |reg| && (forall k :: 0 <= k < numBits ==> !out[k]) &&
      forall k :: 8 * ((numBits + 7) / 8) <= k < |reg| ==> out[k] == reg[k]
  {
    hide Command;
    CommandBits(reg);
  }

  // ---- What a GO_COMMAND delivers and where it leaves the address ----

  /** Byte `i` of the answer to a good read: what memory or the register holds, and zero beyond the announced size,
      where nothing is mapped, beyond the four bytes of a register, and for a module without data. */
  lemma ReadDelivers(d: Debug, reg: Bits, numBits: nat, i: nat)
    requires Shiftable(d, reg, numBits) && d.instr == JI_DEBUG && IsGo(reg) && d.writeDefined && ReadAccess(d.accType)
    requires CrcGood(reg, 5) && i < (numBits - SELECT_BITS) / 8
    ensures
      var out := ShiftDr(d, reg, numBits).1;
      45 + 8 * i <= |out| &&
      Reverse(out[37 + 8 * i..45 + 8 * i]) ==
        if d.modId == 0 && i < d.size && (d.addr + i) % 0x1_0000_0000 in d.mem then d.mem[(d.addr + i) % 0x1_0000_0000]
        else if d.modId == 1 && i < 4 && d.addr in d.sprs then d.sprs[d.addr][8 * i..8 * i + 8]
        else Zeros(8)
  {
    hide Over, StatusAndCrc, Sent, Command, Stream, ReadData, Field, DataBytes;
    CommandBits(reg);
    var n := GoBytes(numBits);
    ReadLength(d, n);
    var bytes := ReadData(d, n);
    var data := Stream(bytes);
    var out := ShiftDr(d, reg, numBits).1;
    assert forall k :: 37 <= k < 37 + 8 * n ==> out[k] == data[k - 37];
    assert out[37..37 + 8 * n] == data;
    StreamData(bytes, out, 37);
    ByteOf(out, n, i);
    ReadByte(d, n, i);
  }

  lemma ByteOf(out: Bits, n: nat, i: nat)
    requires i < n && 37 + 8 * n <= |out|
    ensures DataBytes(out, 37, n)[i] == Reverse(out[37 + 8 * i..45 + 8 * i])
  {
  }

  lemma ReadByte(d: Debug, n: nat, i: nat)
    requires i < n
    ensures |ReadData(d, n)| == n && ReadData(d, n)[i] ==
      if d.modId == 0 && i < d.size && (d.addr + i) % 0x1_0000_0000 in d.mem then d.mem[(d.addr + i) % 0x1_0000_0000]
      else if d.modId == 1 && i < 4 && d.addr in d.sprs then d.sprs[d.addr][8 * i..8 * i + 8]
      else Zeros(8)
  {
    if d.modId == 1 && i < 4 && d.addr !in d.sprs { assert Zeros(32)[8 * i..8 * i + 8] == Zeros(8); }
  }

  /** The address moves on by the size, or to the next register, if and only if nothing went wrong. */
  lemma GoAdvances(d: Debug, reg: Bits, numBits: nat)
    requires Shiftable(d, reg, numBits) && d.instr == JI_DEBUG && IsGo(reg) && Answered(d, reg)
    ensures
      var n := (numBits - SELECT_BITS) / 8;
      var good := CrcGood(reg, if d.accType <= 2 then 5 + 8 * n else 5) && numBits == SELECT_BITS + 8 * d.size;
      ShiftDr(d, reg, numBits).0.addr == d.addr +
        if good && d.modId == 0 && (forall i :: 0 <= i < d.size ==> Bus(d.addr, i) in d.mem) then d.size
        else if good && d.modId == 1 then 1
        else 0
  {
    hide Over, Respond, StatusAndCrc, ReadData, Sent, Field, PutAll, DataBytes, Command, Stream, SprValue;
    CommandBits(reg);
    var n := GoBytes(numBits);
    var status := GoStatus(d, numBits);
    FlaggedNotOk(status, JS_WISHBONE_ERROR);
    FlaggedNotOk(JS_OK, JS_OVER_UNDERRUN);
    if WriteAccess(d.accType) {
      assert reg[..5 + 8 * n] == Zeros(5) + reg[5..5 + 8 * n];
    } else {
      assert reg[..5] == Zeros(5);
      assert CrcGood(reg, 5) <==> Over(Ones(32), Zeros(5)) == Field(reg, 5, 32);
    }
  }

  lemma FlaggedNotOk(status: Status, flag: nat)
    requires flag < 4
    ensures Flagged(status, flag) != JS_OK
  {
    assert Flagged(status, flag)[flag] && !JS_OK[flag];
  }
}
