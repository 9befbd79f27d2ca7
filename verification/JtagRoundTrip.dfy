/** Writing memory through the debug interface and reading it back. */
module JtagRoundTrip {
  import opened Bits
  import opened Crc
  import opened JtagSpec
  import opened JtagSafety

  // ---- Registers as a host sends them ----

  /** A WRITE_COMMAND for `size` bytes; what follows the CRC is ignored. */
  predicate IsWriteCommand(reg: Bits, acc: nat, addr: nat, size: nat) {
    COMMAND_BITS <= |reg| && size > 0 && CrcGood(reg, 57) &&
    reg[..57] == [false] + Sent(JCMD_WRITE_COMMAND, 4) + Sent(acc, 4) + Sent(addr, 32) + Sent(size - 1, 16)
  }

  /** A GO_COMMAND that carries `data`. */
  predicate IsGoWrite(reg: Bits, data: seq<Byte>) {
    var n := |data|;
    SELECT_BITS + 8 * n <= |reg| && CrcGood(reg, 5 + 8 * n) && reg[..5 + 8 * n] == Zeros(5) + Stream(data)
  }

  /** A GO_COMMAND that asks for `n` bytes. */
  predicate IsGoRead(reg: Bits, n: nat) {
    SELECT_BITS + 8 * n <= |reg| && CrcGood(reg, 5) && reg[..5] == Zeros(5)
  }

  /** What a host makes of the answer to a read: the data, the status, and whether the CRC checks. */
  function ReplyData(reg: Bits, n: nat): seq<Byte>
    requires SELECT_BITS + 8 * n <= |reg|
  {
    DataBytes(reg, 37, n)
  }

  function ReplyStatus(reg: Bits, n: nat): Status
    requires SELECT_BITS + 8 * n <= |reg|
  {
    Field(reg, 37 + 8 * n, 4)
  }

  predicate ReplyChecks(reg: Bits, n: nat)
    requires SELECT_BITS + 8 * n <= |reg|
  {
    Over(Ones(32), reg[37..41 + 8 * n]) == Field(reg, 41 + 8 * n, 32)
  }

  // ---- Fields and streams ----

  lemma StreamData(bytes: seq<Byte>, reg: Bits, off: nat)
    requires off + 8 * |bytes| <= |reg| && reg[off..off + 8 * |bytes|] == Stream(bytes)
    ensures DataBytes(reg, off, |bytes|) == bytes
  {
    var n := |bytes|;
    forall i | 0 <= i < n
      ensures DataBytes(reg, off, n)[i] == bytes[i]
    {
      forall k | 0 <= k < 8
        ensures DataBytes(reg, off, n)[i][k] == bytes[i][k]
      {
        var j := 8 * i + (7 - k);
        assert reg[off + j] == reg[off..off + 8 * n][j];
      }
    }
  }

  lemma FieldIsSent(reg: Bits, off: nat, v: nat, n: nat)
    requires off + n <= |reg| && reg[off..off + n] == Sent(v, n) && v < Power2(n)
    ensures ToNat(Field(reg, off, n)) == v
  {
    ReverseTwice(ToBits(v, n));
    ToBitsToNat(v, n);
  }

  lemma Widths()
    ensures Power2(4) == 16 && Power2(16) == 0x1_0000 && Power2(32) == 0x1_0000_0000
  {
    assert Power2(8) == 256;
    assert Power2(12) == 4096;
    assert Power2(20) == 0x10_0000;
    assert Power2(24) == 0x100_0000;
    assert Power2(28) == 0x1000_0000;
  }

  lemma CommandOf(reg: Bits, c: nat)
    requires 8 <= |reg| && c < 16 && reg[1..5] == Sent(c, 4)
    ensures Command(reg) == c
  {
    Widths();
    FieldIsSent(reg, 1, c, 4);
  }

  // ---- The four steps ----

  predicate Target(d: Debug) { d.instr == JI_DEBUG && d.modId == JM_WISHBONE }

  lemma Slices(head: Bits, c: Bits, acc: Bits, addr: Bits, len: Bits)
    requires |c| == 4 && |acc| == 4 && |addr| == 32 && |len| == 16 && head == [false] + c + acc + addr + len
    ensures |head| == 57 && !head[0] && head[1..5] == c && head[5..9] == acc && head[9..41] == addr &&
      head[41..57] == len
  {
  }

  lemma CommandFieldsRead(reg: Bits, acc: nat, addr: nat, size: nat)
    requires IsWriteCommand(reg, acc, addr, size) && acc < 16 && addr < 0x1_0000_0000 && size <= 0x1_0000
    ensures !IsSelect(reg) && Command(reg) == JCMD_WRITE_COMMAND
    ensures ToNat(Field(reg, 5, 4)) == acc && ToNat(Field(reg, 9, 32)) == addr && ToNat(Field(reg, 41, 16)) == size - 1
  {
    hide Over, CrcGood, Sent, Field, Command, Power2, ToNat;
    var head := reg[..57];
    Slices(head, Sent(JCMD_WRITE_COMMAND, 4), Sent(acc, 4), Sent(addr, 32), Sent(size - 1, 16));
    Widths();
    assert reg[1..5] == head[1..5];
    CommandOf(reg, JCMD_WRITE_COMMAND);
    assert reg[5..9] == head[5..9];
    FieldIsSent(reg, 5, acc, 4);
    assert reg[9..41] == head[9..41];
    FieldIsSent(reg, 9, addr, 32);
    assert reg[41..57] == head[41..57];
    FieldIsSent(reg, 41, size - 1, 16);
  }

  /** A good WRITE_COMMAND for a legal access is recorded. */
  lemma CommandRecorded(d: Debug, reg: Bits, acc: nat, addr: nat, size: nat)
    requires Target(d) && IsWriteCommand(reg, acc, addr, size)
    requires acc < 16 && addr < 0x1_0000_0000 && size <= 0x1_0000 && ValidWishbone(acc, addr, size)
    ensures ShiftDr(d, reg, COMMAND_BITS).0 == d.(writeDefined := true, accType := acc, addr := addr, size := size)
  {
    hide Over, Respond, Field, StatusAndCrc, Command, ToNat, Sent, ValidWishbone;
    CommandFieldsRead(reg, acc, addr, size);
    CommandBits(reg);
    assert reg[..57] == reg[..5] + reg[5..57];
  }

  /** The data of a good write GO_COMMAND is in memory afterwards, at consecutive addresses. */
  lemma DataWritten(d: Debug, reg: Bits, data: seq<Byte>)
    requires Target(d) && d.writeDefined && WriteAccess(d.accType) && d.size == |data|
    requires IsGoWrite(reg, data) && AllMapped(d.mem, d.addr, d.size)
    ensures
      ShiftDr(d, reg, SELECT_BITS + 8 * |data|).0 ==
      d.(mem := PutAll(d.mem, d.addr, data), addr := d.addr + d.size)
  {
    hide Over, Respond, Field, StatusAndCrc, Command, Stream, DataBytes, PutAll;
    var n := |data|;
    var head := reg[..5 + 8 * n];
    assert reg[..5] == head[..5] == Zeros(5);
    CommandBits(reg);
    assert reg[5..5 + 8 * n] == head[5..] == Stream(data);
    StreamData(data, reg, 5);
    assert GoBytes(SELECT_BITS + 8 * n) == n;
    assert data[..n] == data;
    assert Zeros(5) + reg[5..5 + 8 * n] == head;
  }

  lemma DataFetched(d: Debug, data: seq<Byte>, mem: map<int, Byte>)
    requires d.modId == JM_WISHBONE && d.size == |data| && AllMapped(mem, d.addr, d.size)
    requires d.mem == PutAll(mem, d.addr, data) && |data| <= 0x1_0000_0000
    ensures ReadData(d, |data|) == data && AllMapped(d.mem, d.addr, d.size)
  {
    forall i | 0 <= i < |data|
      ensures ReadData(d, |data|)[i] == data[i]
    {
      PutAllAt(mem, d.addr, data, Bus(d.addr, i));
      SamePlace(d.addr, i, Bus(d.addr, i));
    }
  }

  /** The answer to a good read GO_COMMAND, for a register without stray bits in the status byte. */
  lemma DataReturned(d: Debug, reg: Bits, n: nat)
    requires Target(d) && d.writeDefined && ReadAccess(d.accType) && d.size == n
    requires IsGoRead(reg, n) && AllMapped(d.mem, d.addr, n)
    ensures
      var (d', out) := ShiftDr(d, reg, SELECT_BITS + 8 * n);
      var data := Stream(ReadData(d, n));
      d' == d.(addr := d.addr + n) &&
      out == Respond(reg[..37] + data + reg[37 + 8 * n..], StatusAndCrc(JS_OK, Over(Ones(32), data)), 37 + 8 * n, 37)
  {
    hide Over, Respond, Field, StatusAndCrc, Command, Stream, ReadData;
    CommandBits(reg);
    assert GoBytes(SELECT_BITS + 8 * n) == n;
  }

  /** A host that finds zeros where the status is ORed in reads back the data, an OK status and a CRC that checks;
      with any other bits there it reads a different status. */
  lemma ReplyDecodes(reg: Bits, bytes: seq<Byte>)
    requires SELECT_BITS + 8 * |bytes| <= |reg| && |reg| % 8 == 0
    ensures
      var n := |bytes|;
      var data := Stream(bytes);
      var out := Respond(reg[..37] + data + reg[37 + 8 * n..], StatusAndCrc(JS_OK, Over(Ones(32), data)), 37 + 8 * n,
        37);
      var clean := !reg[37 + 8 * n] && !reg[38 + 8 * n] && !reg[39 + 8 * n];
      ReplyData(out, n) == bytes && (clean <==> ReplyStatus(out, n) == JS_OK) && (clean ==> ReplyChecks(out, n))
  {
    hide Over, Stream, DataBytes;
    var n := |bytes|;
    var data := Stream(bytes);
    var skip := 37 + 8 * n;
    var mid := reg[..37] + data + reg[skip..];
    var resp := StatusAndCrc(JS_OK, Over(Ones(32), data));
    var out := Respond(mid, resp, skip, 37);
    assert forall k :: 37 <= k < skip ==> out[k] == mid[k] == data[k - 37];
    assert out[37..skip] == data;
    StreamData(bytes, out, 37);
    assert skip % 8 == 5;
    assert forall k :: skip <= k ==> k < |reg| ==> mid[k] == reg[k];
    StatusReadable(mid, data, skip);
    assert mid[skip] == reg[skip] && mid[skip + 1] == reg[skip + 1] && mid[skip + 2] == reg[skip + 2];
    ReplyParts(out, data, n);
  }

  /** Beyond its first byte the response is stored, not ORed in. */
  lemma RespondAfter(reg: Bits, resp: Bits, skip: nat, zero: nat, j: nat)
    requires zero <= skip && |resp| == 36 && 8 * (skip / 8 + ResponseBytes(skip)) <= |reg|
    requires j < 36 && skip % 8 + j >= 8
    ensures skip + j < |reg| && Respond(reg, resp, skip, zero)[skip + j] == resp[j]
  {
  }

  lemma OkStatusFirst(crc: Crc32)
    ensures forall k :: 0 <= k < 4 ==> !StatusAndCrc(JS_OK, crc)[k]
  {
  }

  /** In its first byte the response is ORed in. */
  lemma RespondFirst(reg: Bits, resp: Bits, skip: nat, zero: nat, j: nat)
    requires zero <= skip && |resp| == 36 && 8 * (skip / 8 + ResponseBytes(skip)) <= |reg|
    requires skip % 8 + j < 8
    ensures skip + j < |reg| && Respond(reg, resp, skip, zero)[skip + j] == (reg[skip + j] || resp[j])
  {
  }

  lemma StatusReadable(mid: Bits, data: Bits, skip: nat)
    requires skip % 8 == 5 && 37 <= skip && skip + 36 <= |mid| && |mid| % 8 == 0
    ensures
      var resp := StatusAndCrc(JS_OK, Over(Ones(32), data));
      var out := Respond(mid, resp, skip, 37);
      var clean := !mid[skip] && !mid[skip + 1] && !mid[skip + 2];
      (clean <==> Field(out, skip, 4) == JS_OK) && (clean ==> out[skip..skip + 36] == resp)
  {
    hide Over, Respond;
    var resp := StatusAndCrc(JS_OK, Over(Ones(32), data));
    var out := Respond(mid, resp, skip, 37);
    assert skip == 8 * (skip / 8) + 5 && 8 * (skip / 8 + 6) <= |mid|;
    assert ResponseBytes(skip) == 6;
    OkStatusFirst(Over(Ones(32), data));
    RespondFirst(mid, resp, skip, 37, 0);
    RespondFirst(mid, resp, skip, 37, 1);
    RespondFirst(mid, resp, skip, 37, 2);
    RespondAfter(mid, resp, skip, 37, 3);
    RespondReadable(mid, resp, skip, 37);
    var f := Field(out, skip, 4);
    assert f[3] == out[skip] && f[2] == out[skip + 1] && f[1] == out[skip + 2] && f[0] == out[skip + 3];
  }

  lemma ReplyParts(out: Bits, data: Bits, n: nat)
    requires SELECT_BITS + 8 * n <= |out| && |data| == 8 * n && out[37..37 + 8 * n] == data
    ensures out[37 + 8 * n..73 + 8 * n] == StatusAndCrc(JS_OK, Over(Ones(32), data)) ==> ReplyChecks(out, n)
  {
    hide Over;
    var crc := Over(Ones(32), data);
    var tail := out[37 + 8 * n..73 + 8 * n];
    if tail == StatusAndCrc(JS_OK, crc) {
      var sent := Reverse(JS_OK);
      assert out[37..41 + 8 * n] == data + sent by { assert out[37 + 8 * n..41 + 8 * n] == tail[..4] == sent; }
      OverConcat(Ones(32), data, sent);
      assert out[41 + 8 * n..73 + 8 * n] == tail[4..] == Reverse(Over(crc, sent));
      ReverseTwice(Over(crc, sent));
    }
  }

  /** The ignored bits that share a byte with the start of the answer are zero. */
  predicate CleanStatus(reg: Bits, n: nat) {
    40 + 8 * n <= |reg| && !reg[37 + 8 * n] && !reg[38 + 8 * n] && !reg[39 + 8 * n]
  }

  /** The answer holds `data`, status OK, and a CRC that checks over both. */
  predicate GoodReply(out: Bits, data: seq<Byte>) {
    var n := |data|;
    SELECT_BITS + 8 * n <= |out| &&
    ReplyData(out, n) == data && ReplyStatus(out, n) == JS_OK && ReplyChecks(out, n)
  }

  /** One register shifted in and out; nothing comes back from a register that cannot be shifted. */
  function Exchange(d: Debug, reg: Bits, numBits: nat): (Debug, Bits) {
    if Shiftable(d, reg, numBits) then ShiftDr(d, reg, numBits) else (d, [])
  }

  /** Any bytes written by WRITE_COMMAND and GO_COMMAND are what a second WRITE_COMMAND and GO_COMMAND
      read from the same address, with status OK and a CRC that checks. */
  lemma WriteThenRead(d: Debug, data: seq<Byte>, addr: nat, acc: nat, acc': nat,
                      setWrite: Bits, goWrite: Bits, setRead: Bits, goRead: Bits)
    requires Target(d) && 0 < |data| <= 0x1_0000 && addr < 0x1_0000_0000 && AllMapped(d.mem, addr, |data|)
    requires WriteAccess(acc) && ValidWishbone(acc, addr, |data|) && ReadAccess(acc') &&
      ValidWishbone(acc', addr, |data|)
    requires IsWriteCommand(setWrite, acc, addr, |data|) && IsGoWrite(goWrite, data)
    requires IsWriteCommand(setRead, acc', addr, |data|) && IsGoRead(goRead, |data|) && |goRead| % 8 == 0
    requires CleanStatus(goRead, |data|)
    ensures
      var n := |data|;
      var goBits := SELECT_BITS + 8 * n;
      var d1 := Exchange(d, setWrite, COMMAND_BITS).0;
      var d2 := Exchange(d1, goWrite, goBits).0;
      var d3 := Exchange(d2, setRead, COMMAND_BITS).0;
      var (d4, out) := Exchange(d3, goRead, goBits);
      d4.mem == PutAll(d.mem, addr, data) && GoodReply(out, data)
  {
    hide Over, Stream, ReadData, PutAll, ShiftDr, Respond, StatusAndCrc, IsWriteCommand, IsGoWrite, ValidWishbone,
      AllMapped;
    hide ReplyData, ReplyStatus, ReplyChecks;
    GoFits(goWrite, data);
    CommandFits(setWrite, acc, addr, |data|);
    CommandFits(setRead, acc', addr, |data|);
    var d1 := d.(writeDefined := true, accType := acc, addr := addr, size := |data|);
    CommandRecorded(d, setWrite, acc, addr, |data|);
    DataWritten(d1, goWrite, data);
    var d2 := d1.(mem := PutAll(d.mem, addr, data), addr := addr + |data|);
    CommandRecorded(d2, setRead, acc', addr, |data|);
    var d3 := d2.(accType := acc', addr := addr);
    DataFetched(d3, data, d.mem);
    DataReturned(d3, goRead, |data|);
    ReplyDecodes(goRead, data);
  }

  lemma GoFits(reg: Bits, data: seq<Byte>)
    requires IsGoWrite(reg, data)
    ensures SELECT_BITS + 8 * |data| <= |reg|
  {
  }

  lemma CommandFits(reg: Bits, acc: nat, addr: nat, size: nat)
    requires IsWriteCommand(reg, acc, addr, size)
    ensures COMMAND_BITS <= |reg| && size > 0
  {
  }

  // ---- The same for special purpose registers ----

  predicate CpuTarget(d: Debug) { d.instr == JI_DEBUG && d.modId == JM_CPU0 }

  lemma SprRecorded(d: Debug, reg: Bits, acc: nat, addr: nat)
    requires CpuTarget(d) && IsWriteCommand(reg, acc, addr, 4) && (acc == 2 || acc == 6) && addr < 0x1_0000_0000
    ensures ShiftDr(d, reg, COMMAND_BITS).0 ==
      d.(writeDefined := true, accType := acc, addr := addr % MAX_SPRS, size := 4)
  {
    hide Over, Respond, Field, StatusAndCrc, Command, ToNat, Sent;
    CommandFieldsRead(reg, acc, addr, 4);
    CommandBits(reg);
    assert reg[..57] == reg[..5] + reg[5..57];
  }

  lemma SprWritten(d: Debug, reg: Bits, data: seq<Byte>)
    requires CpuTarget(d) && d.writeDefined && d.accType == 2 && d.size == 4 == |data| && IsGoWrite(reg, data)
    ensures ShiftDr(d, reg, SELECT_BITS + 32).0 == d.(sprs := d.sprs[d.addr := SprValue(data)], addr := d.addr + 1)
  {
    hide Over, Respond, Field, StatusAndCrc, Command, Stream, DataBytes, SprValue;
    var head := reg[..37];
    assert reg[..5] == head[..5] == Zeros(5);
    CommandBits(reg);
    assert reg[5..37] == head[5..] == Stream(data);
    StreamData(data, reg, 5);
    assert GoBytes(SELECT_BITS + 32) == 4;
    assert Zeros(5) + reg[5..37] == head;
  }

  lemma SprReturned(d: Debug, reg: Bits)
    requires CpuTarget(d) && d.writeDefined && d.accType == 6 && d.size == 4 && IsGoRead(reg, 4)
    ensures
      var (d', out) := ShiftDr(d, reg, SELECT_BITS + 32);
      var data := Stream(ReadData(d, 4));
      d'.sprs == d.sprs && d'.mem == d.mem &&
      out == Respond(reg[..37] + data + reg[69..], StatusAndCrc(JS_OK, Over(Ones(32), data)), 69, 37)
  {
    hide Over, Respond, Field, StatusAndCrc, Command, Stream, ReadData;
    CommandBits(reg);
    assert GoBytes(SELECT_BITS + 32) == 4;
  }

  /** The number that four bytes stand for, the first one the lowest. */
  function LittleEndian(data: seq<Byte>): nat
    requires |data| == 4
  {
    ToNat(data[0]) + 0x100 * ToNat(data[1]) + 0x1_0000 * ToNat(data[2]) + 0x100_0000 * ToNat(data[3])
  }

  lemma SprArithmetic(data: seq<Byte>)
    requires |data| == 4
    ensures ToNat(SprValue(data)) == LittleEndian(data)
  {
    hide ToNat;
    var b0: Bits, b1: Bits, b2: Bits, b3: Bits := data[0], data[1], data[2], data[3];
    var high: Bits := b2 + b3;
    var rest: Bits := b1 + high;
    assert SprValue(data) == b0 + rest;
    ToNatConcat(b2, b3);
    ToNatConcat(b1, high);
    ToNatConcat(b0, rest);
    assert Power2(8) == 0x100;
  }

  lemma {:induction false} ToNatConcat(a: Bits, b: Bits)
    ensures ToNat(a + b) == ToNat(a) + Power2(|a|) * ToNat(b)
  {
    if a == [] {
      assert a + b == b;
    } else {
      ToNatConcat(a[1..], b);
      assert (a + b)[1..] == a[1..] + b;
      Twice(Power2(|a| - 1), ToNat(b));
    }
  }

  lemma Twice(p: nat, n: nat)
    ensures 2 * (p * n) == (2 * p) * n
  {
  }

  /** Any four bytes written to a register of the CPU are what is read back from it, with status OK and a CRC that
      checks, and in between the register holds the number they stand for. */
  lemma SprWriteThenRead(d: Debug, data: seq<Byte>, addr: nat, setWrite: Bits, goWrite: Bits, setRead: Bits,
    goRead: Bits)
    requires CpuTarget(d) && |data| == 4 && addr < 0x1_0000_0000
    requires IsWriteCommand(setWrite, 2, addr, 4) && IsGoWrite(goWrite, data)
    requires IsWriteCommand(setRead, 6, addr, 4) && IsGoRead(goRead, 4) && |goRead| % 8 == 0 && CleanStatus(goRead, 4)
    ensures
      var goBits := SELECT_BITS + 32;
      var d1 := Exchange(d, setWrite, COMMAND_BITS).0;
      var d2 := Exchange(d1, goWrite, goBits).0;
      var d3 := Exchange(d2, setRead, COMMAND_BITS).0;
      var (d4, out) := Exchange(d3, goRead, goBits);
      var spr := addr % MAX_SPRS;
      spr in d2.sprs && ToNat(d2.sprs[spr]) == LittleEndian(data) && d2.sprs == d.sprs[spr := d2.sprs[spr]] &&
      d4.sprs == d2.sprs && d4.mem == d.mem && GoodReply(out, data)
  {
    hide Over, Stream, ReadData, ShiftDr, Respond, StatusAndCrc, IsWriteCommand, IsGoWrite, ReplyData, ReplyStatus,
      ReplyChecks, SprValue;
    GoFits(goWrite, data);
    CommandFits(setWrite, 2, addr, 4);
    CommandFits(setRead, 6, addr, 4);
    var spr := addr % MAX_SPRS;
    var d1 := d.(writeDefined := true, accType := 2, addr := spr, size := 4);
    SprRecorded(d, setWrite, 2, addr);
    SprWritten(d1, goWrite, data);
    var d2 := d1.(sprs := d.sprs[spr := SprValue(data)], addr := spr + 1);
    SprRecorded(d2, setRead, 6, addr);
    var d3 := d2.(accType := 6, addr := spr);
    SprReturned(d3, goRead);
    SprFetched(d3, data);
    SprArithmetic(data);
    ReplyDecodes(goRead, data);
  }

  lemma SprFetched(d: Debug, data: seq<Byte>)
    requires d.modId == JM_CPU0 && |data| == 4 && d.addr in d.sprs && d.sprs[d.addr] == SprValue(data)
    ensures ReadData(d, 4) == data
  {
    forall i | 0 <= i < 4
      ensures ReadData(d, 4)[i] == data[i]
    {
      var spr := SprValue(data);
      assert forall k :: 0 <= k < 8 ==> spr[8 * i..8 * i + 8][k] == spr[8 * i + k] == data[i][k];
    }
  }

  /** What is read is the register's bytes from the lowest on. */
  lemma SprReadArithmetic(d: Debug)
    requires d.modId == JM_CPU0
    ensures ToNat(SprOf(d)) == LittleEndian(ReadData(d, 4))
  {
    var data := ReadData(d, 4);
    assert SprValue(data) == SprOf(d) by {
      forall k | 0 <= k < 32
        ensures SprValue(data)[k] == SprOf(d)[k]
      {
        assert data[k / 8] == SprOf(d)[8 * (k / 8)..8 * (k / 8) + 8];
        assert 8 * (k / 8) + k % 8 == k;
      }
    }
    SprArithmetic(data);
  }
}
