/** The debug unit's data registers: what each shifted register means, what it changes, and
    what is shifted back.

    A register is the bit sequence in shift order.  Fields are sent most significant bit
    first, so a field's value is its bits reversed. */
module JtagSpec {
  import opened Bits
  import opened Crc

  const JI_DEBUG := 8
  const JM_UNDEFINED := -1
  const JM_WISHBONE := 0
  const JM_CPU0 := 1
  const JM_CPU1 := 2
  const JCMD_GO_COMMAND := 0
  const JCMD_READ_COMMAND := 1
  const JCMD_WRITE_COMMAND := 2
  const JCMD_READ_CONTROL := 3
  const JCMD_WRITE_CONTROL := 4
  const MAX_SPRS := 0x10000

  /** Status flags, least significant first: bad CRC, module missing, WishBone error, over- or underrun. */
  type Status = s: Bits | |s| == 4 witness Zeros(4)

  const JS_OK: Status := Zeros(4)
  const JS_CRC_IN_ERROR := 0
  const JS_MODULE_MISSING := 1
  const JS_WISHBONE_ERROR := 2
  const JS_OVER_UNDERRUN := 3

  function Flagged(status: Status, flag: nat): Status
    requires flag < 4
  {
    status[flag := true]
  }

  /** The debug unit, the memory behind it (its keys are the mapped addresses) and the SPRs. */
  datatype Debug = Debug(
    instr: int,
    modId: int,
    writeDefined: bool, accType: nat, addr: nat, size: nat,
    mem: map<int, Byte>,
    sprs: map<int, Crc32>,
    stalled: bool, resets: nat)

  function Field(reg: Bits, off: nat, n: nat): (r: Bits)
    requires off + n <= |reg|
    ensures |r| == n
  {
    Reverse(reg[off..off + n])
  }

  /** A field of `n` bits holding `v`, as it is sent. */
  function Sent(v: nat, n: nat): (r: Bits)
    ensures |r| == n
  {
    Reverse(ToBits(v, n))
  }

  /** The `n` bits before the CRC field agree with it. */
  predicate CrcGood(reg: Bits, n: nat)
    requires n + 32 <= |reg|
  {
    Over(Ones(32), reg[..n]) == Field(reg, n, 32)
  }

  // ---- Responses ----

  /** Status and CRC as they are sent back; the CRC goes on from `crc` over the status. */
  function StatusAndCrc(status: Status, crc: Crc32): (r: Bits)
    ensures |r| == 36
  {
    Reverse(status) + Reverse(Over(crc, Reverse(status)))
  }

  /** How many bytes the response occupies from the byte its status starts in. */
  function ResponseBytes(skip: nat): nat { if skip % 8 <= 4 then 5 else 6 }

  /** construct_response: `zero` bits are cleared, the bits up to `skip` are left, then come status and CRC.
      In the byte where they start they are ORed in; in the bytes after it they are stored. */
  function Respond(reg: Bits, resp: Bits, skip: nat, zero: nat): (r: Bits)
    requires |resp| == 36
    ensures |r| == |reg|
  {
    seq(|reg|, k requires 0 <= k < |reg| =>
      if k < zero then false
      else if k < skip || k / 8 >= skip / 8 + ResponseBytes(skip) then reg[k]
      else (k / 8 == skip / 8 && reg[k]) || (0 <= k - skip < 36 && resp[k - skip]))
  }

  /** The 36 bits of the response are readable exactly when the incoming register had no stray bit in what is left
      of the byte where they start. */
  lemma RespondReadable(reg: Bits, resp: Bits, skip: nat, zero: nat)
    requires zero <= skip && |resp| == 36 && 8 * (skip / 8 + ResponseBytes(skip)) <= |reg|
    ensures skip + 36 <= |reg|
    ensures Respond(reg, resp, skip, zero)[skip..skip + 36] == resp <==>
            (forall k :: skip <= k < skip - skip % 8 + 8 && reg[k] ==> resp[k - skip])
  {
    var r := Respond(reg, resp, skip, zero);
    assert forall k :: skip <= k < skip + 36 ==> (k / 8 == skip / 8 <==> k < skip - skip % 8 + 8);
    if r[skip..skip + 36] == resp {
      forall k | skip <= k < skip - skip % 8 + 8 && reg[k]
        ensures resp[k - skip]
      {
        assert r[k] == r[skip..skip + 36][k - skip];
      }
    } else {
      var j :| 0 <= j < 36 && r[skip..skip + 36][j] != resp[j];
      assert r[skip + j] != resp[j];
    }
  }

  // ---- SELECT_MODULE ----

  predicate ValidModule(id: int) { id == JM_WISHBONE || id == JM_CPU0 || id == JM_CPU1 }

  const SELECT_BITS := 73
  const COMMAND_BITS := 125

  function SelectModule(d: Debug, reg: Bits, numBits: nat): (r: (Debug, Bits))
    requires numBits <= |reg|
  {
    if numBits != SELECT_BITS then (d, reg)
    else if Over(Ones(32), [true] + reg[1..5]) != Field(reg, 5, 32) then
      (d, Respond(reg, StatusAndCrc(Flagged(JS_OK, JS_CRC_IN_ERROR), Ones(32)), 37, 37))
    else
      var id := ToNat(Field(reg, 1, 4));
      if ValidModule(id) then (d.(modId := id), Respond(reg, StatusAndCrc(JS_OK, Ones(32)), 37, 37))
      else (d.(modId := JM_UNDEFINED), Respond(reg, StatusAndCrc(Flagged(JS_OK, JS_MODULE_MISSING), Ones(32)), 37, 37))
  }

  // ---- WRITE_COMMAND ----

  predicate WriteAccess(acc: int) { 0 <= acc <= 2 }

  predicate ReadAccess(acc: int) { 4 <= acc <= 6 }

  function AccessBytes(acc: int): nat {
    if acc == 1 || acc == 5 then 2 else if acc == 2 || acc == 6 then 4 else 1
  }

  predicate ValidWishbone(acc: nat, addr: nat, size: nat) {
    (WriteAccess(acc) || ReadAccess(acc)) && addr % AccessBytes(acc) == 0 && size % AccessBytes(acc) == 0
  }

  predicate ValidSpr(acc: nat, size: nat) { (acc == 2 || acc == 6) && size == 4 }

  function WriteCommand(d: Debug, reg: Bits, numBits: nat): (r: (Debug, Bits))
    requires numBits <= |reg|
  {
    if numBits != COMMAND_BITS then (d.(writeDefined := false), reg)
    else
      var acc, addr, size := ToNat(Field(reg, 5, 4)), ToNat(Field(reg, 9, 32)), ToNat(Field(reg, 41, 16)) + 1;
      if Over(Ones(32), [false] + Sent(JCMD_WRITE_COMMAND, 4) + reg[5..57]) != Field(reg, 57, 32) then
        (d.(writeDefined := false), Respond(reg, StatusAndCrc(Flagged(JS_OK, JS_CRC_IN_ERROR), Ones(32)), 89, 89))
      else
        var ok := Respond(reg, StatusAndCrc(JS_OK, Ones(32)), 89, 89);
        if d.modId == JM_WISHBONE && ValidWishbone(acc, addr, size) then
          (d.(writeDefined := true, accType := acc, addr := addr, size := size), ok)
        else if d.modId == JM_CPU0 && ValidSpr(acc, size) then
          (d.(writeDefined := true, accType := acc, addr := addr % MAX_SPRS, size := size), ok)
        else (d.(writeDefined := false), ok)
  }

  // ---- GO_COMMAND ----

  /** The data bytes of a register that has them from bit `off` on. */
  function DataBytes(reg: Bits, off: nat, n: nat): (r: seq<Byte>)
    requires off + 8 * n <= |reg|
    ensures |r| == n
  {
    seq(n, i requires 0 <= i < n => Reverse(reg[off + 8 * i..off + 8 * i + 8]))
  }

  /** Bytes as they are sent. */
  function Stream(bytes: seq<Byte>): (r: Bits)
    ensures |r| == 8 * |bytes|
  {
    seq(8 * |bytes|, k requires 0 <= k < 8 * |bytes| => bytes[k / 8][7 - k % 8])
  }

  /** How many data bytes a GO_COMMAND of `numBits` bits has room for. */
  function GoBytes(numBits: nat): nat
    requires numBits >= SELECT_BITS
  {
    (numBits - SELECT_BITS) / 8
  }

  /** The same number as the C code computes it, in unsigned long, which counts modulo `host`. */
  function ComputedBytes(size: nat, numBits: nat, host: nat): nat
    requires host > 0
  {
    (8 * size + numBits - (SELECT_BITS + 8 * size)) % host / 8
  }

  /** The bytes it transfers lie in the register exactly when the register has the fixed fields of a GO_COMMAND; a
      shorter one makes the subtraction wrap around. */
  lemma ShortGoRunsOver(size: nat, numBits: nat, host: nat)
    requires (host == 0x1_0000_0000 || host == 0x1_0000_0000_0000_0000) && numBits < 0x8000_0000
    ensures SELECT_BITS + 8 * ComputedBytes(size, numBits, host) <= numBits <==> SELECT_BITS <= numBits
    ensures SELECT_BITS <= numBits ==> ComputedBytes(size, numBits, host) == GoBytes(numBits)
  {
    var n := numBits - SELECT_BITS;
    assert 8 * size + numBits - (SELECT_BITS + 8 * size) == n;
    if n < 0 {
      assert n % host == n + host;
    }
  }

  function GoStatus(d: Debug, numBits: nat): Status {
    if numBits == SELECT_BITS + 8 * d.size then JS_OK else Flagged(JS_OK, JS_OVER_UNDERRUN)
  }

  function Min(a: nat, b: nat): nat { if a < b then a else b }

  /** The bus address of byte `i` of an access. It has 32 bits; the debug unit's own address register is wider. */
  function Bus(addr: nat, i: nat): (r: nat)
    ensures r < 0x1_0000_0000
  {
    (addr + i) % 0x1_0000_0000
  }

  predicate AllMapped(mem: map<int, Byte>, addr: nat, n: nat) {
    forall i :: 0 <= i < n ==> Bus(addr, i) in mem
  }

  function WishboneStatus(d: Debug, n: nat, status: Status): Status {
    if AllMapped(d.mem, d.addr, Min(n, d.size)) then status else Flagged(status, JS_WISHBONE_ERROR)
  }

  /** Only mapped bytes change. */
  function PutAll(mem: map<int, Byte>, addr: nat, bytes: seq<Byte>): (r: map<int, Byte>)
    ensures r.Keys == mem.Keys
  {
    if bytes == [] then mem
    else
      var k := |bytes| - 1;
      var m := PutAll(mem, addr, bytes[..k]);
      if Bus(addr, k) in m then m[Bus(addr, k) := bytes[k]] else m
  }

  /** As long as the bytes fit in the address space each is found where it was written, and nothing else changes. */
  lemma {:induction false} PutAllAt(mem: map<int, Byte>, addr: nat, bytes: seq<Byte>, a: nat)
    requires |bytes| <= 0x1_0000_0000 && a in mem
    ensures PutAll(mem, addr, bytes)[a] ==
      if a < 0x1_0000_0000 && (a - addr) % 0x1_0000_0000 < |bytes| then bytes[(a - addr) % 0x1_0000_0000] else mem[a]
  {
    if bytes != [] {
      var k := |bytes| - 1;
      PutAllAt(mem, addr, bytes[..k], a);
      SamePlace(addr, k, a);
    }
  }

  lemma SamePlace(addr: nat, k: nat, a: nat)
    requires k < 0x1_0000_0000
    ensures Bus(addr, k) == a <==> a < 0x1_0000_0000 && (a - addr) % 0x1_0000_0000 == k
  {
  }

  function ByteAt(mem: map<int, Byte>, a: int): Byte { if a in mem then mem[a] else Zeros(8) }

  /** Byte `i` of a read: zero beyond the announced size or where nothing is mapped. */
  function Fetched(mem: map<int, Byte>, addr: nat, size: nat, i: nat): Byte {
    if i < size then ByteAt(mem, Bus(addr, i)) else Zeros(8)
  }

  function GetAll(mem: map<int, Byte>, addr: nat, size: nat, n: nat): (r: seq<Byte>)
    ensures |r| == n
  {
    seq(n, i requires 0 <= i < n => Fetched(mem, addr, size, i))
  }

  /** Byte `i` of a register, in the byte order of a big-endian target; zero beyond the fourth. */
  function SprByte(spr: Crc32, i: nat): Byte { if i < 4 then spr[8 * i..8 * i + 8] else Zeros(8) }

  function SprBytes(spr: Crc32, n: nat): (r: seq<Byte>)
    ensures |r| == n
  {
    seq(n, i requires 0 <= i < n => SprByte(spr, i))
  }

  function SprOf(d: Debug): Crc32 { if d.addr in d.sprs then d.sprs[d.addr] else Zeros(32) }

  function SprValue(bytes: seq<Byte>): Crc32 {
    seq(32, k requires 0 <= k < 32 => k / 8 < |bytes| && bytes[k / 8][k % 8])
  }

  /** The bytes a read GO_COMMAND transfers, and the unit afterwards with the status. */
  function ReadData(d: Debug, n: nat): seq<Byte> {
    if d.modId == JM_WISHBONE then GetAll(d.mem, d.addr, d.size, n)
    else if d.modId == JM_CPU0 then SprBytes(SprOf(d), n)
    else seq(n, _ => Zeros(8))
  }

  function ReadEffect(d: Debug, n: nat, status: Status): (Debug, Status) {
    if d.modId == JM_WISHBONE then
      var s := WishboneStatus(d, n, status);
      (if s == JS_OK then d.(addr := d.addr + d.size) else d, s)
    else if d.modId == JM_CPU0 then (if status == JS_OK then d.(addr := d.addr + 1) else d, status)
    else (d, status)
  }

  function WriteEffect(d: Debug, bytes: seq<Byte>, status: Status): (Debug, Status) {
    if d.modId == JM_WISHBONE then
      var s := WishboneStatus(d, |bytes|, status);
      var m := PutAll(d.mem, d.addr, bytes[..Min(|bytes|, d.size)]);
      (d.(mem := m, addr := if s == JS_OK then d.addr + d.size else d.addr), s)
    else if d.modId == JM_CPU0 then
      (d.(sprs := d.sprs[d.addr := SprValue(bytes)], addr := if status == JS_OK then d.addr + 1 else d.addr), status)
    else (d, status)
  }

  function GoWrite(d: Debug, reg: Bits, numBits: nat): (r: (Debug, Bits))
    requires SELECT_BITS <= numBits <= |reg|
  {
    var n := GoBytes(numBits);
    var status := GoStatus(d, numBits);
    if Over(Ones(32), Zeros(5) + reg[5..5 + 8 * n]) != Field(reg, 5 + 8 * n, 32) then
      (d, Respond(reg, StatusAndCrc(Flagged(status, JS_CRC_IN_ERROR), Ones(32)), 37 + 8 * n, 37 + 8 * n))
    else
      var (d', s) := WriteEffect(d, DataBytes(reg, 5, n), status);
      (d', Respond(reg, StatusAndCrc(s, Ones(32)), 37 + 8 * n, 37 + 8 * n))
  }

  function GoRead(d: Debug, reg: Bits, numBits: nat): (r: (Debug, Bits))
    requires SELECT_BITS <= numBits <= |reg|
  {
    var n := GoBytes(numBits);
    var status := GoStatus(d, numBits);
    if Over(Ones(32), Zeros(5)) != Field(reg, 5, 32) then
      (d, Respond(reg, StatusAndCrc(Flagged(status, JS_CRC_IN_ERROR), Zeros(32)), 37 + 8 * n, 37))
    else
      var data := Stream(ReadData(d, n));
      var (d', s) := ReadEffect(d, n, status);
      (d', Respond(reg[..37] + data + reg[37 + 8 * n..], StatusAndCrc(s, Over(Ones(32), data)), 37 + 8 * n, 37))
  }

  function Cleared(reg: Bits, n: nat): (r: Bits)
    ensures |r| == |reg|
  {
    seq(|reg|, k requires 0 <= k < |reg| => k >= n && reg[k])
  }

  function GoCommand(d: Debug, reg: Bits, numBits: nat): (r: (Debug, Bits))
    requires numBits <= |reg| && (d.writeDefined ==> SELECT_BITS <= numBits)
  {
    if !d.writeDefined then (d, Cleared(reg, 8 * ((numBits + 7) / 8)))
    else if WriteAccess(d.accType) then GoWrite(d, reg, numBits)
    else if ReadAccess(d.accType) then GoRead(d, reg, numBits)
    else (d, reg)
  }

  // ---- READ_COMMAND and the CPU control registers ----

  /** The fields of the last WRITE_COMMAND as they are sent; zeros if there was none. */
  function CommandFields(d: Debug): (r: Bits)
    ensures |r| == 52
  {
    if d.writeDefined then Sent(d.accType, 4) + Sent(d.addr, 32) + Sent((d.size + 0xffff) % 0x1_0000, 16) else Zeros(52)
  }

  /** ORs `fields` into the register from bit 37 on. */
  function Insert(reg: Bits, fields: Bits): (r: Bits)
    ensures |r| == |reg|
  {
    seq(|reg|, k requires 0 <= k < |reg| => reg[k] || (0 <= k - 37 < |fields| && fields[k - 37]))
  }

  /** READ_COMMAND and READ_CONTROL: 52 bits of data between the zeros and the status. */
  function Report(reg: Bits, command: nat, fields: Bits): (r: Bits)
    requires COMMAND_BITS <= |reg| && |fields| == 52
    ensures |r| == |reg|
  {
    if Over(Ones(32), [false] + Sent(command, 4)) != Field(reg, 5, 32) then
      Respond(reg, StatusAndCrc(Flagged(JS_OK, JS_CRC_IN_ERROR), Ones(32)), 89, 37)
    else Respond(Insert(reg, fields), StatusAndCrc(JS_OK, Over(Ones(32), fields)), 89, 37)
  }

  function ReadCommand(d: Debug, reg: Bits, numBits: nat): (r: (Debug, Bits))
    requires numBits <= |reg|
  {
    if numBits != COMMAND_BITS then (d, reg) else (d, Report(reg, JCMD_READ_COMMAND, CommandFields(d)))
  }

  /** The stall bit is bit 50 of 52, so it is the second one sent. */
  function ControlFields(d: Debug): (r: Bits)
    ensures |r| == 52
  {
    seq(52, k => k == 1 && d.modId == JM_CPU0 && d.stalled)
  }

  function ReadControl(d: Debug, reg: Bits, numBits: nat): (r: (Debug, Bits))
    requires numBits <= |reg|
  {
    if numBits != COMMAND_BITS then (d, reg) else (d, Report(reg, JCMD_READ_CONTROL, ControlFields(d)))
  }

  /** Only the CPU can be controlled; a reset makes the stall bit irrelevant. */
  function Controlled(d: Debug, reset: bool, stall: bool): Debug {
    if d.modId != JM_CPU0 then d
    else if reset then d.(resets := d.resets + 1)
    else d.(stalled := stall)
  }

  function WriteControl(d: Debug, reg: Bits, numBits: nat): (r: (Debug, Bits))
    requires numBits <= |reg|
  {
    if numBits != COMMAND_BITS then (d, reg)
    else if Over(Ones(32), [false] + Sent(JCMD_WRITE_CONTROL, 4) + reg[5..57]) != Field(reg, 57, 32) then
      (d, Respond(reg, StatusAndCrc(Flagged(JS_OK, JS_CRC_IN_ERROR), Ones(32)), 89, 89))
    else
      var ok := Respond(reg, StatusAndCrc(JS_OK, Ones(32)), 89, 89);
      (Controlled(d, reg[5], reg[6]), ok)
  }

  // ---- Dispatch ----

  function Command(reg: Bits): nat
    requires |reg| >= 8
  {
    ToNat(Field(reg, 1, 4))
  }

  predicate IsSelect(reg: Bits)
    requires |reg| >= 8
  {
    reg[0]
  }

  predicate IsGo(reg: Bits)
    requires |reg| >= 8
  {
    !reg[0] && Command(reg) == JCMD_GO_COMMAND
  }

  /** What a host may shift: the buffer holds the register, and a GO_COMMAND has room for its fixed fields. */
  predicate Shiftable(d: Debug, reg: Bits, numBits: nat) {
    8 <= |reg| && numBits <= |reg| && (IsGo(reg) && d.writeDefined ==> SELECT_BITS <= numBits)
  }

  /** jtag_shift_dr: the new state and what is shifted back. */
  function ShiftDr(d: Debug, reg: Bits, numBits: nat): (r: (Debug, Bits))
    requires Shiftable(d, reg, numBits)
  {
    if d.instr != JI_DEBUG then (d, reg)
    else if IsSelect(reg) then SelectModule(d, reg, numBits)
    else
      var c := Command(reg);
      if c == JCMD_GO_COMMAND then GoCommand(d, reg, numBits)
      else if c == JCMD_READ_COMMAND then ReadCommand(d, reg, numBits)
      else if c == JCMD_WRITE_COMMAND then WriteCommand(d, reg, numBits)
      else if c == JCMD_READ_CONTROL then ReadControl(d, reg, numBits)
      else if c == JCMD_WRITE_CONTROL then WriteControl(d, reg, numBits)
      else (d, reg)
  }
}
