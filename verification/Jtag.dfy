/** The debug interface on its byte buffers.

    Every method is the C function of the same name, working on the bytes of the register in place; its contract says
    that bits and state become what `JtagSpec` says. */
module Jtag {
  import opened Bits
  import opened Crc
  import opened JtagSpec

  /** The bits of a buffer in shift order. */
  function Flat(s: seq<Byte>): (r: Bits)
    ensures |r| == 8 * |s|
  {
    seq(8 * |s|, k requires 0 <= k < 8 * |s| => s[k / 8][k % 8])
  }

  lemma FlatBit(s: seq<Byte>, i: nat, b: nat)
    requires i < |s| && b < 8
    ensures 8 * i + b < |Flat(s)| && Flat(s)[8 * i + b] == s[i][b]
  {
  }

  /** Two buffers are equal when all their bits are. */
  lemma FlatEqual(s: seq<Byte>, r: Bits)
    requires |r| == 8 * |s|
    requires forall i, b :: 0 <= i < |s| && 0 <= b < 8 ==> s[i][b] == r[8 * i + b]
    ensures Flat(s) == r
  {
    forall k | 0 <= k < |r|
      ensures Flat(s)[k] == r[k]
    {
      assert s[k / 8][k % 8] == r[8 * (k / 8) + k % 8];
    }
  }

  // ---- Reading fields ----

  /** reverse_bits on a value of at most 64 bits. */
  function Reversed(v: Bits, n: nat): (r: Bits)
    requires n <= |v| <= 64
    ensures r == Reverse(v[..n])
  {
    ReverseBitsReverses(Resize(v, 64), n);
    assert Resize(v, 64)[..n] == v[..n];
    ReverseBits(Resize(v, 64), n)[..n]
  }

  /** Bits `off` and up of a byte as the low bits of a word. */
  function HighPart(b: Byte, off: nat, n: nat): Bits
    requires off < 8 <= n
  {
    Shr(And(Resize(b, n), Shl(Ones(n), off)), off)
  }

  /** The low `off` bits of a byte, `sh` places up in a word. */
  function LowPart(b: Byte, off: nat, sh: nat, n: nat): Bits
    requires off < 8 <= n
  {
    Shl(And(Resize(b, n), Resize(Ones(off), n)), sh)
  }

  /** The 32 bits from bit `off` of byte `i` on, put together from five bytes. */
  function GatherWord(s: seq<Byte>, i: nat, off: nat): (r: Bits)
    requires i + 5 <= |s| && 0 < off < 8
    ensures |r| == 32
  {
    Or(Or(Or(Or(HighPart(s[i], off, 32), Shl(Resize(s[i + 1], 32), 8 - off)), Shl(Resize(s[i + 2], 32), 16 - off)),
          Shl(Resize(s[i + 3], 32), 24 - off)), LowPart(s[i + 4], off, 32 - off, 32))
  }

  lemma Gathered(s: seq<Byte>, i: nat, off: nat)
    requires i + 5 <= |s| && 0 < off < 8
    ensures GatherWord(s, i, off) == Flat(s)[8 * i + off..8 * i + off + 32]
  {
    hide Or, Shl, Shr, And, Resize, Ones, Flat;
    var g := GatherWord(s, i, off);
    forall k | 0 <= k < 32
      ensures g[k] == Flat(s)[8 * i + off + k]
    {
      var m, b := (k + off) / 8, (k + off) % 8;
      FlatBit(s, i + m, b);
      assert 8 * (i + m) + b == 8 * i + off + k;
    }
  }

  /** A 32-bit field. */
  function WordField(s: seq<Byte>, i: nat, off: nat): (r: Bits)
    requires i + 5 <= |s| && 0 < off < 8
    ensures r == Field(Flat(s), 8 * i + off, 32)
  {
    Gathered(s, i, off);
    var g := GatherWord(s, i, off);
    assert g[..32] == g;
    Reversed(g, 32)
  }

  /** The eight bits from bit 5 of byte `i` on. */
  function GatherByte(s: seq<Byte>, i: nat): (r: Byte)
    requires i + 2 <= |s|
    ensures r == Flat(s)[8 * i + 5..8 * i + 13]
  {
    var r := Or(Shr(s[i], 5), Shl(s[i + 1], 3));
    assert forall b :: 0 <= b < 8 ==> r[b] == Flat(s)[8 * i + 5 + b];
    r
  }

  // ---- The response ----

  /** Byte `m` of a 36-bit response that starts at bit `off` of its first byte. */
  predicate ResponseByte(b: Bits, resp: Bits, off: nat, m: nat)
    requires |resp| == 36
  {
    |b| == 8 && forall k :: 0 <= k < 8 ==> b[k] == (0 <= 8 * m + k - off < 36 && resp[8 * m + k - off])
  }

  /** The bits of the status and of the CRC, reversed, are the response in order. */
  lemma ResponseParts(status: Status, crc: Crc32)
    ensures
      var out := Over(crc, Reverse(status));
      Reverse(status) == StatusAndCrc(status, crc)[..4] && Reverse(out) == StatusAndCrc(status, crc)[4..]
  {
    hide Over;
  }

  lemma FirstByteLow(st: Byte, cr: Bits, resp: Bits, off: nat)
    requires |cr| == 32 && |resp| == 36 && off <= 4
    requires (forall k :: 0 <= k < 8 ==> st[k] == (k < 4 && resp[k])) && cr == resp[4..]
    ensures ResponseByte(Or(Resize(Shl(Resize(st, 32), off), 8), Resize(Shl(cr, 4 + off), 8)), resp, off, 0)
  {
  }

  lemma LaterByte(cr: Bits, resp: Bits, off: nat, m: nat)
    requires |cr| == 32 && |resp| == 36 && cr == resp[4..] && off < 8 && m > 0 && 8 * m >= 4 + off
    ensures ResponseByte(Resize(Shr(cr, 8 * m - 4 - off), 8), resp, off, m)
  {
  }

  lemma FirstByteHigh(st: Byte, cr: Bits, resp: Bits, off: nat)
    requires |cr| == 32 && |resp| == 36 && 4 < off < 8
    requires (forall k :: 0 <= k < 8 ==> st[k] == (k < 4 && resp[k])) && cr == resp[4..]
    ensures ResponseByte(Resize(Shl(Resize(st, 32), off), 8), resp, off, 0)
    ensures ResponseByte(Or(Shr(st, 8 - off), Resize(Shl(cr, off - 4), 8)), resp, off, 1)
  {
  }

  /** The bytes after clearing and storing make up the response register. */
  lemma ResponseStored(was: seq<Byte>, now: seq<Byte>, resp: Bits, skip: nat, zero: nat)
    requires |was| == |now| && |resp| == 36 && zero <= skip
    requires skip / 8 + ResponseBytes(skip) <= |was|
    requires forall i, b :: 0 <= i < |was| && 0 <= b < 8 && (i < skip / 8 || i >= skip / 8 + ResponseBytes(skip)) ==>
               now[i][b] == (8 * i + b >= zero && was[i][b])
    requires forall b :: 0 <= b < 8 ==>
               now[skip / 8][b] == ((8 * (skip / 8) + b >= zero && was[skip / 8][b]) ||
                                    (0 <= b - skip % 8 && resp[b - skip % 8]))
    requires forall i :: skip / 8 < i < skip / 8 + ResponseBytes(skip) ==>
      ResponseByte(now[i], resp, skip % 8, i - skip / 8)
    ensures Flat(now) == Respond(Flat(was), resp, skip, zero)
  {
    hide Flat, ResponseByte;
    var r := Respond(Flat(was), resp, skip, zero);
    forall i, b | 0 <= i < |now| && 0 <= b < 8
      ensures now[i][b] == r[8 * i + b]
    {
      FlatBit(was, i, b);
      var k := 8 * i + b;
      assert k / 8 == i;
      if skip / 8 < i < skip / 8 + ResponseBytes(skip) {
        var m := i - skip / 8;
        ResponseBit(now[i], resp, skip % 8, m, b);
        assert k - skip == 8 * m + b - skip % 8;
      }
    }
    FlatEqual(now, r);
  }

  lemma ResponseBit(x: Bits, resp: Bits, off: nat, m: nat, k: nat)
    requires |resp| == 36 && ResponseByte(x, resp, off, m) && k < 8
    ensures |x| == 8 && x[k] == (0 <= 8 * m + k - off < 36 && resp[8 * m + k - off])
  {
  }

  /** Status and CRC into the buffer, for a status that lies in one byte. */
  method StoreLow(jreg: array<Byte>, statusR: Byte, crcR: Bits, skipBytes: nat, off: nat, ghost resp: Bits)
    requires skipBytes + 5 <= jreg.Length && off <= 4 && |crcR| == 32 && |resp| == 36
    requires (forall k :: 0 <= k < 8 ==> statusR[k] == (k < 4 && resp[k])) && crcR == resp[4..]
    modifies jreg
    ensures forall i :: 0 <= i < jreg.Length && !(skipBytes <= i < skipBytes + 5) ==> jreg[i] == old(jreg[i])
    ensures forall b :: 0 <= b < 8 ==>
              jreg[skipBytes][b] == (old(jreg[skipBytes])[b] || (0 <= b - off && resp[b - off]))
    ensures forall i :: skipBytes < i < skipBytes + 5 ==> ResponseByte(jreg[i], resp, off, i - skipBytes)
  {
    hide Or, Shl, Shr, Resize, ResponseByte;
    var first: Byte := Or(Resize(Shl(Resize(statusR, 32), off), 8), Resize(Shl(crcR, 4 + off), 8));
    FirstByteLow(statusR, crcR, resp, off);
    assert forall b :: 0 <= b < 8 ==> first[b] == (0 <= b - off && resp[b - off]) by { FirstBits(first, resp, off); }
    LaterByte(crcR, resp, off, 1);
    LaterByte(crcR, resp, off, 2);
    LaterByte(crcR, resp, off, 3);
    LaterByte(crcR, resp, off, 4);
    jreg[skipBytes] := Or(jreg[skipBytes], first);
    jreg[skipBytes + 1] := Resize(Shr(crcR, 4 - off), 8);
    jreg[skipBytes + 2] := Resize(Shr(crcR, 12 - off), 8);
    jreg[skipBytes + 3] := Resize(Shr(crcR, 20 - off), 8);
    jreg[skipBytes + 4] := Resize(Shr(crcR, 28 - off), 8);
  }

  /** Status and CRC into the buffer, for a status that crosses into a second byte. */
  method StoreHigh(jreg: array<Byte>, statusR: Byte, crcR: Bits, skipBytes: nat, off: nat, ghost resp: Bits)
    requires skipBytes + 6 <= jreg.Length && 4 < off < 8 && |crcR| == 32 && |resp| == 36
    requires (forall k :: 0 <= k < 8 ==> statusR[k] == (k < 4 && resp[k])) && crcR == resp[4..]
    modifies jreg
    ensures forall i :: 0 <= i < jreg.Length && !(skipBytes <= i < skipBytes + 6) ==> jreg[i] == old(jreg[i])
    ensures forall b :: 0 <= b < 8 ==>
              jreg[skipBytes][b] == (old(jreg[skipBytes])[b] || (0 <= b - off && resp[b - off]))
    ensures forall i :: skipBytes < i < skipBytes + 6 ==> ResponseByte(jreg[i], resp, off, i - skipBytes)
  {
    hide Or, Shl, Shr, Resize, ResponseByte;
    var first: Byte := Resize(Shl(Resize(statusR, 32), off), 8);
    FirstByteHigh(statusR, crcR, resp, off);
    assert forall b :: 0 <= b < 8 ==> first[b] == (0 <= b - off && resp[b - off]) by { FirstBits(first, resp, off); }
    LaterByte(crcR, resp, off, 2);
    LaterByte(crcR, resp, off, 3);
    LaterByte(crcR, resp, off, 4);
    LaterByte(crcR, resp, off, 5);
    jreg[skipBytes] := Or(jreg[skipBytes], first);
    jreg[skipBytes + 1] := Or(Shr(statusR, 8 - off), Resize(Shl(crcR, off - 4), 8));
    jreg[skipBytes + 2] := Resize(Shr(crcR, 12 - off), 8);
    jreg[skipBytes + 3] := Resize(Shr(crcR, 20 - off), 8);
    jreg[skipBytes + 4] := Resize(Shr(crcR, 28 - off), 8);
    jreg[skipBytes + 5] := Resize(Shr(crcR, 36 - off), 8);
  }

  lemma FirstBits(first: Byte, resp: Bits, off: nat)
    requires |resp| == 36 && ResponseByte(first, resp, off, 0)
    ensures forall b :: 0 <= b < 8 ==> first[b] == (0 <= b - off && resp[b - off])
  {
  }

  lemma StatusBits(status: Status, crc: Crc32, st: Byte)
    requires st == Resize(Reverse(status), 8)
    ensures forall k :: 0 <= k < 8 ==> st[k] == (k < 4 && StatusAndCrc(status, crc)[k])
  {
    hide Over;
  }

  /** The outgoing CRC is computed over the status; both fields are then reversed. */
  method ResponseFields(status: Status, crcIn: Crc32) returns (statusR: Byte, crcR: Bits)
    ensures |crcR| == 32 && crcR == StatusAndCrc(status, crcIn)[4..]
    ensures forall k :: 0 <= k < 8 ==> statusR[k] == (k < 4 && StatusAndCrc(status, crcIn)[k])
  {
    hide Resize, Over, StatusAndCrc, Reverse;
    assert status[..4] == status;
    var crcOut := Crc32Of(status, 4, crcIn);
    assert crcOut[..32] == crcOut;
    statusR := Resize(Reversed(status, 4), 8);
    crcR := Reversed(crcOut, 32);
    ResponseParts(status, crcIn);
    StatusBits(status, crcIn, statusR);
  }

  method ConstructResponse(jreg: array<Byte>, status: Status, crcIn: Crc32, ign: nat, zero: nat)
    requires (ign + zero) / 8 + ResponseBytes(ign + zero) <= jreg.Length
    modifies jreg
    ensures Flat(jreg[..]) == Respond(old(Flat(jreg[..])), StatusAndCrc(status, crcIn), ign + zero, zero)
  {
    hide Over, StatusAndCrc, Respond, Flat, ResponseByte;
    ghost var was := jreg[..];
    var statusR, crcR := ResponseFields(status, crcIn);
    ghost var resp := StatusAndCrc(status, crcIn);
    ClearZeroBits(jreg, zero / 8, zero % 8);
    var skipBytes, off := (ign + zero) / 8, (ign + zero) % 8;
    if off <= 4 {
      StoreLow(jreg, statusR, crcR, skipBytes, off, resp);
    } else {
      StoreHigh(jreg, statusR, crcR, skipBytes, off, resp);
    }
    ResponseStored(was, jreg[..], resp, ign + zero, zero);
  }

  /** Whole bytes first, then the low bits of the next one. */
  method ClearZeroBits(jreg: array<Byte>, zeroBytes: nat, zeroOff: nat)
    requires zeroBytes < jreg.Length && zeroOff < 8
    modifies jreg
    ensures forall i, b :: 0 <= i < jreg.Length && 0 <= b < 8 ==>
              jreg[i][b] == (8 * i + b >= 8 * zeroBytes + zeroOff && old(jreg[i])[b])
  {
    var i := 0;
    while i < zeroBytes
      invariant 0 <= i <= zeroBytes
      invariant forall j :: 0 <= j < jreg.Length ==> jreg[j] == if j < i then Zeros(8) else old(jreg[j])
    {
      jreg[i] := Zeros(8);
      i := i + 1;
    }
    jreg[zeroBytes] := Shr(jreg[zeroBytes], zeroOff);
    jreg[zeroBytes] := Shl(jreg[zeroBytes], zeroOff);
  }

  // ---- CRCs over fields ----

  /** crc32 over a field that is already a value: its bits enter as they stand in the register. */
  method CrcField(reg: array<Byte>, value: Bits, n: nat, crcIn: Crc32, ghost off: nat) returns (crc: Crc32)
    requires n <= |value| && off + n <= 8 * reg.Length && value[..n] == Field(Flat(reg[..]), off, n)
    ensures crc == Over(crcIn, Flat(reg[..])[off..off + n])
  {
    hide Over, Flat;
    crc := Crc32Of(value, n, crcIn);
    ReverseTwice(Flat(reg[..])[off..off + n]);
  }

  /** The first five bits of a register, as every handler computes their CRC. */
  method CrcCommand(first: bool, command: nat) returns (crc: Crc32)
    ensures crc == Over(Ones(32), [first] + Sent(command, 4))
  {
    hide Over;
    crc := Crc32Of([first], 1, Ones(32));
    assert [first][..1] == [first] && Reverse([first]) == [first];
    ghost var c1 := crc;
    crc := Crc32Of(ToBits(command, 4), 4, crc);
    assert ToBits(command, 4)[..4] == ToBits(command, 4);
    OverConcat(Ones(32), [first], Sent(command, 4));
  }

  class DebugUnit {
    var instr: int
    var modId: int
    var writeDefined: bool
    var accType: nat
    var addr: nat
    var size: nat
    var mem: map<int, Byte>
    var sprs: map<int, Crc32>
    var stalled: bool
    var resets: nat

    /** The state `JtagSpec` talks about. */
    ghost function State(): Debug
      reads this
    {
      Debug(instr, modId, writeDefined, accType, addr, size, mem, sprs, stalled, resets)
    }

    constructor (mem: map<int, Byte>, sprs: map<int, Crc32>)
      ensures State() == Debug(-1, JM_UNDEFINED, false, 0, 0, 0, mem, sprs, false, 0)
    {
      instr, modId, writeDefined := -1, JM_UNDEFINED, false;
      accType, addr, size := 0, 0, 0;
      this.mem, this.sprs, stalled, resets := mem, sprs, false, 0;
    }

    /** jtag_shift_ir: only a 4-bit register is taken. */
    method ShiftIr(jreg: array<Byte>, numBits: nat)
      requires jreg.Length > 0
      modifies this`instr
      ensures instr == if numBits == 4 then ToNat(Field(Flat(jreg[..]), 0, 4)) else old(instr)
    {
      hide Flat;
      if numBits == 4 {
        var f := SmallField(jreg[0], 0, jreg[..]);
        instr := ToNat(f);
      }
    }

    method SelectModule(jreg: array<Byte>, numBits: nat)
      requires numBits <= 8 * jreg.Length && jreg.Length >= 1 && IsSelect(Flat(jreg[..]))
      modifies jreg, this`modId
      ensures (State(), Flat(jreg[..])) == old(JtagSpec.SelectModule(State(), Flat(jreg[..]), numBits))
    {
      hide Over, Flat, Respond, StatusAndCrc, Reverse;
      if numBits != SELECT_BITS { return; }
      ghost var reg := Flat(jreg[..]);
      var idBits := SmallField(jreg[0], 1, jreg[..]);
      var crcIn := WordField(jreg[..], 0, 5);
      var crc := Crc32Of([true], 1, Ones(32));
      ghost var c1 := crc;
      crc := CrcField(jreg, idBits, 4, crc, 1);
      assert crc == Over(Ones(32), [true] + reg[1..5]) by {
        assert [true][..1] == [true] && Reverse([true]) == [true];
        OverConcat(Ones(32), [true], reg[1..5]);
      }
      var status := JS_OK;
      if crc == crcIn {
        var id := ToNat(idBits);
        if id == JM_WISHBONE || id == JM_CPU0 || id == JM_CPU1 {
          modId := id;
        } else {
          status := Flagged(status, JS_MODULE_MISSING);
          modId := JM_UNDEFINED;
        }
      } else {
        status := Flagged(status, JS_CRC_IN_ERROR);
      }
      ConstructResponse(jreg, status, Ones(32), 0, 37);
    }

    // ---- WRITE_COMMAND ----

    method ValidateWb(acc: nat, a: nat, n: nat) returns (ok: bool)
      ensures ok == ValidWishbone(acc, a, n)
    {
      ok := true;
      var accessBytes := 1;
      if acc == 0 || acc == 4 { accessBytes := 1; }
      else if acc == 1 || acc == 5 { accessBytes := 2; }
      else if acc == 2 || acc == 6 { accessBytes := 4; }
      else { ok := false; }
      if a % accessBytes != 0 { ok := false; }
      if n % accessBytes != 0 { ok := false; }
    }

    method ValidateSpr(acc: nat, n: nat) returns (ok: bool)
      ensures ok == ValidSpr(acc, n)
    {
      ok := acc == 2 || acc == 6;
      if n != 4 { ok := false; }
    }

    /** The CRC over all fields of a WRITE_COMMAND. */
    method CommandCrc(jreg: array<Byte>, accBits: Bits, addrBits: Bits, lenBits: Bits) returns (crc: Crc32)
      requires COMMAND_BITS <= 8 * jreg.Length
      requires accBits == Field(Flat(jreg[..]), 5, 4) && addrBits == Field(Flat(jreg[..]), 9, 32)
      requires lenBits == Field(Flat(jreg[..]), 41, 16)
      ensures crc == Over(Ones(32), [false] + Sent(JCMD_WRITE_COMMAND, 4) + Flat(jreg[..])[5..57])
    {
      hide Over, Flat, Field, Sent;
      crc := CrcCommand(false, JCMD_WRITE_COMMAND);
      assert accBits[..4] == accBits && addrBits[..32] == addrBits && lenBits[..16] == lenBits;
      crc := CrcField(jreg, accBits, 4, crc, 5);
      crc := CrcField(jreg, addrBits, 32, crc, 9);
      crc := CrcField(jreg, lenBits, 16, crc, 41);
      CrcThreeFields(Ones(32), [false] + Sent(JCMD_WRITE_COMMAND, 4), Flat(jreg[..]));
    }

    /** Records a WRITE_COMMAND whose CRC is good, or cancels the pending one. */
    method Record(acc: nat, a: nat, n: nat)
      modifies this`writeDefined, this`accType, this`addr, this`size
      ensures
        if old(modId == JM_WISHBONE && ValidWishbone(acc, a, n)) then
          State() == old(State().(writeDefined := true, accType := acc, addr := a, size := n))
        else if old(modId == JM_CPU0 && ValidSpr(acc, n)) then
          State() == old(State().(writeDefined := true, accType := acc, addr := a % MAX_SPRS, size := n))
        else State() == old(State().(writeDefined := false))
    {
      hide ValidWishbone, ValidSpr;
      if modId == JM_WISHBONE {
        var ok := ValidateWb(acc, a, n);
        if ok {
          writeDefined, accType, addr, size := true, acc, a, n;
        } else {
          writeDefined := false;
        }
      } else if modId == JM_CPU0 {
        var ok := ValidateSpr(acc, n);
        if ok {
          writeDefined, accType, addr, size := true, acc, a % MAX_SPRS, n;
        } else {
          writeDefined := false;
        }
      } else {
        writeDefined := false;
      }
    }

    method WriteCommand(jreg: array<Byte>, numBits: nat)
      requires numBits <= 8 * jreg.Length
      modifies jreg, this`writeDefined, this`accType, this`addr, this`size
      ensures (State(), Flat(jreg[..])) == old(JtagSpec.WriteCommand(State(), Flat(jreg[..]), numBits))
    {
      hide Over, Flat, Respond, StatusAndCrc, Field, ValidWishbone, ValidSpr, ToNat, Sent, Flagged;
      if numBits != COMMAND_BITS {
        writeDefined := false;
        return;
      }
      var accBits := AccessField(jreg[..]);
      var addrBits := WordField(jreg[..], 1, 1);
      var lenBits := LengthField(jreg[..]);
      var crcIn := WordField(jreg[..], 7, 1);
      var crc := CommandCrc(jreg, accBits, addrBits, lenBits);
      var status := JS_OK;
      if crc == crcIn {
        Record(ToNat(accBits), ToNat(addrBits), ToNat(lenBits) + 1);
      } else {
        writeDefined := false;
        status := Flagged(status, JS_CRC_IN_ERROR);
      }
      ConstructResponse(jreg, status, Ones(32), 0, 89);
    }

    // ---- GO_COMMAND for reading ----

    /** Reads `n` bytes over WishBone into the register; the address advances if nothing went wrong. */
    method WishboneRead(jreg: array<Byte>, n: nat, status: Status) returns (crc: Crc32, s: Status)
      requires SELECT_BITS + 8 * n <= 8 * jreg.Length
      modifies jreg, this`addr
      ensures s == old(WishboneStatus(State(), n, status))
      ensures addr == old(if s == JS_OK then addr + size else addr)
      ensures Stored(old(Flat(jreg[..])), Flat(jreg[..]), GetAll(mem, old(addr), size, n), n)
      ensures crc == Over(Ones(32), Stream(GetAll(mem, old(addr), size, n)))
    {
      hide Over, Flat, Stream, GetAll, Reverse, WishboneStatus, Stored;
      ghost var d, reg := State(), Flat(jreg[..]);
      StatusAtStart(d, status);
      ghost var data := GetAll(mem, addr, size, n);
      crc, s := Ones(32), status;
      NothingStored(reg, data);
      OverNothing(Ones(32));
      var i := 0;
      while i < n
        invariant 0 <= i <= n
        invariant Stored(reg, Flat(jreg[..]), data, i)
        invariant crc == Over(Ones(32), Stream(data[..i]))
        invariant addr == old(addr) && s == WishboneStatus(d, i, status)
      {
        StatusOneMore(d, i, status);
        FetchedAt(mem, addr, size, n, i);
        var byte: Byte := Zeros(8);
        if i < size {
          if Bus(addr, i) !in mem {
            s := Flagged(s, JS_WISHBONE_ERROR);
          } else {
            byte := mem[Bus(addr, i)];
          }
        }
        assert byte == data[i];
        crc := PutDataByte(jreg, i, byte, crc, reg, data);
        i := i + 1;
      }
      assert data[..n] == data;
      if s == JS_OK { addr := addr + size; }
    }

    method SprRead(jreg: array<Byte>, n: nat, status: Status) returns (crc: Crc32)
      requires SELECT_BITS + 8 * n <= 8 * jreg.Length
      modifies jreg, this`addr
      ensures addr == old(if status == JS_OK then addr + 1 else addr)
      ensures Stored(old(Flat(jreg[..])), Flat(jreg[..]), SprBytes(old(SprOf(State())), n), n)
      ensures crc == Over(Ones(32), Stream(SprBytes(old(SprOf(State())), n)))
    {
      hide Over, Flat, Stream, Reverse;
      ghost var reg := Flat(jreg[..]);
      var spr: Crc32 := if addr in sprs then sprs[addr] else Zeros(32);
      ghost var data := SprBytes(spr, n);
      crc := Ones(32);
      NothingStored(reg, data);
      OverNothing(Ones(32));
      var i := 0;
      while i < n
        invariant 0 <= i <= n
        invariant Stored(reg, Flat(jreg[..]), data, i)
        invariant crc == Over(Ones(32), Stream(data[..i]))
        invariant addr == old(addr)
      {
        var byte: Byte := Zeros(8);
        if i < 4 {
          byte := Resize(Shr(spr, 8 * i), 8);
          assert byte == spr[8 * i..8 * i + 8];
        }
        assert byte == data[i];
        crc := PutDataByte(jreg, i, byte, crc, reg, data);
        i := i + 1;
      }
      assert data[..n] == data;
      if status == JS_OK { addr := addr + 1; }
    }

    method NullRead(jreg: array<Byte>, n: nat) returns (crc: Crc32)
      requires SELECT_BITS + 8 * n <= 8 * jreg.Length
      modifies jreg
      ensures Stored(old(Flat(jreg[..])), Flat(jreg[..]), NullData(n), n)
      ensures crc == Over(Ones(32), Stream(NullData(n)))
    {
      hide Over, Flat, Stream, Reverse;
      ghost var reg := Flat(jreg[..]);
      ghost var data := NullData(n);
      crc := Ones(32);
      NothingStored(reg, data);
      OverNothing(Ones(32));
      var i := 0;
      while i < n
        invariant 0 <= i <= n
        invariant Stored(reg, Flat(jreg[..]), data, i)
        invariant crc == Over(Ones(32), Stream(data[..i]))
      {
        crc := PutDataByte(jreg, i, Zeros(8), crc, reg, data);
        i := i + 1;
      }
      assert data[..n] == data;
    }

    /** The reading itself, once the CRC has been found good. */
    method Read(jreg: array<Byte>, n: nat, status: Status) returns (crcOut: Crc32, s: Status)
      requires SELECT_BITS + 8 * n <= 8 * jreg.Length
      modifies jreg, this`addr
      ensures (State(), s) == old(ReadEffect(State(), n, status))
      ensures var data := Stream(old(ReadData(State(), n)));
              crcOut == Over(Ones(32), data) &&
              Flat(jreg[..]) == old(Flat(jreg[..]))[..37] + data + old(Flat(jreg[..]))[37 + 8 * n..]
    {
      hide Over, Flat, Stream, GetAll, SprBytes, WishboneStatus, SprOf, Stored;
      ghost var d, reg := State(), Flat(jreg[..]);
      s := status;
      if modId == JM_WISHBONE {
        crcOut, s := WishboneRead(jreg, n, status);
      } else if modId == JM_CPU0 {
        crcOut := SprRead(jreg, n, status);
      } else {
        crcOut := NullRead(jreg, n);
      }
      AllStored(reg, Flat(jreg[..]), ReadData(d, n));
    }

    method GoCommandRead(jreg: array<Byte>, numBits: nat)
      requires SELECT_BITS <= numBits <= 8 * jreg.Length
      modifies jreg, this`addr
      ensures (State(), Flat(jreg[..])) == old(GoRead(State(), Flat(jreg[..]), numBits))
    {
      hide Over, Flat, Respond, StatusAndCrc, ReadEffect, ReadData, Stream, Field, Flagged, GoStatus;
      var n, status := GoSize(numBits);
      var crcIn := WordField(jreg[..], 0, 5);
      var crc := CrcCommand(false, JCMD_GO_COMMAND);
      GoCommandBits();
      var crcOut := Zeros(32);
      if crc == crcIn {
        crcOut, status := Read(jreg, n, status);
      } else {
        status := Flagged(status, JS_CRC_IN_ERROR);
      }
      ConstructResponse(jreg, status, crcOut, 8 * n, 37);
    }

    // ---- GO_COMMAND for writing ----

    /** Writes byte `i`, unless it lies beyond the announced size or nothing is mapped there. */
    method WriteByte(jreg: array<Byte>, n: nat, i: nat, was: Status, ghost d: Debug, ghost data: seq<Byte>,
      ghost status: Status)
      returns (s: Status)
      requires SELECT_BITS + 8 * n <= 8 * jreg.Length && i < n
      requires data == DataBytes(Flat(jreg[..]), 5, n) && addr == d.addr && size == d.size
      requires mem == PutAll(d.mem, d.addr, data[..Min(i, d.size)]) && was == WishboneStatus(d, i, status)
      modifies this`mem
      ensures mem == PutAll(d.mem, d.addr, data[..Min(i + 1, d.size)]) && s == WishboneStatus(d, i + 1, status)
    {
      hide Flat, PutAll, Reverse, DataBytes, WishboneStatus, Flagged;
      StatusOneMore(d, i, status);
      s := was;
      if i < size {
        PutOneMore(d.mem, d.addr, data, i);
        if Bus(addr, i) !in mem {
          s := Flagged(s, JS_WISHBONE_ERROR);
        } else {
          var byte := FetchByte(jreg, n, i);
          mem := mem[Bus(addr, i) := byte];
        }
      }
    }

    /** Writes the bytes that are mapped, up to the announced size. */
    method WishboneWrite(jreg: array<Byte>, n: nat, status: Status) returns (s: Status)
      requires SELECT_BITS + 8 * n <= 8 * jreg.Length
      modifies this`addr, this`mem
      ensures s == old(WishboneStatus(State(), n, status))
      ensures addr == old(if s == JS_OK then addr + size else addr)
      ensures mem == PutAll(old(mem), old(addr), DataBytes(Flat(jreg[..]), 5, n)[..Min(n, size)])
    {
      hide Flat, PutAll, Reverse, DataBytes, WishboneStatus;
      ghost var d := State();
      ghost var data := DataBytes(Flat(jreg[..]), 5, n);
      s := status;
      StatusAtStart(d, status);
      PutNothing(mem, addr, data);
      var i := 0;
      while i < n
        invariant 0 <= i <= n
        invariant addr == d.addr && mem == PutAll(d.mem, addr, data[..Min(i, size)])
        invariant s == WishboneStatus(d, i, status)
      {
        s := WriteByte(jreg, n, i, s, d, data, status);
        i := i + 1;
      }
      if s == JS_OK { addr := addr + size; }
    }

    method SprWrite(jreg: array<Byte>, n: nat, status: Status)
      requires SELECT_BITS + 8 * n <= 8 * jreg.Length
      modifies this`addr, this`sprs
      ensures addr == old(if status == JS_OK then addr + 1 else addr)
      ensures sprs == old(sprs)[old(addr) := SprValue(DataBytes(Flat(jreg[..]), 5, n))]
    {
      hide Flat, Reverse, DataBytes, SprValue, Shl, Resize;
      ghost var data := DataBytes(Flat(jreg[..]), 5, n);
      var spr: Crc32 := Zeros(32);
      SprAtStart(data);
      var i := 0;
      while i < n
        invariant 0 <= i <= n && addr == old(addr) && sprs == old(sprs)
        invariant spr == SprValue(data[..i])
      {
        SprOneMore(data, i);
        if i < 4 {
          var byte := FetchByte(jreg, n, i);
          spr := Or(spr, Shl(Resize(byte, 32), 8 * i));
        }
        i := i + 1;
      }
      assert data[..n] == data;
      sprs := sprs[addr := spr];
      if status == JS_OK { addr := addr + 1; }
    }

    /** The writing itself, once the CRC has been found good. */
    method Write(jreg: array<Byte>, n: nat, status: Status) returns (s: Status)
      requires SELECT_BITS + 8 * n <= 8 * jreg.Length
      modifies this`addr, this`mem, this`sprs
      ensures (State(), s) == old(WriteEffect(State(), DataBytes(Flat(jreg[..]), 5, n), status))
    {
      hide Flat, PutAll, DataBytes, WishboneStatus, SprValue;
      s := status;
      if modId == JM_WISHBONE {
        s := WishboneWrite(jreg, n, status);
      } else if modId == JM_CPU0 {
        SprWrite(jreg, n, status);
      }
    }

    /** Does the CRC field agree with command and data? */
    method WriteCrcGood(jreg: array<Byte>, n: nat) returns (good: bool)
      requires SELECT_BITS + 8 * n <= 8 * jreg.Length
      ensures
        var reg := Flat(jreg[..]);
        good == (Over(Ones(32), Zeros(5) + reg[5..5 + 8 * n]) == Field(reg, 5 + 8 * n, 32))
    {
      hide Over, Flat, Field;
      var crcIn := WordField(jreg[..], n, 5);
      var crc := CrcCommand(false, JCMD_GO_COMMAND);
      GoCommandBits();
      crc := CrcData(jreg, n, crc);
      OverConcat(Ones(32), Zeros(5), Flat(jreg[..])[5..5 + 8 * n]);
      good := crc == crcIn;
    }

    /** The number of data bytes and the status before anything is transferred. */
    method GoSize(numBits: nat) returns (n: nat, status: Status)
      requires SELECT_BITS <= numBits
      ensures n == GoBytes(numBits) && status == GoStatus(State(), numBits)
    {
      if numBits == SELECT_BITS + 8 * size {
        n, status := size, JS_OK;
      } else {
        n, status := (numBits - SELECT_BITS) / 8, Flagged(JS_OK, JS_OVER_UNDERRUN);
      }
    }

    method GoCommandWrite(jreg: array<Byte>, numBits: nat)
      requires SELECT_BITS <= numBits <= 8 * jreg.Length
      modifies jreg, this`addr, this`mem, this`sprs
      ensures (State(), Flat(jreg[..])) == old(GoWrite(State(), Flat(jreg[..]), numBits))
    {
      hide Over, Flat, Respond, StatusAndCrc, WriteEffect, Field, Flagged, DataBytes, GoStatus;
      var n, status := GoSize(numBits);
      var good := WriteCrcGood(jreg, n);
      if good {
        status := Write(jreg, n, status);
      } else {
        status := Flagged(status, JS_CRC_IN_ERROR);
      }
      ConstructResponse(jreg, status, Ones(32), 0, 37 + 8 * n);
    }

    method GoCommand(jreg: array<Byte>, numBits: nat)
      requires numBits <= 8 * jreg.Length && (writeDefined ==> SELECT_BITS <= numBits)
      modifies jreg, this`addr, this`mem, this`sprs
      ensures (State(), Flat(jreg[..])) == old(JtagSpec.GoCommand(State(), Flat(jreg[..]), numBits))
    {
      hide GoRead, GoWrite, Flat;
      if !writeDefined {
        ClearBytes(jreg, (numBits + 7) / 8);
        return;
      }
      if accType == 0 || accType == 1 || accType == 2 {
        GoCommandWrite(jreg, numBits);
      } else if accType == 4 || accType == 5 || accType == 6 {
        GoCommandRead(jreg, numBits);
      }
    }

    // ---- READ_COMMAND, READ_CONTROL, WRITE_CONTROL ----

    /** Is the CRC of a register without data good? */
    method ReadCrcGood(jreg: array<Byte>, command: nat) returns (good: bool)
      requires 5 <= jreg.Length
      ensures good == (Over(Ones(32), [false] + Sent(command, 4)) == Field(Flat(jreg[..]), 5, 32))
    {
      hide Over, Flat, Field;
      var crcIn := WordField(jreg[..], 0, 5);
      var crc := CrcCommand(false, command);
      good := crc == crcIn;
    }

    /** The fields of the last WRITE_COMMAND, or zeros. */
    method ReportedFields() returns (acc: Bits, a: Bits, len: Bits)
      ensures |acc| == 4 && |a| == 32 && |len| == 16
      ensures Reverse(acc) + Reverse(a) + Reverse(len) == CommandFields(State())
    {
      hide Reverse, ToBits, Zeros;
      acc, a, len := Zeros(4), Zeros(32), Zeros(16);
      if writeDefined {
        acc, a, len := ToBits(accType, 4), ToBits(addr, 32), ToBits((size + 0xffff) % 0x1_0000, 16);
      } else {
        ReversedZeros();
      }
    }

    method ReadCommand(jreg: array<Byte>, numBits: nat)
      requires numBits <= 8 * jreg.Length
      modifies jreg
      ensures (State(), Flat(jreg[..])) == old(JtagSpec.ReadCommand(State(), Flat(jreg[..]), numBits))
    {
      hide Over, Flat, Respond, StatusAndCrc, Field, Flagged, Insert, Reverse, CommandFields, Sent;
      if numBits != COMMAND_BITS { return; }
      var status, crcOut := JS_OK, Ones(32);
      var good := ReadCrcGood(jreg, JCMD_READ_COMMAND);
      if good {
        var acc, a, len := ReportedFields();
        ghost var fields := Reverse(acc) + Reverse(a) + Reverse(len);
        assert acc[..4] == acc && a[..32] == a && len[..16] == len;
        crcOut := Crc32Of(acc, 4, crcOut);
        crcOut := Crc32Of(a, 32, crcOut);
        crcOut := Crc32Of(len, 16, crcOut);
        OverConcat(Ones(32), Reverse(acc), Reverse(a));
        OverConcat(Ones(32), Reverse(acc) + Reverse(a), Reverse(len));
        InsertFields(jreg, Reversed(acc, 4), Reversed(a, 32), Reversed(len, 16), fields);
      } else {
        status := Flagged(status, JS_CRC_IN_ERROR);
      }
      ConstructResponse(jreg, status, crcOut, 52, 37);
    }

    method ReadControl(jreg: array<Byte>, numBits: nat)
      requires numBits <= 8 * jreg.Length
      modifies jreg
      ensures (State(), Flat(jreg[..])) == old(JtagSpec.ReadControl(State(), Flat(jreg[..]), numBits))
    {
      hide Over, Flat, Respond, StatusAndCrc, Field, Flagged, Insert;
      if numBits != COMMAND_BITS { return; }
      var status, crcOut := JS_OK, Ones(32);
      var good := ReadCrcGood(jreg, JCMD_READ_CONTROL);
      if good {
        var data := Zeros(64);
        if modId == JM_CPU0 { data := data[50 := stalled]; }
        crcOut := Crc32Of(data, 52, crcOut);
        var r := Resize(Reversed(data, 52), 64);
        assert Reverse(data[..52]) == ControlFields(State());
        InsertControl(jreg, r, ControlFields(State()));
      } else {
        status := Flagged(status, JS_CRC_IN_ERROR);
      }
      ConstructResponse(jreg, status, crcOut, 52, 37);
    }

    method ControlCrcGood(jreg: array<Byte>, data: Bits) returns (good: bool)
      requires COMMAND_BITS <= 8 * jreg.Length && data == Field(Flat(jreg[..]), 5, 52)
      ensures
        var reg := Flat(jreg[..]);
        good == (Over(Ones(32), [false] + Sent(JCMD_WRITE_CONTROL, 4) + reg[5..57]) == Field(reg, 57, 32))
    {
      hide Over, Flat, Field, Sent;
      var crcIn := WordField(jreg[..], 7, 1);
      var crc := CrcCommand(false, JCMD_WRITE_CONTROL);
      assert data[..52] == data;
      crc := CrcField(jreg, data, 52, crc, 5);
      OverConcat(Ones(32), [false] + Sent(JCMD_WRITE_CONTROL, 4), Flat(jreg[..])[5..57]);
      good := crc == crcIn;
    }

    /** Only the CPU can be reset or stalled. */
    method ApplyControl(data: Bits)
      requires |data| == 52
      modifies this`stalled, this`resets
      ensures State() == Controlled(old(State()), data[51], data[50])
    {
      if modId == JM_CPU0 {
        if data[51] {
          resets := resets + 1;
        } else {
          stalled := data[50];
        }
      }
    }

    method WriteControl(jreg: array<Byte>, numBits: nat)
      requires numBits <= 8 * jreg.Length
      modifies jreg, this`stalled, this`resets
      ensures (State(), Flat(jreg[..])) == old(JtagSpec.WriteControl(State(), Flat(jreg[..]), numBits))
    {
      hide Over, Flat, Respond, StatusAndCrc, Field, Flagged, Sent, Controlled, Ones, ControlField;
      if numBits != COMMAND_BITS { return; }
      ghost var reg := Flat(jreg[..]);
      var data := ControlField(jreg[..]);
      ControlBits(jreg[..]);
      assert data[51] == reg[5] && data[50] == reg[6];
      var good := ControlCrcGood(jreg, data);
      var status := JS_OK;
      if good {
        ApplyControl(data);
      } else {
        status := Flagged(status, JS_CRC_IN_ERROR);
      }
      ConstructResponse(jreg, status, Ones(32), 0, 89);
    }

    /** jtag_shift_dr: the first bit tells SELECT_MODULE from the commands, the next four which command it is. */
    method ShiftDr(jreg: array<Byte>, numBits: nat)
      requires Shiftable(State(), Flat(jreg[..]), numBits)
      modifies this, jreg
      ensures (State(), Flat(jreg[..])) == old(JtagSpec.ShiftDr(State(), Flat(jreg[..]), numBits))
    {
      hide Flat, JtagSpec.SelectModule, JtagSpec.GoCommand, JtagSpec.ReadCommand, JtagSpec.WriteCommand,
           JtagSpec.ReadControl, JtagSpec.WriteControl, Field, ToNat;
      if instr != JI_DEBUG { return; }
      var commandBits := SmallField(jreg[0], 1, jreg[..]);
      FlatBit(jreg[..], 0, 0);
      if jreg[0][0] {
        SelectModule(jreg, numBits);
      } else {
        var c := ToNat(commandBits);
        if c == JCMD_GO_COMMAND { GoCommand(jreg, numBits); }
        else if c == JCMD_READ_COMMAND { ReadCommand(jreg, numBits); }
        else if c == JCMD_WRITE_COMMAND { WriteCommand(jreg, numBits); }
        else if c == JCMD_READ_CONTROL { ReadControl(jreg, numBits); }
        else if c == JCMD_WRITE_CONTROL { WriteControl(jreg, numBits); }
      }
    }
  }

  lemma ReversedZeros()
    ensures Reverse(Zeros(4)) == Zeros(4) && Reverse(Zeros(32)) == Zeros(32) && Reverse(Zeros(16)) == Zeros(16)
    ensures Zeros(4) + Zeros(32) + Zeros(16) == Zeros(52)
  {
  }

  /** Has `f` been ORed into bit `k` and the bits after it? */
  predicate OredAt(f: Bits, k: int) { 0 <= k < |f| && f[k] }

  method InsertAccess(jreg: array<Byte>, acc: Bits)
    requires 12 <= jreg.Length && |acc| == 4
    modifies jreg
    ensures forall i, b :: 0 <= i < jreg.Length && 0 <= b < 8 ==>
              jreg[i][b] == (old(jreg[i])[b] || OredAt(acc, 8 * i + b - 37))
  {
    hide Or, Shl, Shr, Resize;
    jreg[4] := Or(jreg[4], Shl(Resize(acc, 8), 5));
    jreg[5] := Or(jreg[5], Resize(Shr(acc, 3), 8));
  }

  method InsertAddress(jreg: array<Byte>, a: Bits)
    requires 12 <= jreg.Length && |a| == 32
    modifies jreg
    ensures forall i, b :: 0 <= i < jreg.Length && 0 <= b < 8 ==>
              jreg[i][b] == (old(jreg[i])[b] || OredAt(a, 8 * i + b - 41))
  {
    hide Or, Shl, Shr, Resize;
    jreg[5] := Or(jreg[5], Shl(Resize(a, 8), 1));
    jreg[6] := Or(jreg[6], Resize(Shr(a, 7), 8));
    jreg[7] := Or(jreg[7], Resize(Shr(a, 15), 8));
    jreg[8] := Or(jreg[8], Resize(Shr(a, 23), 8));
    jreg[9] := Or(jreg[9], Resize(Shr(a, 31), 8));
  }

  method InsertLength(jreg: array<Byte>, len: Bits)
    requires 12 <= jreg.Length && |len| == 16
    modifies jreg
    ensures forall i, b :: 0 <= i < jreg.Length && 0 <= b < 8 ==>
              jreg[i][b] == (old(jreg[i])[b] || OredAt(len, 8 * i + b - 73))
  {
    hide Or, Shl, Shr, Resize;
    jreg[9] := Or(jreg[9], Shl(Resize(len, 8), 1));
    jreg[10] := Or(jreg[10], Resize(Shr(len, 7), 8));
    jreg[11] := Or(jreg[11], Resize(Shr(len, 15), 8));
  }

  /** ORs the reversed command fields into bytes 4 to 11. */
  method InsertFields(jreg: array<Byte>, acc: Bits, a: Bits, len: Bits, ghost fields: Bits)
    requires 12 <= jreg.Length && |acc| == 4 && |a| == 32 && |len| == 16 && fields == acc + a + len
    modifies jreg
    ensures Flat(jreg[..]) == Insert(old(Flat(jreg[..])), fields)
  {
    ghost var was := jreg[..];
    InsertAccess(jreg, acc);
    InsertAddress(jreg, a);
    InsertLength(jreg, len);
    Inserted(was, jreg[..], fields);
  }

  lemma Inserted(was: seq<Byte>, now: seq<Byte>, fields: Bits)
    requires |was| == |now|
    requires forall i, b :: 0 <= i < |was| && 0 <= b < 8 ==>
               now[i][b] == (was[i][b] || (0 <= 8 * i + b - 37 < |fields| && fields[8 * i + b - 37]))
    ensures Flat(now) == Insert(Flat(was), fields)
  {
    hide Flat;
    var f := Insert(Flat(was), fields);
    forall i, b | 0 <= i < |now| && 0 <= b < 8
      ensures now[i][b] == f[8 * i + b]
    {
      FlatBit(was, i, b);
    }
    FlatEqual(now, f);
  }

  /** ORs the reversed control data into bytes 4 to 11.  The shifts suit only data whose bits 3 and up are zero once
      reversed, which is all READ_CONTROL ever sends. */
  method InsertControl(jreg: array<Byte>, data: Bits, ghost fields: Bits)
    requires 12 <= jreg.Length && |data| == 64 && |fields| == 52
    requires forall k :: 0 <= k < 64 ==> data[k] == (k < 52 && fields[k])
    requires forall k :: 3 <= k < 52 ==> !fields[k]
    modifies jreg
    ensures Flat(jreg[..]) == Insert(old(Flat(jreg[..])), fields)
  {
    ghost var was := jreg[..];
    InsertControlLow(jreg, data);
    InsertControlHigh(jreg, data);
    Inserted(was, jreg[..], fields);
  }

  method InsertControlLow(jreg: array<Byte>, data: Bits)
    requires 12 <= jreg.Length && |data| == 64 && forall k :: 3 <= k < 64 ==> !data[k]
    modifies jreg
    ensures forall i, b :: 0 <= i < jreg.Length && 0 <= b < 8 ==>
              jreg[i][b] == (old(jreg[i])[b] || OredAt(data, 8 * i + b - 37))
  {
    hide Or, Shl, Shr, Resize, And;
    var x: Byte := Resize(And(Shl(data, 5), Resize(Zeros(3) + Ones(5), 64)), 8);
    var y: Byte := Resize(And(Shr(data, 3), Resize(Ones(3), 64)), 8);
    assert forall b :: 0 <= b < 8 ==> x[b] == (b >= 5 && data[b - 5]);
    assert forall b :: 0 <= b < 8 ==> !y[b];
    jreg[4] := Or(jreg[4], x);
    jreg[5] := Or(jreg[5], y);
  }

  method InsertControlHigh(jreg: array<Byte>, data: Bits)
    requires 12 <= jreg.Length && |data| == 64 && forall k :: 3 <= k < 64 ==> !data[k]
    modifies jreg
    ensures forall i, b :: 0 <= i < jreg.Length && 0 <= b < 8 ==> jreg[i][b] == old(jreg[i])[b]
  {
    hide Or, Shl, Shr, Resize, And;
    jreg[6] := Or(jreg[6], Resize(Shr(data, 11), 8));
    jreg[7] := Or(jreg[7], Resize(Shr(data, 19), 8));
    jreg[8] := Or(jreg[8], Resize(Shr(data, 27), 8));
    jreg[9] := Or(jreg[9], Resize(Shr(data, 35), 8));
    jreg[10] := Or(jreg[10], Resize(Shr(data, 43), 8));
    jreg[11] := Or(jreg[11], Resize(And(Shr(data, 51), Resize(Ones(1), 64)), 8));
  }

  /** The 52 bits of data of a WRITE_CONTROL register. */
  function ControlField(s: seq<Byte>): (r: Bits)
    requires |s| >= 8
    ensures |r| == 52 && r == Field(Flat(s), 5, 52)
  {
    var g := Or(Or(Or(Or(Or(Or(Or(
      HighPart(s[0], 5, 64), Shl(Resize(s[1], 64), 3)), Shl(Resize(s[2], 64), 11)), Shl(Resize(s[3], 64), 19)),
      Shl(Resize(s[4], 64), 27)), Shl(Resize(s[5], 64), 35)), Shl(Resize(s[6], 64), 43)), LowPart(s[7], 1, 51, 64));
    ControlGathered(s, g);
    Reversed(g, 52)
  }

  lemma ControlGathered(s: seq<Byte>, g: Bits)
    requires |s| >= 8
    requires g == Or(Or(Or(Or(Or(Or(Or(
      HighPart(s[0], 5, 64), Shl(Resize(s[1], 64), 3)), Shl(Resize(s[2], 64), 11)), Shl(Resize(s[3], 64), 19)),
      Shl(Resize(s[4], 64), 27)), Shl(Resize(s[5], 64), 35)), Shl(Resize(s[6], 64), 43)), LowPart(s[7], 1, 51, 64))
    ensures |g| == 64 && g[..52] == Flat(s)[5..57]
  {
    hide Or, Shl, Shr, And, Resize, Ones, Flat;
    forall k | 0 <= k < 52
      ensures g[k] == Flat(s)[5 + k]
    {
      FlatBit(s, (k + 5) / 8, (k + 5) % 8);
    }
  }

  lemma ControlBits(s: seq<Byte>)
    requires |s| >= 8
    ensures Field(Flat(s), 5, 52)[51] == Flat(s)[5] && Field(Flat(s), 5, 52)[50] == Flat(s)[6]
  {
    hide Flat;
  }

  method ClearBytes(jreg: array<Byte>, n: nat)
    requires n <= jreg.Length
    modifies jreg
    ensures Flat(jreg[..]) == Cleared(old(Flat(jreg[..])), 8 * n)
  {
    ghost var was := jreg[..];
    var i := 0;
    while i < n
      invariant 0 <= i <= n
      invariant forall j :: 0 <= j < jreg.Length ==> jreg[j] == if j < i then Zeros(8) else was[j]
    {
      jreg[i] := Zeros(8);
      i := i + 1;
    }
    forall k, b | 0 <= k < jreg.Length && 0 <= b < 8
      ensures jreg[k][b] == Cleared(Flat(was), 8 * n)[8 * k + b]
    {
      FlatBit(was, k, b);
    }
    FlatEqual(jreg[..], Cleared(Flat(was), 8 * n));
  }

  // ---- Data bytes ----

  /** Data byte `i` of a write register. */
  method FetchByte(jreg: array<Byte>, n: nat, i: nat) returns (byte: Byte)
    requires SELECT_BITS + 8 * n <= 8 * jreg.Length && i < n
    ensures byte == DataBytes(Flat(jreg[..]), 5, n)[i]
  {
    hide Flat, DataBytes, Reverse;
    byte := GatherByte(jreg[..], i);
    ReverseByteReverses(byte);
    byte := ReverseByte(byte);
    DataByteAt(Flat(jreg[..]), n, i);
  }

  function NullData(n: nat): (r: seq<Byte>)
    ensures r == seq(n, _ => Zeros(8))
  {
    seq(n, _ => Zeros(8))
  }

  /** The first `i` bytes of `data` stand in the register from bit 37 on; nothing else has changed. */
  ghost predicate Stored(was: Bits, now: Bits, data: seq<Byte>, i: nat) {
    i <= |data| && 37 + 8 * i <= |was| && now == was[..37] + Stream(data[..i]) + was[37 + 8 * i..]
  }

  lemma NothingStored(reg: Bits, data: seq<Byte>)
    requires 37 <= |reg|
    ensures Stored(reg, reg, data, 0) && Stream(data[..0]) == []
  {
    assert reg == reg[..37] + [] + reg[37..];
  }

  lemma AllStored(was: Bits, now: Bits, data: seq<Byte>)
    requires Stored(was, now, data, |data|)
    ensures now == was[..37] + Stream(data) + was[37 + 8 * |data|..]
  {
    assert data[..|data|] == data;
  }

  lemma StreamOneMore(data: seq<Byte>, i: nat)
    requires i < |data|
    ensures Stream(data[..i + 1]) == Stream(data[..i]) + Reverse(data[i])
  {
  }

  lemma FetchedAt(mem: map<int, Byte>, addr: nat, size: nat, n: nat, i: nat)
    requires i < n
    ensures GetAll(mem, addr, size, n)[i] == if i < size && Bus(addr, i) in mem then mem[Bus(addr, i)] else Zeros(8)
  {
  }

  /** Stores one byte, reversed, eight bits from bit 37 + 8 * i on, without touching its neighbours, and takes it into
      the CRC. */
  method PutDataByte(jreg: array<Byte>, i: nat, byte: Byte, crcIn: Crc32, ghost reg: Bits, ghost data: seq<Byte>)
    returns (crc: Crc32)
    requires 5 + i < jreg.Length && i < |data| && byte == data[i]
    requires Stored(reg, Flat(jreg[..]), data, i) && |reg| == 8 * jreg.Length
    requires crcIn == Over(Ones(32), Stream(data[..i]))
    modifies jreg
    ensures Stored(reg, Flat(jreg[..]), data, i + 1)
    ensures crc == Over(Ones(32), Stream(data[..i + 1]))
  {
    hide Over, Flat, Stream, Reverse;
    assert byte[..8] == byte;
    crc := Crc32Of(byte, 8, crcIn);
    OverConcat(Ones(32), Stream(data[..i]), Reverse(byte));
    StreamOneMore(data, i);
    ghost var was := jreg[..];
    ReverseByteReverses(byte);
    var r := ReverseByte(byte);
    jreg[4 + i] := Shl(jreg[4 + i], 3);
    jreg[4 + i] := Shr(jreg[4 + i], 3);
    jreg[4 + i + 1] := Shr(jreg[4 + i + 1], 5);
    jreg[4 + i + 1] := Shl(jreg[4 + i + 1], 5);
    jreg[4 + i] := Or(jreg[4 + i], Shl(r, 5));
    jreg[4 + i + 1] := Or(jreg[4 + i + 1], Shr(r, 3));
    ByteStored(was, jreg[..], i, r, jreg[4 + i], jreg[5 + i]);
    StoredOneMore(reg, Flat(was), Flat(jreg[..]), data, i);
  }

  lemma ByteStored(was: seq<Byte>, now: seq<Byte>, i: nat, r: Bits, x: Byte, y: Byte)
    requires |was| == |now| && 5 + i < |was| && |r| == 8
    requires forall j :: 0 <= j < |was| && j != 4 + i && j != 5 + i ==> now[j] == was[j]
    requires x == now[4 + i] && forall b :: 0 <= b < 8 ==> x[b] == if b < 5 then was[4 + i][b] else r[b - 5]
    requires y == now[5 + i] && forall b :: 0 <= b < 8 ==> y[b] == if b < 5 then r[b + 3] else was[5 + i][b]
    ensures 45 + 8 * i <= |Flat(was)|
    ensures Flat(now) == Flat(was)[..37 + 8 * i] + r + Flat(was)[45 + 8 * i..]
  {
    hide Flat;
    var f := Flat(was)[..37 + 8 * i] + r + Flat(was)[45 + 8 * i..];
    forall j, b | 0 <= j < |now| && 0 <= b < 8
      ensures now[j][b] == f[8 * j + b]
    {
      FlatBit(was, j, b);
      if j == 4 + i { assert now[j][b] == x[b]; }
      if j == 5 + i { assert now[j][b] == y[b]; }
    }
    FlatEqual(now, f);
  }

  lemma StoredOneMore(reg: Bits, was: Bits, now: Bits, data: seq<Byte>, i: nat)
    requires i < |data| && Stored(reg, was, data, i) && 45 + 8 * i <= |reg|
    requires now == was[..37 + 8 * i] + Reverse(data[i]) + was[45 + 8 * i..]
    ensures Stored(reg, now, data, i + 1)
  {
    hide Stream, Reverse;
    StreamOneMore(data, i);
    assert was[..37 + 8 * i] == reg[..37] + Stream(data[..i]);
    assert was[45 + 8 * i..] == reg[45 + 8 * i..];
  }

  /** The data bytes of a write, taken into the CRC one by one. */
  method CrcData(jreg: array<Byte>, n: nat, crcIn: Crc32) returns (crc: Crc32)
    requires SELECT_BITS + 8 * n <= 8 * jreg.Length
    ensures crc == Over(crcIn, Flat(jreg[..])[5..5 + 8 * n])
  {
    hide Over, Flat, Reverse;
    ghost var reg := Flat(jreg[..]);
    crc := crcIn;
    assert reg[5..5] == [];
    OverNothing(crc);
    var i := 0;
    while i < n
      invariant 0 <= i <= n
      invariant crc == Over(crcIn, reg[5..5 + 8 * i])
    {
      var g := GatherByte(jreg[..], i);
      assert g[..8] == g;
      var byte := Reversed(g, 8);
      assert byte[..8] == byte;
      crc := Crc32Of(byte, 8, crc);
      ReverseTwice(g);
      OverConcat(crcIn, reg[5..5 + 8 * i], g);
      assert reg[5..5 + 8 * i] + g == reg[5..5 + 8 * (i + 1)];
      i := i + 1;
    }
  }

  lemma OverNothing(crc: Crc32)
    ensures Over(crc, []) == crc
  {
  }

  lemma StatusAtStart(d: Debug, status: Status)
    ensures WishboneStatus(d, 0, status) == status
  {
  }

  /** The error flag after one more byte. */
  lemma StatusOneMore(d: Debug, i: nat, status: Status)
    ensures WishboneStatus(d, i + 1, status) ==
            if i < d.size && Bus(d.addr, i) !in d.mem then Flagged(WishboneStatus(d, i, status), JS_WISHBONE_ERROR)
            else WishboneStatus(d, i, status)
  {
  }

  lemma DataByteAt(reg: Bits, n: nat, i: nat)
    requires 5 + 8 * n <= |reg| && i < n
    ensures DataBytes(reg, 5, n)[i] == Reverse(reg[8 * i + 5..8 * i + 13])
  {
  }

  lemma SprAtStart(data: seq<Byte>)
    ensures SprValue(data[..0]) == Zeros(32)
  {
  }

  lemma SprOneMore(data: seq<Byte>, i: nat)
    requires i < |data|
    ensures SprValue(data[..i + 1]) ==
            if i < 4 then Or(SprValue(data[..i]), Shl(Resize(data[i], 32), 8 * i)) else SprValue(data[..i])
  {
    var was, now := SprValue(data[..i]), SprValue(data[..i + 1]);
    forall k | 0 <= k < 32
      ensures now[k] == if i < 4 then Or(was, Shl(Resize(data[i], 32), 8 * i))[k] else was[k]
    {
      if k / 8 == i { assert k - 8 * i == k % 8; }
      if k / 8 < i { assert data[..i + 1][k / 8] == data[..i][k / 8]; }
    }
  }

  lemma PutNothing(mem: map<int, Byte>, addr: nat, data: seq<Byte>)
    ensures PutAll(mem, addr, data[..0]) == mem
  {
  }

  lemma PutOneMore(mem: map<int, Byte>, addr: nat, data: seq<Byte>, i: nat)
    requires i < |data|
    ensures PutAll(mem, addr, data[..i + 1]) ==
            if Bus(addr, i) in mem then PutAll(mem, addr, data[..i])[Bus(addr, i) := data[i]]
            else PutAll(mem, addr, data[..i])
  {
    assert data[..i + 1][..i] == data[..i];
  }

  lemma GoCommandBits()
    ensures [false] + Sent(JCMD_GO_COMMAND, 4) == Zeros(5)
  {
    assert ToBits(0, 4) == Zeros(4);
  }

  lemma CrcThreeFields(crc: Crc32, head: Bits, reg: Bits)
    requires 57 <= |reg|
    ensures Over(Over(Over(Over(crc, head), reg[5..9]), reg[9..41]), reg[41..57]) == Over(crc, head + reg[5..57])
  {
    hide Over;
    OverConcat(crc, head, reg[5..9]);
    OverConcat(crc, head + reg[5..9], reg[9..41]);
    OverConcat(crc, head + reg[5..9] + reg[9..41], reg[41..57]);
    assert head + reg[5..9] + reg[9..41] + reg[41..57] == head + reg[5..57];
  }

  /** acc_type: three bits of byte 0 and one of byte 1. */
  function AccessField(s: seq<Byte>): (r: Bits)
    requires |s| >= 2
    ensures |r| == 4 && r == Field(Flat(s), 5, 4)
  {
    var g := Or(HighPart(s[0], 5, 8), LowPart(s[1], 1, 3, 8));
    assert forall k :: 0 <= k < 4 ==> g[k] == Flat(s)[5 + k];
    assert g[..4] == Flat(s)[5..9];
    Reversed(g, 4)
  }

  /** len: the upper bits of byte 5, byte 6 and one bit of byte 7. */
  function LengthField(s: seq<Byte>): (r: Bits)
    requires |s| >= 8
    ensures |r| == 16 && r == Field(Flat(s), 41, 16)
  {
    var g := Or(Or(HighPart(s[5], 1, 32), Shl(Resize(s[6], 32), 7)), LowPart(s[7], 1, 15, 32));
    assert forall k :: 0 <= k < 16 ==> g[k] == Flat(s)[41 + k];
    assert g[..16] == Flat(s)[41..57];
    Reversed(g, 16)
  }

  /** A four-bit field of one byte. */
  function SmallField(b: Byte, off: nat, ghost s: seq<Byte>): (r: Bits)
    requires off <= 4 && |s| > 0 && s[0] == b
    ensures |r| == 4 && r == Field(Flat(s), off, 4)
  {
    assert Shr(b, off)[..4] == Flat(s)[off..off + 4];
    Reversed(Shr(b, off), 4)
  }
}
