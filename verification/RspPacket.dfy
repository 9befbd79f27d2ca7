/** The packet routines of the GDB server, character by character over a connection. */
module RspPacket {
  import opened RspSpec
  import opened RspRegister

  /** reg2hex: the digits of a register, and an end of string. */
  method RegToHex(val: Register, bigEndian: bool, buf: array<int>)
    requires buf.Length >= 9
    modifies buf
    ensures Value(buf[..], bigEndian, 8) == val && buf[8] == 0
    ensures forall k :: 9 <= k < buf.Length ==> buf[k] == old(buf[k])
  {
    hide Nibble, HexChar, Place, Value;
    for n := 0 to 8
      invariant forall k :: 0 <= k < n ==> buf[k] == HexChar(Nibble(val, Place(k, bigEndian)) as nat)
      invariant forall k :: 9 <= k < buf.Length ==> buf[k] == old(buf[k])
    {
      buf[n] := HexChar(Nibble(val, Place(n, bigEndian)) as nat);
    }
    buf[8] := 0;
    RegisterRoundTrip(val, buf[..], bigEndian);
  }

  /** hex2reg. */
  method HexToReg(buf: seq<int>, bigEndian: bool) returns (val: Register)
    requires |buf| >= 8
    ensures val == Value(buf, bigEndian, 8)
  {
    hide DigitBits, Shifted, Place;
    val := 0;
    for n := 0 to 8
      invariant val == Value(buf, bigEndian, n)
    {
      val := Or(val, Shifted(DigitBits(buf[n]), Place(n, bigEndian)));
    }
  }

  /** rsp_unescape, in place; the byte behind the data is there to be read. */
  method UnescapeInPlace(data: array<Byte>, len: nat) returns (toOff: nat)
    requires len < data.Length
    modifies data
    ensures toOff <= len && data[..toOff] == Unescape(old(data[..len]), old(data[len]))
    ensures forall k :: len <= k < data.Length ==> data[k] == old(data[k])
  {
    hide Unescape, Flip, Rest;
    ghost var s, eos := data[..len], data[len];
    ghost var done: seq<Byte> := [];
    var fromOff: nat := 0;
    toOff := 0;
    RestWhole(s, eos);
    while fromOff < len
      invariant toOff <= fromOff <= len + 1 && |done| == toOff <= len
      invariant forall k :: 0 <= k < toOff ==> data[k] == done[k]
      invariant forall k :: fromOff <= k < len ==> data[k] == s[k]
      invariant forall k :: len <= k < data.Length ==> data[k] == old(data[k])
      invariant done + Unescape(Rest(s, fromOff), eos) == Unescape(s, eos)
      decreases len - fromOff
    {
      UnescapeAt(s, fromOff, eos);
      ghost var b := if s[fromOff] == ESCAPE then Flip(if fromOff + 1 < len then s[fromOff + 1] else eos)
        else s[fromOff];
      ghost var next := if s[fromOff] == ESCAPE then fromOff + 2 else fromOff + 1;
      Regroup(done, b, Unescape(Rest(s, next), eos));
      if data[fromOff] == ESCAPE {
        fromOff := fromOff + 1;
        data[toOff] := Flip(data[fromOff]);
      } else {
        data[toOff] := data[fromOff];
      }
      fromOff := fromOff + 1;
      toOff := toOff + 1;
      done := done + [b];
    }
    RestDone(s, fromOff, eos);
    assert data[..toOff] == done;
  }

  ghost function Rest(s: seq<Byte>, i: nat): seq<Byte> { if i <= |s| then s[i..] else [] }

  lemma RestWhole(s: seq<Byte>, eos: Byte)
    ensures [] + Unescape(Rest(s, 0), eos) == Unescape(s, eos)
  {
  }

  lemma RestDone(s: seq<Byte>, i: nat, eos: Byte)
    requires i >= |s|
    ensures Unescape(Rest(s, i), eos) == []
  {
  }

  lemma Regroup(done: seq<Byte>, b: Byte, rest: seq<Byte>)
    ensures done + ([b] + rest) == (done + [b]) + rest
  {
  }

  lemma UnescapeAt(s: seq<Byte>, i: nat, eos: Byte)
    requires i < |s|
    ensures s[i] == ESCAPE ==>
      Unescape(Rest(s, i), eos) ==
      [Flip(if i + 1 < |s| then s[i + 1] else eos)] + Unescape(Rest(s, i + 2), eos)
    ensures s[i] != ESCAPE ==> Unescape(Rest(s, i), eos) == [s[i]] + Unescape(Rest(s, i + 1), eos)
  {
  }

  class Connection {
    /** What the client has sent and will send; the connection fails at the end. */
    var input: seq<Byte>
    /** What has been sent to the client. */
    var output: seq<Byte>
    /** The buffer of get_packet. */
    const data: array<Byte>
    var len: nat

    constructor (input: seq<Byte>)
      ensures this.input == input && output == [] && data.Length == GDB_BUF_MAX && len == 0 && fresh(data)
    {
      this.input, output, len := input, [], 0;
      data := new Byte[GDB_BUF_MAX](_ => 0);
    }

    /** get_rsp_char; -1 if the connection fails. */
    method GetChar() returns (ch: int)
      modifies this`input
      ensures old(input) == [] ==> ch == -1 && input == []
      ensures old(input) != [] ==> ch == old(input)[0] && input == old(input)[1..]
    {
      if input == [] {
        return -1;
      }
      ch := input[0];
      input := input[1..];
    }

    method PutChar(c: Byte)
      modifies this`output
      ensures output == old(output) + [c]
    {
      output := output + [c];
    }

    /** One byte of the body, escaped if it has to be; the checksum counts what is sent. */
    method SendByte(b: Byte, checksum: Byte, ghost body: seq<Byte>) returns (checksum': Byte)
      requires checksum == Checksum(body)
      modifies this`output
      ensures output == old(output) + EscapeOne(b) && checksum' == Checksum(body + EscapeOne(b))
    {
      hide Checksum;
      var ch := b;
      checksum' := checksum;
      if Special(ch) {
        ch := Flip(ch);
        ChecksumStep(body, ESCAPE);
        ChecksumStep(body + [ESCAPE], ch);
        assert body + [ESCAPE] + [ch] == body + EscapeOne(b);
        checksum' := (checksum' + ESCAPE) % 0x100;
        PutChar(ESCAPE);
      } else {
        ChecksumStep(body, ch);
      }
      checksum' := (checksum' + ch) % 0x100;
      PutChar(ch);
    }

    /** The frame of one attempt. */
    method SendFrame(buf: seq<Byte>)
      modifies this`output
      ensures output == old(output) + Frame(buf)
    {
      hide EscapeOne, HexChar;
      ghost var start := output;
      var checksum: Byte := 0;
      PutChar(START);
      assert buf[..0] == [];
      for count := 0 to |buf|
        invariant output == start + [START] + Escape(buf[..count]) && checksum == Checksum(Escape(buf[..count]))
      {
        assert buf[..count + 1][..count] == buf[..count];
        checksum := SendByte(buf[count], checksum, Escape(buf[..count]));
      }
      assert buf[..|buf|] == buf;
      PutChar(END);
      PutChar(HexChar(checksum / 16));
      PutChar(HexChar(checksum % 16));
    }

    /** put_packet: the frame is sent until the client acknowledges it. */
    method PutPacket(buf: seq<Byte>)
      modifies this`input, this`output
      ensures output == old(output) + Repeated(Frame(buf), Attempts(old(input)))
      ensures input == old(input)[Replies(old(input))..]
    {
      hide Frame;
      ghost var start := output;
      var ch := -2;
      ghost var tries := 0;
      while ch != ACK as int
        invariant tries <= |old(input)| && input == old(input)[tries..] && output == start + Repeated(Frame(buf), tries)
        invariant ch == -2 || 0 <= ch < 0x100
        invariant ch == ACK as int ==> Attempts(old(input)) == Replies(old(input)) == tries
        invariant ch != ACK as int ==>
          Attempts(old(input)) == tries + Attempts(input) &&
          Replies(old(input)) == tries + Replies(input)
        decreases |input|, ch != ACK as int
      {
        SendFrame(buf);
        ch := GetChar();
        if ch == -1 {
          return;
        }
        tries := tries + 1;
      }
    }

    /** What is in the buffer. */
    ghost predicate Holds(buf: seq<Byte>)
      reads data
    {
      |buf| < data.Length && data[..|buf|] == buf
    }

    /** Everything up to the start character is ignored. */
    method SeekStart() returns (ok: bool)
      modifies this`input
      ensures ok ==> |input| < |old(input)| && Receive(Body([]), input, output) == Receive(Seek, old(input), output)
      ensures !ok ==> Receive(Seek, old(input), output) == Outcome(false, [], [], output) && input == []
    {
      var ch := GetChar();
      if ch == -1 {
        return false;
      }
      while ch != START as int
        invariant 0 <= ch < 0x100 && |input| < |old(input)|
        invariant Receive(if ch == START as int then Body([]) else Seek, input, output) ==
          Receive(Seek, old(input), output)
        decreases |input|
      {
        ghost var was := input;
        ch := GetChar();
        if ch == -1 {
          return false;
        }
      }
      ok := true;
    }

    /** The body up to its end character, or to the end of the buffer; it starts over with every start character. */
    method ReadBody() returns (ok: bool, complete: bool, checksum: Byte, count: nat)
      requires data.Length == GDB_BUF_MAX
      modifies this`input, data
      ensures |input| <= |old(input)| && count < GDB_BUF_MAX
      ensures !ok ==> Receive(Body([]), old(input), output) == Outcome(false, [], [], output) && input == []
      ensures ok ==> checksum == Checksum(data[..count]) && (input == [] || |input| < |old(input)|)
      ensures ok ==>
        Receive(if complete then High(data[..count]) else Seek, input, output) ==
        Receive(Body([]), old(input), output)
    {
      hide Checksum;
      NoChecksum();
      ok, complete, checksum, count := true, false, 0, 0;
      while count < GDB_BUF_MAX - 1
        invariant count < GDB_BUF_MAX && |input| <= |old(input)| && checksum == Checksum(data[..count])
        invariant count > 0 ==> |input| < |old(input)|
        invariant Receive(if count < GDB_BUF_MAX - 1 then Body(data[..count]) else Seek, input, output) ==
          Receive(Body([]), old(input), output)
        decreases |input|
      {
        ghost var buf := data[..count];
        var ch := GetChar();
        if ch == -1 {
          return false, false, 0, 0;
        }
        if ch == START as int {
          checksum, count := 0, 0;
          continue;
        }
        if ch == END as int {
          return true, true, checksum, count;
        }
        ChecksumStep(buf, ch);
        checksum := (checksum + ch) % 0x100;
        data[count] := ch;
        assert data[..count + 1] == buf + [ch as Byte];
        count := count + 1;
      }
    }

    /** The two digits of the checksum; true if they are the one computed. */
    method CheckSum(buf: seq<Byte>) returns (failed: bool, good: bool)
      modifies this`input, this`output
      ensures failed ==> Receive(High(buf), old(input), old(output)) == Outcome(false, [], input, output) && input == []
      ensures !failed && good ==> Receive(High(buf), old(input), old(output)) == Outcome(true, buf, input, output)
      ensures !failed && !good ==> Receive(High(buf), old(input), old(output)) == Receive(Seek, input, output)
      ensures |input| <= |old(input)|
    {
      failed, good := true, false;
      var ch := GetChar();
      if ch == -1 {
        return;
      }
      var xmit := Hex(ch) * 16;
      assert Receive(High(buf), old(input), output) == Receive(Low(buf, xmit), input, output);
      ghost var rest := input;
      ch := GetChar();
      if ch == -1 {
        return;
      }
      failed := false;
      xmit := xmit + Hex(ch);
      good := Checksum(buf) == xmit % 0x100;
      PutChar(if good then ACK else NAK);
    }

    /** get_packet. */
    method GetPacket() returns (ok: bool)
      requires data.Length == GDB_BUF_MAX
      modifies this, data
      ensures ok ==> len < GDB_BUF_MAX && data[len] == 0
      ensures Receive(Seek, old(input), old(output)) == Outcome(ok, if ok then data[..len] else [], input, output)
    {
      hide Receive, Checksum;
      while true
        invariant Receive(Seek, input, output) == Receive(Seek, old(input), old(output))
        decreases |input|
      {
        ok := SeekStart();
        if !ok {
          return;
        }
        var complete, checksum, count;
        ok, complete, checksum, count := ReadBody();
        if !ok {
          return;
        }
        ghost var buf := data[..count];
        data[count] := 0;
        assert data[..count] == buf;
        len := count;
        if complete {
          var failed, good := CheckSum(data[..count]);
          if failed {
            return false;
          }
          if good {
            return true;
          }
        }
      }
    }
  }

  lemma NoChecksum()
    ensures Checksum([]) == 0
  {
  }

  /** How often the frame is sent: once more than there are replies before the first acknowledgement, and once if none
      comes any more. */
  function Attempts(input: seq<Byte>): nat { if input == [] || input[0] == ACK then 1 else 1 + Attempts(input[1..]) }

  /** How many replies are read. */
  function Replies(input: seq<Byte>): (n: nat)
    ensures n <= |input|
  {
    if input == [] then 0 else if input[0] == ACK then 1 else 1 + Replies(input[1..])
  }

  function Repeated(s: seq<Byte>, n: nat): seq<Byte> { if n == 0 then [] else Repeated(s, n - 1) + s }

  lemma ChecksumStep(s: seq<Byte>, b: Byte)
    ensures Checksum(s + [b]) == (Checksum(s) + b) % 0x100
  {
  }

  /** A packet is sent again for every answer before the first plus sign; without one until the answers end. */
  lemma {:induction false} SentUntilAccepted(input: seq<Byte>, n: nat)
    requires n <= |input| && (forall k :: 0 <= k < n ==> input[k] != '+' as int)
    requires n < |input| ==> input[n] == '+' as int
    ensures Attempts(input) == n + 1 && Replies(input) == if n < |input| then n + 1 else n
    decreases n
  {
    if n > 0 { SentUntilAccepted(input[1..], n - 1); }
  }
}
