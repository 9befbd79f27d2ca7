/** Packets of the GDB remote serial protocol: framing, escaping, and the receiver as a state machine. */
module RspSpec {

  type Byte = b: int | 0 <= b < 0x100

  const START: Byte := 0x24
  const END: Byte := 0x23
  const STAR: Byte := 0x2a
  const ESCAPE: Byte := 0x7d
  const ACK: Byte := 0x2b
  const NAK: Byte := 0x2d

  /** A register is eight hexadecimal digits; there are 32 general ones and three more. */
  const GDB_BUF_MAX := 35 * 8 + 1

  // ---- Escaping ----

  /** `^ 0x20`. */
  function Flip(b: Byte): Byte { if b / 0x20 % 2 == 1 then b - 0x20 else b + 0x20 }

  lemma FlipTwice(b: Byte)
    ensures Flip(Flip(b)) == b
  {
  }

  predicate Special(b: Byte) { b == START || b == END || b == STAR || b == ESCAPE }

  function EscapeOne(b: Byte): seq<Byte> { if Special(b) then [ESCAPE, Flip(b)] else [b] }

  function Escape(data: seq<Byte>): (r: seq<Byte>)
    ensures |r| >= |data|
  {
    if data == [] then [] else Escape(data[..|data| - 1]) + EscapeOne(data[|data| - 1])
  }

  /** rsp_unescape; `eos` is the byte behind the data, which a trailing escape character takes. */
  function Unescape(s: seq<Byte>, eos: Byte): (r: seq<Byte>)
    ensures |r| <= |s|
  {
    if s == [] then []
    else if s[0] == ESCAPE then [Flip(if |s| > 1 then s[1] else eos)] + Unescape(if |s| > 1 then s[2..] else [], eos)
    else [s[0]] + Unescape(s[1..], eos)
  }

  /** Escaped data has neither a start nor an end character. */
  lemma {:induction false} EscapeClean(data: seq<Byte>)
    ensures START !in Escape(data) && END !in Escape(data)
  {
    if data != [] { EscapeClean(data[..|data| - 1]); }
  }

  lemma {:induction false} EscapeFront(x: Byte, data: seq<Byte>)
    ensures Escape([x] + data) == EscapeOne(x) + Escape(data)
  {
    hide EscapeOne;
    var n := |data| - 1;
    if data == [] {
      assert [x] + data == [x] && [x][..0] == [];
      assert Escape([x]) == Escape([]) + EscapeOne(x);
    } else {
      EscapeFront(x, data[..n]);
      assert ([x] + data)[..n + 1] == [x] + data[..n];
      assert Escape([x] + data) == Escape([x] + data[..n]) + EscapeOne(data[n]);
    }
  }

  /** Unescaping undoes escaping. */
  lemma {:induction false} UnescapeEscape(data: seq<Byte>, eos: Byte)
    ensures Unescape(Escape(data), eos) == data
  {
    if data != [] {
      EscapeFront(data[0], data[1..]);
      assert [data[0]] + data[1..] == data;
      UnescapeEscape(data[1..], eos);
      FlipTwice(data[0]);
      var e, rest := Escape(data), Escape(data[1..]);
      if Special(data[0]) { assert e[2..] == rest; } else { assert e[1..] == rest; }
    }
  }

  // ---- Checksums ----

  /** The sum of all bytes, modulo 256. */
  function Checksum(s: seq<Byte>): Byte { if s == [] then 0 else (Checksum(s[..|s| - 1]) + s[|s| - 1]) % 0x100 }

  function HexChar(n: nat): Byte
    requires n < 16
  {
    if n < 10 then 0x30 + n else 0x57 + n
  }

  /** The value of a hexadecimal digit, -1 for any other character. */
  function Hex(c: int): int {
    if 0x61 <= c <= 0x66 then c - 0x61 + 10
    else if 0x30 <= c <= 0x39 then c - 0x30
    else if 0x41 <= c <= 0x46 then c - 0x41 + 10
    else -1
  }

  lemma HexRoundTrip(n: nat)
    requires n < 16
    ensures Hex(HexChar(n)) == n && HexChar(n) != START
  {
  }

  /** put_packet's frame around the escaped data. */
  function Frame(data: seq<Byte>): seq<Byte> {
    var body := Escape(data);
    [START] + body + [END, HexChar(Checksum(body) / 16), HexChar(Checksum(body) % 16)]
  }

  // ---- The receiver ----

  /** Before a packet, in its body, and before its two checksum digits. */
  datatype Rx = Seek | Body(buf: seq<Byte>) | High(buf: seq<Byte>) | Low(buf: seq<Byte>, high: int)

  datatype Outcome = Outcome(ok: bool, packet: seq<Byte>, input: seq<Byte>, output: seq<Byte>)

  /** What get_packet does with the characters to come: the packet it returns, if the connection lasts, what is then
      left to read, and what it has sent. */
  function Receive(st: Rx, input: seq<Byte>, output: seq<Byte>): Outcome
    decreases |input|
  {
    if input == [] then Outcome(false, [], [], output)
    else
      var ch, rest := input[0], input[1..];
      match st
      case Seek => Receive(if ch == START then Body([]) else Seek, rest, output)
      case Body(buf) =>
        if ch == START then Receive(Body([]), rest, output)
        else if ch == END then Receive(High(buf), rest, output)
        else if |buf| + 1 < GDB_BUF_MAX - 1 then Receive(Body(buf + [ch]), rest, output)
        else Receive(Seek, rest, output)
      case High(buf) => Receive(Low(buf, Hex(ch) * 16), rest, output)
      case Low(buf, high) =>
        if Checksum(buf) == (high + Hex(ch)) % 0x100 then Outcome(true, buf, rest, output + [ACK])
        else Receive(Seek, rest, output + [NAK])
  }

  /** Nothing is started by characters other than the start character. */
  lemma {:induction false} SeekNoise(noise: seq<Byte>, input: seq<Byte>, output: seq<Byte>)
    requires START !in noise
    ensures Receive(Seek, noise + input, output) == Receive(Seek, input, output)
  {
    if noise == [] {
      assert noise + input == input;
    } else {
      assert (noise + input)[1..] == noise[1..] + input;
      SeekNoise(noise[1..], input, output);
    }
  }

  /** A body without start and end characters is stored if it fits, and abandoned otherwise. */
  lemma {:induction false} BodyRead(buf: seq<Byte>, body: seq<Byte>, input: seq<Byte>, output: seq<Byte>)
    requires START !in body && END !in body && |buf| < GDB_BUF_MAX - 1
    ensures Receive(Body(buf), body + input, output) ==
      Receive(if |buf + body| < GDB_BUF_MAX - 1 then Body(buf + body) else Seek, input, output)
    decreases |body|
  {
    if body == [] {
      assert body + input == input && buf + body == buf;
    } else {
      assert (body + input)[1..] == body[1..] + input;
      assert buf + [body[0]] + body[1..] == buf + body;
      if |buf| + 1 < GDB_BUF_MAX - 1 { BodyRead(buf + [body[0]], body[1..], input, output); }
        else { SeekNoise(body[1..], input, output); }
    }
  }

  /** A start character starts over, whether a packet has been started or not. */
  lemma StartsOver(st: Rx, input: seq<Byte>, output: seq<Byte>)
    requires st.Seek? || st.Body?
    ensures Receive(st, [START] + input, output) == Receive(Body([]), input, output)
  {
  }

  /** The two checksum digits that put_packet sends are the ones get_packet expects. */
  lemma DigitsMatch(buf: seq<Byte>, input: seq<Byte>, output: seq<Byte>)
    ensures var c := Checksum(buf);
      Receive(Body(buf), [END, HexChar(c / 16), HexChar(c % 16)] + input, output) ==
        Outcome(true, buf, input, output + [ACK])
  {
    var c := Checksum(buf);
    var all := [END, HexChar(c / 16), HexChar(c % 16)] + input;
    HexRoundTrip(c / 16);
    HexRoundTrip(c % 16);
    assert all[1..] == [HexChar(c / 16), HexChar(c % 16)] + input;
    assert all[1..][1..] == [HexChar(c % 16)] + input;
    assert all[1..][1..][1..] == input;
    assert Receive(Body(buf), all, output) == Receive(High(buf), all[1..], output);
    assert Receive(High(buf), all[1..], output) == Receive(Low(buf, c / 16 * 16), all[1..][1..], output);
  }

  /** A frame is received, wherever the receiver is except between the end of a packet and its checksum, exactly when
      the escaped data leaves two places of the buffer free; otherwise nothing is received and nothing acknowledged. */
  lemma FrameReceived(st: Rx, data: seq<Byte>, input: seq<Byte>, output: seq<Byte>)
    requires st.Seek? || st.Body?
    ensures |Escape(data)| <= GDB_BUF_MAX - 2 ==>
      Receive(st, Frame(data) + input, output) == Outcome(true, Escape(data), input, output + [ACK])
    ensures |Escape(data)| > GDB_BUF_MAX - 2 ==>
      Receive(st, Frame(data) + input, output) == Receive(Seek, input, output)
  {
    var body := Escape(data);
    var tail := [END, HexChar(Checksum(body) / 16), HexChar(Checksum(body) % 16)];
    EscapeClean(data);
    HexRoundTrip(Checksum(body) / 16);
    HexRoundTrip(Checksum(body) % 16);
    assert Frame(data) + input == [START] + (body + (tail + input));
    StartsOver(st, body + (tail + input), output);
    BodyRead([], body, tail + input, output);
    assert [] + body == body;
    if |body| <= GDB_BUF_MAX - 2 { DigitsMatch(body, input, output); } else { SeekNoise(tail, input, output); }
  }

  /** Noise without a start character, or a frame cut off before its end character, leaves the receiver ready. */
  lemma {:induction false} PrefixHarmless(st: Rx, prefix: seq<Byte>, input: seq<Byte>,
    output: seq<Byte>) returns (st': Rx)
    requires (st.Seek? || (st.Body? && |st.buf| < GDB_BUF_MAX - 1)) && END !in prefix
    ensures (st'.Seek? || st'.Body?) && Receive(st, prefix + input, output) == Receive(st', input, output)
    decreases |prefix|
  {
    if prefix == [] {
      assert prefix + input == input;
      st' := st;
    } else {
      var ch := prefix[0];
      assert (prefix + input)[1..] == prefix[1..] + input;
      var next := if ch == START then Body([]) else if st.Body? &&
        |st.buf| + 1 < GDB_BUF_MAX - 1 then Body(st.buf + [ch]) else Seek;
      st' := PrefixHarmless(next, prefix[1..], input, output);
    }
  }

  /** What is put is got: after noise and a cut-off frame, a frame whose escaped form fits is acknowledged, and
      unescaping the packet gives the data that was put. */
  lemma RoundTrip(noise: seq<Byte>, cut: seq<Byte>, data: seq<Byte>, input: seq<Byte>, output: seq<Byte>, eos: Byte)
    requires START !in noise && END !in cut
    ensures var r := Receive(Seek, noise + (cut + (Frame(data) + input)), output);
      |Escape(data)| <= GDB_BUF_MAX - 2 ==>
        (r.ok && r.output == output + [ACK] && r.input == input && Unescape(r.packet, eos) == data)
    ensures |Escape(data)| > GDB_BUF_MAX - 2 ==>
      Receive(Seek, noise + (cut + (Frame(data) + input)), output) == Receive(Seek, input, output)
  {
    SeekNoise(noise, cut + (Frame(data) + input), output);
    var st := PrefixHarmless(Seek, cut, Frame(data) + input, output);
    FrameReceived(st, data, input, output);
    UnescapeEscape(data, eos);
  }

  /** A corrupted checksum is answered with a request to send again. */
  lemma BadSumRejected(buf: seq<Byte>, hi: Byte, lo: Byte, input: seq<Byte>, output: seq<Byte>)
    requires (Hex(hi) * 16 + Hex(lo)) % 0x100 != Checksum(buf)
    ensures Receive(High(buf), [hi, lo] + input, output) == Receive(Seek, input, output + [NAK])
  {
  }

  // ---- The characters on the line ----

  function Total(s: seq<Byte>): nat { if s == [] then 0 else Total(s[..|s| - 1]) + s[|s| - 1] }

  lemma {:induction false} ChecksumIsTotal(s: seq<Byte>)
    ensures Checksum(s) == Total(s) % 0x100
  {
    if s != [] { ChecksumIsTotal(s[..|s| - 1]); }
  }

  /** A packet is a dollar sign, the escaped data, a hash sign and the sum of the escaped data modulo 256 in two
      lower-case hexadecimal digits; the data have no dollar, hash or star in them. */
  lemma OnTheLine(data: seq<Byte>)
    ensures
      var f, n := Frame(data), |Escape(data)|;
      |f| == n + 4 && f[0] == '$' as int && f[1..n + 1] == Escape(data) && f[n + 1] == '#' as int &&
      var sum := Total(f[1..n + 1]) % 0x100;
      f[n + 2] == "0123456789abcdef"[sum / 16] as int && f[n + 3] == "0123456789abcdef"[sum % 16] as int &&
      forall k :: 1 <= k <= n ==> f[k] != '$' as int && f[k] != '#' as int && f[k] != '*' as int
  {
    hide HexChar;
    var f, body := Frame(data), Escape(data);
    assert f[1..|body| + 1] == body;
    ChecksumIsTotal(body);
    DigitChar(Checksum(body) / 16);
    DigitChar(Checksum(body) % 16);
    NoSpecial(data);
    assert forall k :: 1 <= k <= |body| ==> f[k] == body[k - 1];
  }

  lemma DigitChar(n: nat)
    requires n < 16
    ensures HexChar(n) == "0123456789abcdef"[n] as int
  {
  }

  lemma {:induction false} NoSpecial(data: seq<Byte>)
    ensures START !in Escape(data) && END !in Escape(data) && STAR !in Escape(data)
  {
    if data != [] { NoSpecial(data[..|data| - 1]); }
  }

  /** A special character goes out as a closing brace and the character with bit 5 the other way round; the answers to a
      packet are a plus or a minus sign. */
  lemma EscapedAs(b: Byte)
    ensures EscapeOne(b) ==
      (if b as char in {'$', '#', '*', '}'} then ['}' as int, ((b as bv8) ^ 0x20) as int] else [b])
    ensures ACK == '+' as int && NAK == '-' as int
  {
    if b == START { assert (0x24 as bv8 ^ 0x20) as int == 0x04; }
    if b == END { assert (0x23 as bv8 ^ 0x20) as int == 0x03; }
    if b == STAR { assert (0x2a as bv8 ^ 0x20) as int == 0x0a; }
    if b == ESCAPE { assert (0x7d as bv8 ^ 0x20) as int == 0x5d; }
  }

  /** Digits are read in either case; anything else is -1. */
  lemma HexReads(c: int)
    ensures forall n :: 0 <= n < 16 ==> Hex("0123456789abcdef"[n] as int) == n && Hex("0123456789ABCDEF"[n] as int) == n
    ensures (forall n :: 0 <= n < 16 ==> c != "0123456789abcdef"[n] as int && c != "0123456789ABCDEF"[n] as int) ==>
      Hex(c) == -1
  {
    if 0x61 <= c <= 0x66 { assert "0123456789abcdef"[c - 0x61 + 10] as int == c; }
    if 0x41 <= c <= 0x46 { assert "0123456789ABCDEF"[c - 0x41 + 10] as int == c; }
    if 0x30 <= c <= 0x39 { assert "0123456789abcdef"[c - 0x30] as int == c; }
  }
}
