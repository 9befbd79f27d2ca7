/** The bit-serial CRC of the debug interface: generator polynomial of clause 3.2.9 of IEEE 802.3,
    most significant bit first, no final complement. */
module Crc {
  import opened Bits

  /** 0x04c11db7, least significant bit first. */
  const POLY: Bits := [
    true, true, true, false, true, true, false, true,
    true, false, true, true, true, false, false, false,
    true, false, false, false, false, false, true, true,
    false, false, true, false, false, false, false, false]

  /** The 28-bit mask the C code selects the polynomial with: its four top bits are clear, and so are the polynomial's.
      */
  const SELECT_MASK: Bits := Resize(Ones(28), 32)

  type Crc32 = c: Bits | |c| == 32 witness Zeros(32)

  /** One turn of the loop in crc32: `bit` is the next bit of the value. */
  function Step(crc: Crc32, bit: bool): Crc32 {
    var d := if bit then SELECT_MASK else Zeros(32);
    var t := if crc[31] then SELECT_MASK else Zeros(32);
    Xor(Shl(crc, 1), And(Xor(d, t), POLY))
  }

  /** The CRC after a stream of bits, in the order they are shifted. */
  function Over(crc: Crc32, bits: Bits): Crc32
    decreases |bits|
  {
    if bits == [] then crc else Over(Step(crc, bits[0]), bits[1..])
  }

  /** crc32: the `numBits` low bits of `value` are taken in, most significant bit first. */
  method Crc32Of(value: Bits, numBits: nat, crcIn: Crc32) returns (crc: Crc32)
    requires numBits <= |value|
    ensures crc == Over(crcIn, Reverse(value[..numBits]))
  {
    hide Step, Reverse;
    crc := crcIn;
    ghost var stream := Reverse(value[..numBits]);
    var i := numBits;
    while i > 0
      invariant i <= numBits
      invariant Over(crcIn, stream) == Over(crc, stream[numBits - i..])
    {
      i := i - 1;
      assert stream[numBits - i - 1..][0] == value[i];
      assert stream[numBits - i - 1..][1..] == stream[numBits - i..];
      crc := Step(crc, value[i]);
    }
  }

  /** A CRC can be computed in parts. */
  lemma {:induction false} OverConcat(crc: Crc32, a: Bits, b: Bits)
    ensures Over(crc, a + b) == Over(Over(crc, a), b)
    decreases |a|
  {
    if a == [] {
      assert a + b == b;
    } else {
      assert (a + b)[0] == a[0] && (a + b)[1..] == a[1..] + b;
      OverConcat(Step(crc, a[0]), a[1..], b);
    }
  }

  // ---- Error detection ----

  /** The division step without the C masks. */
  lemma StepIsDivision(crc: Crc32, bit: bool)
    ensures Step(crc, bit) == if bit != crc[31] then Xor(Shl(crc, 1), POLY) else Shl(crc, 1)
  {
  }

  lemma StepLinear(c: Crc32, c': Crc32, b: bool, b': bool)
    ensures Step(Xor(c, c'), b != b') == Xor(Step(c, b), Step(c', b'))
  {
  }

  /** The CRCs of two streams differ by the CRC, started at the difference, of where the streams differ. */
  lemma {:induction false} OverLinear(c: Crc32, c': Crc32, s: Bits, s': Bits)
    requires |s| == |s'|
    ensures Over(Xor(c, c'), Xor(s, s')) == Xor(Over(c, s), Over(c', s'))
    decreases |s|
  {
    hide Step;
    if s != [] {
      StepLinear(c, c', s[0], s'[0]);
      assert Xor(s, s')[1..] == Xor(s[1..], s'[1..]);
      OverLinear(Step(c, s[0]), Step(c', s'[0]), s[1..], s'[1..]);
    }
  }

  /** If one step ends in zero in its lowest bit, nothing was subtracted: the step was a shift. */
  lemma EvenStep(c: Crc32, bit: bool)
    requires !Step(c, bit)[0]
    ensures bit == c[31] && Step(c, bit) == Shl(c, 1)
  {
  }

  /** A CRC that reaches zero within 32 bits had only high bits, and those are the bits it was fed. */
  lemma {:induction false} ReachesZero(c: Crc32, s: Bits)
    requires |s| <= 32 && Over(c, s) == Zeros(32)
    ensures forall k :: 0 <= k < 32 - |s| ==> !c[k]
    ensures forall k :: 0 <= k < |s| ==> s[k] == c[31 - k]
    decreases |s|
  {
    hide Step, Shl;
    if s != [] {
      var c' := Step(c, s[0]);
      ReachesZero(c', s[1..]);
      EvenStep(c, s[0]);
      forall k | 0 <= k < |s|
        ensures s[k] == c[31 - k]
      {
        if k > 0 {
          assert s[k] == s[1..][k - 1] == c'[31 - (k - 1)];
        }
      }
      forall k | 0 <= k < 32 - |s|
        ensures !c[k]
      {
        assert !c'[k + 1];
      }
    }
  }

  /** Once two CRCs differ, equal bits keep them different. */
  lemma {:induction false} StaysNonzero(c: Crc32, n: nat)
    requires Over(c, Zeros(n)) == Zeros(32)
    ensures c == Zeros(32)
    decreases n
  {
    hide Step, Shl;
    if n > 0 {
      var c' := Step(c, false);
      assert Zeros(n)[1..] == Zeros(n - 1);
      StaysNonzero(c', n - 1);
      EvenStep(c, false);
      forall k | 0 <= k < 32
        ensures !c[k]
      {
        if k < 31 { assert !c'[k + 1]; }
      }
    }
  }

  lemma XorZero(a: Bits, b: Bits)
    requires |a| == |b| && Xor(a, b) == Zeros(|a|)
    ensures a == b
  {
  }

  /** Two different streams of at most 32 bits never take a CRC to the same value. */
  lemma ShortStreamsDiffer(c: Crc32, x: Bits, y: Bits)
    requires |x| == |y| <= 32 && Over(c, x) == Over(c, y)
    ensures x == y
  {
    hide Xor, Over;
    XorSame(c);
    OverLinear(c, c, x, y);
    XorSame(Over(c, x));
    ReachesZero(Zeros(32), Xor(x, y));
    XorZero(x, y);
  }

  /** A common tail does not make different CRCs equal. */
  lemma TailKeepsDifference(c: Crc32, c': Crc32, after: Bits)
    requires Over(c, after) == Over(c', after)
    ensures c == c'
  {
    hide Xor, Over;
    XorSame(Over(c, after));
    OverLinear(c, c', after, after);
    XorSame(after);
    StaysNonzero(Xor(c, c'), |after|);
    XorZero(c, c');
  }

  /** Two streams that differ, but only inside 32 consecutive bits, have different CRCs. */
  lemma BurstDetected(crc: Crc32, before: Bits, x: Bits, y: Bits, after: Bits)
    requires |x| == |y| <= 32
    ensures Over(crc, before + x + after) == Over(crc, before + y + after) <==> x == y
  {
    hide Over;
    var c := Over(crc, before);
    OverConcat(crc, before + x, after);
    OverConcat(crc, before, x);
    OverConcat(crc, before + y, after);
    OverConcat(crc, before, y);
    if Over(crc, before + x + after) == Over(crc, before + y + after) {
      TailKeepsDifference(Over(c, x), Over(c, y), after);
      ShortStreamsDiffer(c, x, y);
    }
  }

  lemma XorSame(a: Bits)
    ensures Xor(a, a) == Zeros(|a|)
  {
  }

  /** The polynomial as IEEE 802.3 writes it: the exponents below 32 that it has. */
  lemma PolynomialIs(k: nat)
    requires k < 32
    ensures POLY[k] <==> k in {26, 23, 22, 16, 12, 11, 10, 8, 7, 5, 4, 2, 1, 0}
  {
  }
}
