/** Machine words as bit sequences, least significant bit first, with the C operators on them.
    This is also the order in which a JTAG register is shifted: byte 0 first, and in each
    byte the least significant bit first. */
module Bits {

  type Bits = seq<bool>

  predicate IsByte(b: Bits) { |b| == 8 }

  type Byte = b: Bits | IsByte(b) witness [false, false, false, false, false, false, false, false]

  function Zeros(n: nat): (r: Bits)
    ensures |r| == n && forall k :: 0 <= k < n ==> !r[k]
  {
    seq(n, _ => false)
  }

  function Ones(n: nat): (r: Bits)
    ensures |r| == n && forall k :: 0 <= k < n ==> r[k]
  {
    seq(n, _ => true)
  }

  /** `<<` and `>>` keep the width of their operand. */
  function Shl(a: Bits, n: nat): (r: Bits)
    ensures |r| == |a| && forall k :: 0 <= k < |a| ==> r[k] == (k >= n && a[k - n])
  {
    seq(|a|, k requires 0 <= k < |a| => k >= n && a[k - n])
  }

  function Shr(a: Bits, n: nat): (r: Bits)
    ensures |r| == |a| && forall k :: 0 <= k < |a| ==> r[k] == (k + n < |a| && a[k + n])
  {
    seq(|a|, k requires 0 <= k < |a| => k + n < |a| && a[k + n])
  }

  function Or(a: Bits, b: Bits): (r: Bits)
    requires |a| == |b|
    ensures |r| == |a| && forall k :: 0 <= k < |a| ==> r[k] == (a[k] || b[k])
  {
    seq(|a|, k requires 0 <= k < |a| => a[k] || b[k])
  }

  function And(a: Bits, b: Bits): (r: Bits)
    requires |a| == |b|
    ensures |r| == |a| && forall k :: 0 <= k < |a| ==> r[k] == (a[k] && b[k])
  {
    seq(|a|, k requires 0 <= k < |a| => a[k] && b[k])
  }

  function Xor(a: Bits, b: Bits): (r: Bits)
    requires |a| == |b|
    ensures |r| == |a| && forall k :: 0 <= k < |a| ==> r[k] == (a[k] != b[k])
  {
    seq(|a|, k requires 0 <= k < |a| => a[k] != b[k])
  }

  /** Conversion to another width: extra bits are zero, missing bits are dropped. */
  function Resize(a: Bits, n: nat): (r: Bits)
    ensures |r| == n && forall k :: 0 <= k < n ==> r[k] == (k < |a| && a[k])
  {
    seq(n, k requires 0 <= k < n => k < |a| && a[k])
  }

  /** The last bit first. */
  function Reverse(a: Bits): (r: Bits)
    ensures |r| == |a| && forall k :: 0 <= k < |a| ==> r[k] == a[|a| - 1 - k]
  {
    seq(|a|, k requires 0 <= k < |a| => a[|a| - 1 - k])
  }

  function ToNat(a: Bits): nat {
    if a == [] then 0 else 2 * ToNat(a[1..]) + if a[0] then 1 else 0
  }

  function ToBits(v: nat, n: nat): (r: Bits)
    ensures |r| == n
  {
    if n == 0 then [] else [v % 2 == 1] + ToBits(v / 2, n - 1)
  }

  function Power2(n: nat): (r: nat)
    ensures r > 0
  {
    if n == 0 then 1 else 2 * Power2(n - 1)
  }

  lemma {:induction false} ToBitsToNat(v: nat, n: nat)
    requires v < Power2(n)
    ensures ToNat(ToBits(v, n)) == v
  {
    if n > 0 {
      ToBitsToNat(v / 2, n - 1);
      assert ToBits(v, n)[1..] == ToBits(v / 2, n - 1);
    }
  }

  lemma {:induction false} ToNatToBits(a: Bits)
    ensures ToNat(a) < Power2(|a|) && ToBits(ToNat(a), |a|) == a
  {
    if a != [] {
      ToNatToBits(a[1..]);
      assert a == [a[0]] + a[1..];
    }
  }

  lemma ReverseTwice(a: Bits)
    ensures Reverse(Reverse(a)) == a
  {
  }

  // ---- reverse_bits and reverse_byte ----

  /** How far bit `k` lies into its group of `g` bits. */
  function Offset(k: nat, g: nat): (r: nat)
    requires g > 0
    ensures r < g
  {
    if k < g then k else Offset(k - g, g)
  }

  /** Is bit `k` in the upper half of its group of `2 * w` bits?  The halves alternate every `w` bits. */
  predicate Upper(k: nat, w: nat)
    requires w > 0
    decreases k
  {
    k >= w && !Upper(k - w, w)
  }

  /** A word of `n` bits consists of whole groups of `g` bits. */
  predicate Groups(n: nat, g: nat)
    requires g > 0
  {
    n == 0 || (n >= g && Groups(n - g, g))
  }

  /** The mask selecting the upper (or lower) half of every group of `2 * w` bits: 0xaaaa... (0x5555...) when
      `w` is 1, 0xcccc... (0x3333...) when it is 2, and so on. */
  function HalfMask(n: nat, w: nat, upper: bool): (r: Bits)
    requires w > 0
    ensures |r| == n && forall k :: 0 <= k < n ==> r[k] == (Upper(k, w) == upper)
  {
    seq(n, k requires 0 <= k < n => Upper(k, w) == upper)
  }

  /** Exchanges the two halves of every group of `2 * w` bits. */
  function SwapHalves(a: Bits, w: nat): (r: Bits)
    requires w > 0
    ensures |r| == |a|
  {
    Or(Shr(And(a, HalfMask(|a|, w, true)), w), Shl(And(a, HalfMask(|a|, w, false)), w))
  }

  /** reverse_bits: six exchanges reverse a 64-bit word, whose top `numBits` bits are then wanted. */
  function ReverseBits(val: Bits, numBits: nat): Bits
    requires |val| == 64 && numBits <= 64
  {
    var v1 := SwapHalves(val, 1);
    var v2 := SwapHalves(v1, 2);
    var v3 := SwapHalves(v2, 4);
    var v4 := SwapHalves(v3, 8);
    var v5 := SwapHalves(v4, 16);
    var v6 := Or(Shr(v5, 32), Shl(v5, 32));
    Shr(v6, 64 - numBits)
  }

  function ReverseByte(byte: Byte): Bits {
    var b1 := SwapHalves(byte, 1);
    var b2 := SwapHalves(b1, 2);
    Or(Shr(b2, 4), Shl(b2, 4))
  }

  /** A group of `2 * w` bits is two groups of `w` bits. */
  lemma {:induction false} HalfOffset(k: nat, w: nat)
    requires w > 0
    ensures Offset(k, 2 * w) == Offset(k, w) + (if Upper(k, w) then w else 0) <= k
  {
    if k >= 2 * w {
      HalfOffset(k - 2 * w, w);
      assert Offset(k, w) == Offset(k - w, w) == Offset(k - 2 * w, w);
    } else if k >= w {
      assert Offset(k, w) == Offset(k - w, w) == k - w;
    }
  }

  lemma {:induction false} GroupEnd(k: nat, n: nat, g: nat)
    requires g > 0 && k < n && Groups(n, g)
    ensures Offset(k, g) <= k && Offset(k, g) < g && k - Offset(k, g) + g <= n
  {
    if k >= g {
      GroupEnd(k - g, n - g, g);
    }
  }

  lemma {:induction false} WholeGroups(c: nat, g: nat)
    requires g > 0
    ensures Groups(c * g, g)
  {
    if c > 0 {
      WholeGroups(c - 1, g);
      assert c * g == (c - 1) * g + g;
    }
  }

  lemma SwapAt(a: Bits, w: nat, k: nat)
    requires w > 0 && k < |a|
    ensures SwapHalves(a, w)[k] == if Upper(k, w) then k >= w && a[k - w] else k + w < |a| && a[k + w]
  {
    hide Or, Shl, Shr, And;
    assert Upper(k + w, w) == !Upper(k, w);
  }

  /** The bit that bit `k` becomes when the order in every group of `g` bits is reversed. */
  function Mirror(k: nat, g: nat): int
    requires g > 0
  {
    k + g - 1 - 2 * Offset(k, g)
  }

  predicate GroupsReversed(a: Bits, r: Bits, g: nat)
    requires g > 0
  {
    |r| == |a| && forall k :: 0 <= k < |a| ==> 0 <= Mirror(k, g) < |a| && r[k] == a[Mirror(k, g)]
  }

  lemma MirrorStep(k: nat, w: nat, n: nat)
    requires w > 0 && k < n && Groups(n, 2 * w)
    ensures 0 <= Mirror(k, 2 * w) < n
    ensures if Upper(k, w) then k >= w && Mirror(k - w, w) == Mirror(k, 2 * w)
            else k + w < n && Mirror(k + w, w) == Mirror(k, 2 * w)
  {
    HalfOffset(k, w);
    GroupEnd(k, n, 2 * w);
  }

  /** Exchanging the halves of each group reverses groups of twice the size. */
  lemma SwapStage(a: Bits, r: Bits, w: nat)
    requires w > 0 && Groups(|a|, 2 * w) && GroupsReversed(a, r, w)
    ensures GroupsReversed(a, SwapHalves(r, w), 2 * w)
  {
    hide SwapHalves, Mirror, Upper;
    forall k | 0 <= k < |a|
      ensures 0 <= Mirror(k, 2 * w) < |a| && SwapHalves(r, w)[k] == a[Mirror(k, 2 * w)]
    {
      SwapAt(r, w, k);
      MirrorStep(k, w, |a|);
    }
  }

  lemma GroupsReversedAt(a: Bits, r: Bits, w: nat, k: nat)
    requires w > 0 && GroupsReversed(a, r, w) && k < |a|
    ensures |r| == |a| && 0 <= Mirror(k, w) < |a| && r[k] == a[Mirror(k, w)]
  {
  }

  /** After five exchanges the two halves of the word are each reversed. */
  lemma FiveStages(val: Bits)
    requires |val| == 64
    ensures GroupsReversed(val, SwapHalves(SwapHalves(SwapHalves(SwapHalves(SwapHalves(val, 1), 2), 4), 8), 16), 32)
  {
    hide SwapHalves, GroupsReversed, Groups;
    WholeGroups(32, 2);
    WholeGroups(16, 4);
    WholeGroups(8, 8);
    WholeGroups(4, 16);
    WholeGroups(2, 32);
    OneBitGroups(val);
    SwapStage(val, val, 1);
    SwapStage(val, SwapHalves(val, 1), 2);
    SwapStage(val, SwapHalves(SwapHalves(val, 1), 2), 4);
    SwapStage(val, SwapHalves(SwapHalves(SwapHalves(val, 1), 2), 4), 8);
    SwapStage(val, SwapHalves(SwapHalves(SwapHalves(SwapHalves(val, 1), 2), 4), 8), 16);
  }

  lemma OneBitGroups(a: Bits)
    ensures GroupsReversed(a, a, 1)
  {
  }

  /** Exchanging two reversed halves of width `h` reverses the whole. */
  lemma ExchangeHalves(a: Bits, r: Bits, h: nat)
    requires h > 0 && |a| == 2 * h && GroupsReversed(a, r, h)
    ensures Or(Shr(r, h), Shl(r, h)) == Reverse(a)
  {
    hide Or, Shl, Shr, Reverse;
    var v := Or(Shr(r, h), Shl(r, h));
    forall k | 0 <= k < 2 * h
      ensures v[k] == a[2 * h - 1 - k]
    {
      if k < h {
        assert Offset(k + h, h) == Offset(k, h) == k;
        GroupsReversedAt(a, r, h, k + h);
      } else {
        assert Offset(k - h, h) == k - h;
        GroupsReversedAt(a, r, h, k - h);
      }
    }
  }

  /** reverse_bits gives the `numBits` low bits of its argument in reverse order, and zeros above them. */
  lemma ReverseBitsReverses(val: Bits, numBits: nat)
    requires |val| == 64 && numBits <= 64
    ensures ReverseBits(val, numBits) == Reverse(val[..numBits]) + Zeros(64 - numBits)
  {
    hide SwapHalves, GroupsReversed, Or, Shl, Shr, Reverse;
    FiveStages(val);
    ExchangeHalves(val, SwapHalves(SwapHalves(SwapHalves(SwapHalves(SwapHalves(val, 1), 2), 4), 8), 16), 32);
    var v6 := Reverse(val);
    var r := ReverseBits(val, numBits);
    assert r == Shr(v6, 64 - numBits);
    assert forall k :: 0 <= k < numBits ==> r[k] == val[..numBits][numBits - 1 - k];
  }

  lemma ReverseByteReverses(byte: Byte)
    ensures ReverseByte(byte) == Reverse(byte)
  {
    hide SwapHalves, GroupsReversed, Or, Shl, Shr, Reverse;
    WholeGroups(4, 2);
    WholeGroups(2, 4);
    OneBitGroups(byte);
    SwapStage(byte, byte, 1);
    SwapStage(byte, SwapHalves(byte, 1), 2);
    ExchangeHalves(byte, SwapHalves(SwapHalves(byte, 1), 2), 4);
  }
}
