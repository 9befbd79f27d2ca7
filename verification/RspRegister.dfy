/** Registers as eight hexadecimal digits. */
module RspRegister {
  import opened RspSpec

  type Register = bv32

  /** Which four bits digit `n` stands for: from the top down, or with the digits of every byte swapped from the bottom
      up where the host is big-endian. */
  function Place(n: nat, bigEndian: bool): (k: nat)
    requires n < 8
    ensures k < 8
  {
    if !bigEndian then 7 - n else if n % 2 == 0 then n + 1 else n - 1
  }

  /** Shifted to place `k`. */
  function Shifted(d: Register, k: nat): Register
    requires k < 8
  {
    if k == 0 then d else if k == 1 then d << 4 else if k == 2 then d << 8 else if k == 3 then d << 12
    else if k == 4 then d << 16 else if k == 5 then d << 20 else if k == 6 then d << 24 else d << 28
  }

  /** The four bits at place `k`. */
  function Nibble(val: Register, k: nat): (d: Register)
    requires k < 8
    ensures d <= 15
  {
    (if k == 0 then val else if k == 1 then val >> 4 else if k == 2 then val >> 8 else if k == 3 then val >> 12
     else if k == 4 then val >> 16 else if k == 5 then val >> 20 else if k == 6 then val >> 24 else val >> 28) & 15
  }

  /** What is ORed in for a character; the -1 of one that is no digit has all bits set. */
  function DigitBits(c: int): Register {
    if Hex(c) < 0 then 0xffff_ffff else Hex(c) as Register
  }

  predicate IsDigit(c: int) { Hex(c) >= 0 }

  lemma DigitBack(d: Register)
    requires d <= 15
    ensures IsDigit(HexChar(d as nat)) && DigitBits(HexChar(d as nat)) == d
  {
  }

  lemma DigitSmall(c: int)
    requires IsDigit(c)
    ensures DigitBits(c) <= 15
  {
  }

  function Or(a: Register, b: Register): Register { a | b }

  /** What the first `n` characters give. */
  function Value(digits: seq<int>, bigEndian: bool, n: nat): Register
    requires n <= 8 <= |digits|
  {
    if n == 0 then 0
    else Or(Value(digits, bigEndian, n - 1), Shifted(DigitBits(digits[n - 1]), Place(n - 1, bigEndian)))
  }

  /** What is ORed in at place `k`; the order of the characters does not matter. */
  function AtPlace(digits: seq<int>, bigEndian: bool, k: nat): Register
    requires k < 8 <= |digits|
  {
    DigitBits(digits[if !bigEndian then 7 - k else if k % 2 == 0 then k + 1 else k - 1])
  }

  /** Eight digits from the bottom up. */
  function Join(a: Register, b: Register, c: Register, d: Register, e: Register, f: Register, g: Register, h: Register):
    Register
  {
    a | (b << 4) | (c << 8) | (d << 12) | (e << 16) | (f << 20) | (g << 24) | (h << 28)
  }

  lemma ValueByPlace(digits: seq<int>, bigEndian: bool)
    requires |digits| >= 8
    ensures
      var d := k requires 0 <= k < 8 => AtPlace(digits, bigEndian, k);
      Value(digits, bigEndian, 8) == Join(d(0), d(1), d(2), d(3), d(4), d(5), d(6), d(7))
  {
    hide DigitBits, Join, Or, Shifted;
    assert Value(digits, bigEndian, 0) == 0;
    var v1, v2, v3 := Value(digits, bigEndian, 1), Value(digits, bigEndian, 2), Value(digits, bigEndian, 3);
    var v4, v5, v6 := Value(digits, bigEndian, 4), Value(digits, bigEndian, 5), Value(digits, bigEndian, 6);
    var v7 := Value(digits, bigEndian, 7);
    if bigEndian {
      OrSwapped(DigitBits(digits[0]), DigitBits(digits[1]), DigitBits(digits[2]), DigitBits(digits[3]),
        DigitBits(digits[4]), DigitBits(digits[5]), DigitBits(digits[6]), DigitBits(digits[7]));
    } else {
      OrReversed(DigitBits(digits[0]), DigitBits(digits[1]), DigitBits(digits[2]), DigitBits(digits[3]),
        DigitBits(digits[4]), DigitBits(digits[5]), DigitBits(digits[6]), DigitBits(digits[7]));
    }
  }

  lemma OrReversed(a: Register, b: Register, c: Register, d: Register, e: Register, f: Register, g: Register,
    h: Register)
    ensures Or(Or(Or(Or(Or(Or(Or(Or(0, Shifted(a, 7)), Shifted(b, 6)), Shifted(c, 5)), Shifted(d, 4)), Shifted(e, 3)),
      Shifted(f, 2)), Shifted(g, 1)), Shifted(h, 0)) == Join(h, g, f, e, d, c, b, a)
  {
  }

  lemma OrSwapped(a: Register, b: Register, c: Register, d: Register, e: Register, f: Register, g: Register,
    h: Register)
    ensures Or(Or(Or(Or(Or(Or(Or(Or(0, Shifted(a, 1)), Shifted(b, 0)), Shifted(c, 3)), Shifted(d, 2)), Shifted(e, 5)),
      Shifted(f, 4)), Shifted(g, 7)), Shifted(h, 6)) == Join(b, a, d, c, f, e, h, g)
  {
  }

  /** The digits of a register read back as its value. */
  lemma RegisterRoundTrip(val: Register, digits: seq<int>, bigEndian: bool)
    requires |digits| >= 8 && forall n :: 0 <= n < 8 ==> digits[n] == HexChar(Nibble(val, Place(n, bigEndian)) as nat)
    ensures Value(digits, bigEndian, 8) == val
  {
    hide Nibble, HexChar, DigitBits, Value, Join;
    ValueByPlace(digits, bigEndian);
    forall k | 0 <= k < 8
      ensures AtPlace(digits, bigEndian, k) == Nibble(val, k)
    {
      var n := if !bigEndian then 7 - k else if k % 2 == 0 then k + 1 else k - 1;
      assert Place(n, bigEndian) == k;
      DigitBack(Nibble(val, k));
    }
    NibblesBack(val);
  }

  lemma NibblesBack(val: Register)
    ensures val == Join(Nibble(val, 0), Nibble(val, 1), Nibble(val, 2), Nibble(val, 3), Nibble(val, 4), Nibble(val, 5),
      Nibble(val, 6), Nibble(val, 7))
  {
  }

  /** Every character gives the four bits at its place if and only if all characters are digits. */
  lemma DigitsExact(digits: seq<int>, bigEndian: bool)
    requires |digits| >= 8
    ensures (forall n :: 0 <= n < 8 ==> IsDigit(digits[n])) <==>
      forall n :: 0 <= n < 8 ==> Nibble(Value(digits, bigEndian, 8), Place(n, bigEndian)) == DigitBits(digits[n])
  {
    hide Nibble, HexChar, Value, DigitBits;
    if forall n :: 0 <= n < 8 ==> IsDigit(digits[n]) {
      forall n | 0 <= n < 8
        ensures Nibble(Value(digits, bigEndian, 8), Place(n, bigEndian)) == DigitBits(digits[n])
      {
        DigitKept(digits, bigEndian, Place(n, bigEndian));
      }
    } else {
      var n :| 0 <= n < 8 && !IsDigit(digits[n]);
      BadDigit(digits[n]);
      assert Nibble(Value(digits, bigEndian, 8), Place(n, bigEndian)) != DigitBits(digits[n]);
    }
  }

  lemma DigitKept(digits: seq<int>, bigEndian: bool, k: nat)
    requires k < 8 <= |digits| && forall n :: 0 <= n < 8 ==> IsDigit(digits[n])
    ensures Nibble(Value(digits, bigEndian, 8), k) == AtPlace(digits, bigEndian, k)
  {
    hide DigitBits, Value, IsDigit, Nibble, HexChar, Join;
    ValueByPlace(digits, bigEndian);
    forall j | 0 <= j < 8
      ensures AtPlace(digits, bigEndian, j) <= 15
    {
      DigitSmall(digits[if !bigEndian then 7 - j else if j % 2 == 0 then j + 1 else j - 1]);
    }
    SmallKept(AtPlace(digits, bigEndian, 0), AtPlace(digits, bigEndian, 1), AtPlace(digits, bigEndian, 2),
      AtPlace(digits, bigEndian, 3), AtPlace(digits, bigEndian, 4), AtPlace(digits, bigEndian, 5),
      AtPlace(digits, bigEndian, 6), AtPlace(digits, bigEndian, 7));
  }

  lemma SmallKept(a: Register, b: Register, c: Register, d: Register, e: Register, f: Register, g: Register,
    h: Register)
    requires a <= 15 && b <= 15 && c <= 15 && d <= 15 && e <= 15 && f <= 15 && g <= 15 && h <= 15
    ensures
      var v := Join(a, b, c, d, e, f, g, h);
      Nibble(v, 0) == a && Nibble(v, 1) == b && Nibble(v, 2) == c && Nibble(v, 3) == d &&
      Nibble(v, 4) == e && Nibble(v, 5) == f && Nibble(v, 6) == g && Nibble(v, 7) == h
  {
  }

  predicate Covers(v: Register, mask: Register) { v | mask == v }

  /** A character that is no digit sets all bits from its place up. */
  lemma BadDigitSpills(digits: seq<int>, bigEndian: bool, n: nat, m: nat)
    requires n < m <= 8 <= |digits| && !IsDigit(digits[n])
    ensures Covers(Value(digits, bigEndian, m), Shifted(0xffff_ffff, Place(n, bigEndian)))
    decreases m
  {
    hide DigitBits, Place, Shifted, Value, Covers;
    var mask := Shifted(0xffff_ffff, Place(n, bigEndian));
    if n + 1 == m {
      BadDigit(digits[n]);
      CoversItself(mask);
    } else {
      BadDigitSpills(digits, bigEndian, n, m - 1);
    }
    StillCovers(digits, bigEndian, m, mask);
  }

  lemma BadDigit(c: int)
    requires !IsDigit(c)
    ensures DigitBits(c) == 0xffff_ffff
  {
  }

  lemma CoversItself(mask: Register)
    ensures Covers(mask, mask)
  {
  }

  lemma StillCovers(digits: seq<int>, bigEndian: bool, m: nat, mask: Register)
    requires 0 < m <= 8 <= |digits|
    requires Covers(Value(digits, bigEndian, m - 1), mask) ||
      Covers(Shifted(DigitBits(digits[m - 1]), Place(m - 1, bigEndian)), mask)
    ensures Covers(Value(digits, bigEndian, m), mask)
  {
    hide DigitBits, Place, Shifted, Or, Covers;
    OrCovers(Value(digits, bigEndian, m - 1), Shifted(DigitBits(digits[m - 1]), Place(m - 1, bigEndian)), mask);
  }

  lemma OrCovers(a: Register, b: Register, mask: Register)
    requires Covers(a, mask) || Covers(b, mask)
    ensures Covers(Or(a, b), mask)
  {
    assert (a | b) | mask == a | (b | mask) && (a | b) | mask == (a | mask) | b;
  }

  const ONE_TO_EIGHT: seq<int> :=
    ['1' as int, '2' as int, '3' as int, '4' as int, '5' as int, '6' as int, '7' as int, '8' as int]

  /** The digits stand from the top down on little-endian hosts, and byte by byte from the bottom up on others. */
  lemma DigitOrder()
    ensures Value(ONE_TO_EIGHT, false, 8) == 0x1234_5678 && Value(ONE_TO_EIGHT, true, 8) == 0x7856_3412
  {
    hide Value, DigitBits, Join;
    ValueByPlace(ONE_TO_EIGHT, false);
    ValueByPlace(ONE_TO_EIGHT, true);
    DigitsAre();
    assert Join(8, 7, 6, 5, 4, 3, 2, 1) == 0x1234_5678 && Join(2, 1, 4, 3, 6, 5, 8, 7) == 0x7856_3412 by { Joined(); }
  }

  lemma DigitsAre()
    ensures DigitBits(ONE_TO_EIGHT[0]) == 1 && DigitBits(ONE_TO_EIGHT[1]) == 2 && DigitBits(ONE_TO_EIGHT[2]) == 3
    ensures DigitBits(ONE_TO_EIGHT[3]) == 4 && DigitBits(ONE_TO_EIGHT[4]) == 5 && DigitBits(ONE_TO_EIGHT[5]) == 6
    ensures DigitBits(ONE_TO_EIGHT[6]) == 7 && DigitBits(ONE_TO_EIGHT[7]) == 8
  {
  }

  lemma Joined()
    ensures Join(8, 7, 6, 5, 4, 3, 2, 1) == 0x1234_5678 && Join(2, 1, 4, 3, 6, 5, 8, 7) == 0x7856_3412
  {
  }
}
