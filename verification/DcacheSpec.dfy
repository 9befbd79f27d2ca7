/** The data cache as values: how addresses split, how big-endian words are read and merged, and what every
    operation does to a set. */
module DcacheSpec {
  import opened IcacheLru

  // ---- Memory ----

  /** Mapped bytes by address; memory is mapped in whole words. */
  type Memory = map<nat, int>

  ghost predicate WordIn(m: Memory, a: nat) {
    a in m && a + 1 in m && a + 2 in m && a + 3 in m &&
    0 <= m[a] < 256 && 0 <= m[a + 1] < 256 && 0 <= m[a + 2] < 256 && 0 <= m[a + 3] < 256
  }

  ghost predicate WholeWords(m: Memory) { forall a {:trigger Aligned(a)} :: a in m ==> WordIn(m, Aligned(a)) }

  function Aligned(a: nat): nat { a - a % 4 }

  predicate WidthOk(a: nat, width: nat) { width == 1 || (width == 2 && a % 2 == 0) || (width == 4 && a % 4 == 0) }

  /** The big-endian word at a mapped, aligned address. */
  function Word(m: Memory, a: nat): int {
    if a in m && a + 1 in m && a + 2 in m && a + 3 in m
    then 0x100_0000 * m[a] + 0x1_0000 * m[a + 1] + 0x100 * m[a + 2] + m[a + 3] else 0
  }

  /** evalsim_mem32, evalsim_mem16 and evalsim_mem8; zero where nothing is mapped. */
  function Direct(m: Memory, a: nat, width: nat): int {
    if a !in m then 0
    else if width == 4 then Word(m, a)
    else if width == 2 then (if a + 1 in m then 0x100 * m[a] + m[a + 1] else 0)
    else m[a]
  }

  /** setsim_mem32, setsim_mem16 and setsim_mem8. */
  function Store(m: Memory, a: nat, data: nat, width: nat): Memory {
    if a !in m then m
    else if width == 4 then
      m[a := data / 0x100_0000 % 0x100][a + 1 := data / 0x1_0000 % 0x100][a + 2 := data / 0x100 % 0x100][a + 3 :=
        data % 0x100]
    else if width == 2 then m[a := data / 0x100 % 0x100][a + 1 := data % 0x100]
    else m[a := data % 0x100]
  }

  /** What a read of this width takes out of the cached word, at byte `r` of it. */
  function Select(w: int, r: nat, width: nat): int {
    if width == 4 then w
    else if width == 2 then (if r >= 2 then w else w / 0x1_0000) % 0x1_0000
    else w / Power(r) % 0x100
  }

  /** 1 << (8 * (3 - r)). */
  function Power(r: nat): int { if r == 0 then 0x100_0000 else if r == 1 then 0x1_0000 else if r == 2 then 0x100
    else 1 }

  /** What a write of this width makes of the cached word: the written part is masked out and put in. */
  function Merge(w: int, r: nat, data: nat, width: nat): int {
    if width == 4 then data
    else if width == 2 then
      (if r >= 2 then w / 0x1_0000 * 0x1_0000 + data % 0x1_0000 else w % 0x1_0000 + data % 0x1_0000 * 0x1_0000)
    else w - w / Power(r) % 0x100 * Power(r) + data % 0x100 * Power(r)
  }

  predicate Byte(b: int) { 0 <= b < 0x100 }

  function Join(b0: int, b1: int, b2: int, b3: int): int { 0x100_0000 * b0 + 0x1_0000 * b1 + 0x100 * b2 + b3 }

  lemma Parts(b0: int, b1: int, b2: int, b3: int)
    requires Byte(b0) && Byte(b1) && Byte(b2) && Byte(b3)
    ensures var w := Join(b0, b1, b2, b3);
      w / 0x100_0000 == b0 && w / 0x1_0000 == 0x100 * b0 + b1 && w / 0x100 == 0x1_0000 * b0 + 0x100 * b1 + b2 &&
      w % 0x1_0000 == 0x100 * b2 + b3 && w % 0x100 == b3
  {
  }

  lemma LowByte(high: int, low: int)
    requires Byte(low)
    ensures (0x100 * high + low) % 0x100 == low && (0x100 * high + low) / 0x100 == high
  {
  }

  lemma LowHalf(low: int)
    requires 0 <= low < 0x1_0000
    ensures low % 0x1_0000 == low
  {
  }

  /** The bytes and half-words of a word, taken out by shifting and masking. */
  lemma Selected(b0: int, b1: int, b2: int, b3: int)
    requires Byte(b0) && Byte(b1) && Byte(b2) && Byte(b3)
    ensures var w := Join(b0, b1, b2, b3);
      Select(w, 0, 1) == b0 && Select(w, 1, 1) == b1 && Select(w, 2, 1) == b2 && Select(w, 3, 1) == b3 &&
      Select(w, 0, 2) == 0x100 * b0 + b1 && Select(w, 2, 2) == 0x100 * b2 + b3 && Select(w, 0, 4) == w
  {
    Parts(b0, b1, b2, b3);
    LowByte(0, b0);
    LowByte(b0, b1);
    LowByte(0x100 * b0 + b1, b2);
    LowHalf(0x100 * b0 + b1);
  }

  /** A word with the bytes of the written part replaced. */
  lemma Merged(b0: int, b1: int, b2: int, b3: int, d0: int, d1: int, d2: int, d3: int)
    requires Byte(b0) && Byte(b1) && Byte(b2) && Byte(b3) && Byte(d0) && Byte(d1) && Byte(d2) && Byte(d3)
    ensures var w, d := Join(b0, b1, b2, b3), Join(d0, d1, d2, d3);
      d >= 0 && Merge(w, 0, d, 4) == d &&
      Merge(w, 0, d, 1) == Join(d3, b1, b2, b3) && Merge(w, 1, d, 1) == Join(b0, d3, b2, b3) &&
      Merge(w, 2, d, 1) == Join(b0, b1, d3, b3) && Merge(w, 3, d, 1) == Join(b0, b1, b2, d3) &&
      Merge(w, 0, d, 2) == Join(d2, d3, b2, b3) && Merge(w, 2, d, 2) == Join(b0, b1, d2, d3)
  {
    var w, d := Join(b0, b1, b2, b3), Join(d0, d1, d2, d3);
    Parts(b0, b1, b2, b3);
    Parts(d0, d1, d2, d3);
    Selected(b0, b1, b2, b3);
    assert w / Power(0) % 0x100 == b0 && w / Power(1) % 0x100 == b1 && w / Power(2) % 0x100 == b2 &&
      w / Power(3) % 0x100 == b3;
  }

  /** The bytes of a word of data. */
  lemma DataBytes(data: nat) returns (d0: int, d1: int, d2: int, d3: int)
    requires data < 0x1_0000_0000
    ensures Byte(d0) && Byte(d1) && Byte(d2) && Byte(d3) && data == Join(d0, d1, d2, d3)
    ensures data / 0x100_0000 % 0x100 == d0 && data / 0x1_0000 % 0x100 == d1 && data / 0x100 % 0x100 == d2 &&
      data % 0x100 == d3
  {
    d3, d2 := data % 0x100, data / 0x100 % 0x100;
    d1, d0 := data / 0x1_0000 % 0x100, data / 0x100_0000 % 0x100;
    var h1, h2, h3 := data / 0x100, data / 0x1_0000, data / 0x100_0000;
    assert data == 0x100 * h1 + d3;
    assert h2 == h1 / 0x100 && h1 == 0x100 * h2 + d2;
    assert h3 == h2 / 0x100 && h2 == 0x100 * h3 + d1;
    assert h3 == d0;
  }

  lemma Lane(a: nat, width: nat)
    ensures Aligned(a) % 4 == 0 && a == Aligned(a) + a % 4 && 0 <= a % 4 < 4
    ensures WidthOk(a, width) && width == 2 ==> a % 4 == 0 || a % 4 == 2
  {
  }

  /** A read through the cached word is the read from memory. */
  lemma SelectIsDirect(m: Memory, a: nat, width: nat)
    requires WholeWords(m) && a in m && WidthOk(a, width)
    ensures Select(Word(m, Aligned(a)), a % 4, width) == Direct(m, a, width)
  {
    var b, r := Aligned(a), a % 4;
    Lane(a, width);
    assert WordIn(m, b);
    SelectAt(m, b, r, width);
  }

  lemma SelectAt(m: Memory, b: nat, r: nat, width: nat)
    requires WordIn(m, b) && r < 4 && (width == 1 || (width == 2 && (r == 0 || r == 2)) || (width == 4 && r == 0))
    ensures Select(Word(m, b), r, width) == Direct(m, b + r, width)
  {
    hide Select;
    Selected(m[b], m[b + 1], m[b + 2], m[b + 3]);
  }

  /** Merging into the cached word is writing to memory. */
  lemma MergeIsStore(m: Memory, a: nat, data: nat, width: nat)
    requires WholeWords(m) && a in m && WidthOk(a, width) && data < 0x1_0000_0000
    ensures Word(Store(m, a, data, width), Aligned(a)) == Merge(Word(m, Aligned(a)), a % 4, data, width)
  {
    var b, r := Aligned(a), a % 4;
    Lane(a, width);
    assert WordIn(m, b);
    MergeAt(m, b, r, data, width);
  }

  lemma MergeAt(m: Memory, b: nat, r: nat, data: nat, width: nat)
    requires WordIn(m, b) && r < 4 && (width == 1 || (width == 2 && (r == 0 || r == 2)) || (width == 4 && r == 0))
    requires data < 0x1_0000_0000
    ensures Word(Store(m, b + r, data, width), b) == Merge(Word(m, b), r, data, width)
    ensures WordIn(Store(m, b + r, data, width), b) && Store(m, b + r, data, width).Keys == m.Keys
  {
    hide Merge;
    var d0, d1, d2, d3 := DataBytes(data);
    Merged(m[b], m[b + 1], m[b + 2], m[b + 3], d0, d1, d2, d3);
    assert m.Keys + {b, b + 1, b + 2, b + 3} == m.Keys;
  }

  lemma StoreAt(m: Memory, b: nat, r: nat, data: nat, width: nat, c: nat)
    requires WordIn(m, b) && r < 4 && (width == 1 || (width == 2 && (r == 0 || r == 2)) || (width == 4 && r == 0))
    requires c + 4 <= b || b + 4 <= c
    ensures Word(Store(m, b + r, data, width), c) == Word(m, c) &&
      (WordIn(m, c) ==> WordIn(Store(m, b + r, data, width), c))
  {
  }

  lemma WordsApart(b: nat, c: nat)
    requires b % 4 == 0 && c % 4 == 0 && b != c
    ensures c + 4 <= b || b + 4 <= c
  {
  }

  /** A write changes no other word. */
  lemma StoreElsewhere(m: Memory, a: nat, data: nat, width: nat, c: nat)
    requires WholeWords(m) && WidthOk(a, width) && c % 4 == 0 && c != Aligned(a)
    ensures Word(Store(m, a, data, width), c) == Word(m, c) && (WordIn(m, c) ==> WordIn(Store(m, a, data, width), c))
  {
    hide Store, Word, WordIn, Aligned;
    if a in m {
      Lane(a, width);
      assert WordIn(m, Aligned(a));
      WordsApart(Aligned(a), c);
      StoreAt(m, Aligned(a), a % 4, data, width, c);
    } else {
      NotStored(m, a, data, width);
    }
  }

  /** A write maps nothing new. */
  lemma StoreWhole(m: Memory, a: nat, data: nat, width: nat)
    requires WholeWords(m) && WidthOk(a, width) && data < 0x1_0000_0000
    ensures WholeWords(Store(m, a, data, width)) && Store(m, a, data, width).Keys == m.Keys
  {
    hide Store, Word, WordIn, Aligned, WidthOk;
    if a in m {
      var now := Store(m, a, data, width);
      Lane(a, width);
      assert WordIn(m, Aligned(a));
      MergeLane(m, a, data, width);
      forall c | c in now
        ensures WordIn(now, Aligned(c))
      {
        assert c in m.Keys;
        assert WordIn(m, Aligned(c));
        Lane(c, 1);
        if Aligned(c) != Aligned(a) { StoreElsewhere(m, a, data, width, Aligned(c)); }
      }
    } else {
      NotStored(m, a, data, width);
    }
  }

  lemma MergeLane(m: Memory, a: nat, data: nat, width: nat)
    requires WordIn(m, Aligned(a)) && WidthOk(a, width) && data < 0x1_0000_0000
    ensures WordIn(Store(m, a, data, width), Aligned(a)) && Store(m, a, data, width).Keys == m.Keys
  {
    hide Store, Aligned, Word;
    Lane(a, width);
    MergeAt(m, Aligned(a), a % 4, data, width);
  }

  lemma NotStored(m: Memory, a: nat, data: nat, width: nat)
    ensures a in Store(m, a, data, width) <==> a in m
    ensures a !in m ==> Store(m, a, data, width) == m
  {
  }

  // ---- Addresses ----

  function SetOf(a: nat, bs: nat, nsets: nat): (s: nat)
    requires bs > 0 && nsets > 0
    ensures s < nsets
  {
    a / bs % nsets
  }

  function TagOf(a: nat, bs: nat, nsets: nat): nat
    requires bs > 0 && nsets > 0
  {
    a / bs / nsets
  }

  /** The block an address is in. */
  function Start(a: nat, bs: nat): nat
    requires BlockSize(bs)
  {
    a - Off(a, bs)
  }

  predicate BlockSize(bs: nat) { bs == 16 || bs == 32 }

  function Off(a: nat, bs: nat): (r: nat)
    requires BlockSize(bs)
    ensures r == a % bs < bs && r <= a
  {
    if bs == 16 then a % 16 else a % 32
  }

  /** The block that a tag stands for in a set. */
  function Base(tag: nat, s: nat, bs: nat, nsets: nat): nat {
    NonNegative(tag, nsets);
    NonNegative(tag * nsets + s, bs);
    (tag * nsets + s) * bs
  }

  lemma NonNegative(a: nat, b: nat)
    ensures a * b >= 0
  {
  }

  lemma Product(a: int, n: nat)
    ensures (a >= 1 ==> a * n >= n) && (a <= -1 ==> a * n + n <= 0)
  {
  }

  lemma DivUnique(x: nat, n: nat, q: nat, r: nat)
    requires n > 0 && x == q * n + r && r < n
    ensures x / n == q && x % n == r
  {
    var d := x / n - q;
    assert x == n * (x / n) + x % n;
    assert d * n == r - x % n;
    Product(d, n);
  }

  lemma BaseOf(a: nat, bs: nat, nsets: nat)
    requires BlockSize(bs) && nsets > 0
    ensures Base(TagOf(a, bs, nsets), SetOf(a, bs, nsets), bs, nsets) == Start(a, bs)
  {
  }

  /** Every byte of a block has the block's tag and set. */
  lemma InBlock(tag: nat, s: nat, off: nat, bs: nat, nsets: nat)
    requires BlockSize(bs) && s < nsets && off < bs
    ensures var a := Base(tag, s, bs, nsets) + off;
      TagOf(a, bs, nsets) == tag && SetOf(a, bs, nsets) == s && Start(a, bs) == Base(tag, s, bs, nsets)
  {
    DivUnique(Base(tag, s, bs, nsets) + off, bs, tag * nsets + s, off);
    DivUnique(tag * nsets + s, nsets, tag, s);
  }

  /** Where the word at `a` sits in its line. */
  function Index(a: nat, bs: nat): (k: nat)
    requires BlockSize(bs)
    ensures k < bs / 4
  {
    Off(a, bs) / 4
  }

  /** An address is `q` blocks, `k` words and `r` bytes. */
  lemma Digits(a: nat, bs: nat) returns (q: nat, k: nat, r: nat)
    requires BlockSize(bs)
    ensures k < bs / 4 && r < 4 && a == (if bs == 16 then 16 * q else 32 * q) + 4 * k + r
  {
    r := a % 4;
    var words := a / 4;
    if bs == 16 {
      q, k := words / 4, words % 4;
    } else {
      q, k := words / 8, words % 8;
    }
  }

  lemma FromDigits(q: nat, k: nat, r: nat, bs: nat)
    requires BlockSize(bs) && k < bs / 4 && r < 4
    ensures var a := (if bs == 16 then 16 * q else 32 * q) + 4 * k + r;
      Off(a, bs) == 4 * k + r && Index(a, bs) == k && a % 4 == r && Aligned(a) == a - r
  {
    if bs == 16 { Digits16(q, 4 * k + r); LowDigit(4 * q + k, r); }
      else { Digits32(q, 4 * k + r); LowDigit(8 * q + k, r); }
    LowDigit(k, r);
  }

  lemma Digits16(q: nat, r: nat)
    requires r < 16
    ensures (16 * q + r) % 16 == r
  {
  }

  lemma Digits32(q: nat, r: nat)
    requires r < 32
    ensures (32 * q + r) % 32 == r
  {
  }

  lemma LowDigit(k: nat, r: nat)
    requires r < 4
    ensures (4 * k + r) % 4 == r && (4 * k + r) / 4 == k
  {
  }

  lemma IndexOf(a: nat, bs: nat)
    requires BlockSize(bs)
    ensures Start(a, bs) + 4 * Index(a, bs) == Aligned(a) && Start(a, bs) % 4 == 0
  {
    hide Index, Off, Aligned;
    var q, k, r := Digits(a, bs);
    FromDigits(q, k, r, bs);
  }

  lemma Index4(a: nat, bs: nat)
    requires BlockSize(bs)
    ensures 4 * Index(a, bs) < bs
  {
  }

  /** The refill goes through the words of the block from the wanted one, around the end. */
  lemma RefillIndex(a: nat, n: nat, bs: nat)
    requires BlockSize(bs) && n < bs / 4
    ensures Index(a + 4 * n, bs) == var k := Index(a, bs) + n; if k < bs / 4 then k else k - bs / 4
    ensures Off(Aligned(a) + 4 * n, bs) == 4 * Index(a + 4 * n, bs)
  {
    hide Index, Off, Aligned;
    var q, k, r := Digits(a, bs);
    FromDigits(q, k, r, bs);
    if k + n < bs / 4 {
      FromDigits(q, k + n, r, bs);
      FromDigits(q, k + n, 0, bs);
    } else {
      FromDigits(q + 1, k + n - bs / 4, r, bs);
      FromDigits(q + 1, k + n - bs / 4, 0, bs);
    }
  }

  predicate BlockMapped(m: Memory, a: nat, bs: nat)
    requires BlockSize(bs)
  {
    forall i :: 0 <= i < bs / 4 ==> Start(a, bs) + 4 * i in m
  }

  // ---- Sets ----

  /** The last of the first `n` ways that holds `tag`; -1 if there is none. */
  function FindLast(tags: seq<int>, tag: int, n: nat): (w: int)
    requires n <= |tags|
    ensures -1 <= w < n && (w >= 0 ==> tags[w] == tag) && forall k :: w < k < n ==> tags[k] != tag
  {
    if n == 0 then -1 else if tags[n - 1] == tag then n - 1 else FindLast(tags, tag, n - 1)
  }

  /** The way a write miss takes: the last of the first `n` ways below the top state, or the first way. */
  function WriteVictim(lrus: seq<nat>, ustates: nat, n: nat): (w: nat)
    requires n <= |lrus|
    ensures w < n || w == 0
  {
    if n == 0 then 0 else if lrus[n - 1] < ustates - 1 then n - 1 else WriteVictim(lrus, ustates, n - 1)
  }

  /** A set after its way `w` was refilled, which fails if a word of the block is not mapped. */
  function Refilled(c: CacheSet, w: nat, tag: int, ustates: nat, mapped: bool): (r: CacheSet)
    requires w < |c.tags| == |c.lrus| && ustates > 0
    ensures |r.tags| == |r.lrus| == |c.tags|
  {
    if mapped then Replace(c, w, tag, ustates) else Emptied(c, w)
  }

  /** A set after an access; `write` picks the way the two kinds of miss differ in. */
  function Accessed(c: CacheSet, tag: int, ustates: nat, mapped: bool, write: bool): (r: CacheSet)
    requires 0 < |c.tags| == |c.lrus| && ustates > 0
    ensures |r.tags| == |r.lrus| == |c.tags|
  {
    var w := FindLast(c.tags, tag, |c.tags|);
    if w >= 0 then CacheSet(c.tags, Promote(c.lrus, w, ustates))
    else Refilled(c, MissWay(c, ustates, write), tag, ustates, mapped)
  }

  function MissWay(c: CacheSet, ustates: nat, write: bool): (w: nat)
    requires 0 < |c.tags| == |c.lrus| && ustates > 0
    ensures w < |c.tags|
  {
    VictimInRange(c.lrus, ustates);
    if write then WriteVictim(c.lrus, ustates, |c.lrus|) else Victim(c.lrus, ustates)
  }

  function Invalidated(c: CacheSet, tag: int, enabled: bool): (r: CacheSet)
    requires |c.tags| == |c.lrus|
    ensures |r.tags| == |r.lrus| == |c.tags|
  {
    if !enabled then Fresh(|c.tags|)
    else
      var w := FindLast(c.tags, tag, |c.tags|);
      if w >= 0 then Emptied(c, w) else c
  }

  function AccessedAt(sets: seq<CacheSet>, a: nat, bs: nat, nsets: nat, ustates: nat, mapped: bool,
    write: bool): (r: seq<CacheSet>)
    requires bs > 0 && nsets > 0 && |sets| == nsets && ustates > 0
    requires forall s :: 0 <= s < nsets ==> 0 < |sets[s].tags| == |sets[s].lrus|
    ensures |r| == nsets
  {
    var s := SetOf(a, bs, nsets);
    sets[s := Accessed(sets[s], TagOf(a, bs, nsets), ustates, mapped, write)]
  }

  function InvalidatedAt(sets: seq<CacheSet>, a: nat, bs: nat, nsets: nat, enabled: bool): (r: seq<CacheSet>)
    requires bs > 0 && nsets > 0 && |sets| == nsets && forall s :: 0 <= s < nsets ==> |sets[s].tags| == |sets[s].lrus|
    ensures |r| == nsets
  {
    var s := SetOf(a, bs, nsets);
    sets[s := Invalidated(sets[s], TagOf(a, bs, nsets), enabled)]
  }

  /** The ways below `n` are empty. */
  ghost predicate EmptiedTo(c: CacheSet, n: nat) {
    |c.tags| == |c.lrus| >= n && forall k :: 0 <= k < n ==> c.tags[k] == EMPTY && c.lrus[k] == 0
  }

  lemma EmptiedStep(c: CacheSet, n: nat)
    requires EmptiedTo(c, n) && n < |c.tags|
    ensures EmptiedTo(Emptied(c, n), n + 1)
  {
  }

  /** No two ways hold the same block. */
  ghost predicate Unique(tags: seq<int>) {
    forall i, j :: 0 <= i < j < |tags| && tags[i] != EMPTY ==> tags[i] != tags[j]
  }

  lemma AccessUnique(c: CacheSet, tag: int, ustates: nat, mapped: bool, write: bool)
    requires 0 < |c.tags| == |c.lrus| && ustates > 0 && Unique(c.tags)
    ensures Unique(Accessed(c, tag, ustates, mapped, write).tags)
  {
  }

  lemma InvalidateUnique(c: CacheSet, tag: int, enabled: bool)
    requires |c.tags| == |c.lrus| && Unique(c.tags) && tag != EMPTY
    ensures Unique(Invalidated(c, tag, enabled).tags) && tag !in Invalidated(c, tag, enabled).tags
  {
  }

  // ---- Coherence ----

  /** The words of a block. */
  ghost predicate Holds(tag: int, s: nat, line: seq<int>, bs: nat, nsets: nat, m: Memory) {
    tag >= 0 ==> forall i :: 0 <= i < |line| ==> LineWord(tag, s, i, line[i], bs, nsets, m)
  }

  ghost predicate LineWord(tag: nat, s: nat, i: nat, word: int, bs: nat, nsets: nat, m: Memory) {
    Base(tag, s, bs, nsets) + 4 * i in m && word == Word(m, Base(tag, s, bs, nsets) + 4 * i)
  }

  /** Valid tags of set `s` are unique and their lines equal memory. */
  ghost predicate SetAgrees(c: CacheSet, lines: seq<seq<int>>, s: nat, bs: nat, nsets: nat, m: Memory) {
    |c.tags| == |lines| && Unique(c.tags) && (forall w :: 0 <= w < |lines| ==> |lines[w]| == bs / 4) &&
    forall w :: 0 <= w < |lines| ==> c.tags[w] >= EMPTY && Holds(c.tags[w], s, lines[w], bs, nsets, m)
  }

  /** A hit returns what memory holds. */
  lemma HitWord(tag: nat, s: nat, line: seq<int>, a: nat, bs: nat, nsets: nat, m: Memory)
    requires BlockSize(bs) && nsets > 0 && |line| == bs / 4
    requires tag == TagOf(a, bs, nsets) && s == SetOf(a, bs, nsets) && Holds(tag, s, line, bs, nsets, m)
    ensures line[Index(a, bs)] == Word(m, Aligned(a)) && Aligned(a) in m && BlockMapped(m, a, bs)
  {
    hide TagOf, SetOf, Base, Index, Start, Aligned, Word;
    BaseOf(a, bs, nsets);
    IndexOf(a, bs);
    forall i | 0 <= i < bs / 4
      ensures Start(a, bs) + 4 * i in m && line[i] == Word(m, Start(a, bs) + 4 * i)
    {
      assert LineWord(tag, s, i, line[i], bs, nsets, m);
    }
  }

  lemma FilledHolds(s: nat, line: seq<int>, a: nat, bs: nat, nsets: nat, m: Memory)
    requires BlockSize(bs) && nsets > 0 && s == SetOf(a, bs, nsets) && |line| == bs / 4
    requires forall i :: 0 <= i < |line| ==> Start(a, bs) + 4 * i in m && line[i] == Word(m, Start(a, bs) + 4 * i)
    ensures Holds(TagOf(a, bs, nsets), s, line, bs, nsets, m)
  {
    hide TagOf, SetOf, Base, Start, Word;
    BaseOf(a, bs, nsets);
  }

  /** A write to memory leaves lines of other blocks as they are. */
  lemma HoldsAfterStore(tag: int, s: nat, line: seq<int>, bs: nat, nsets: nat, m: Memory, a: nat, data: nat, width: nat)
    requires BlockSize(bs) && s < nsets && |line| == bs / 4 && WholeWords(m) && WidthOk(a, width) &&
      data < 0x1_0000_0000
    requires Holds(tag, s, line, bs, nsets, m) && (tag != TagOf(a, bs, nsets) || s != SetOf(a, bs, nsets))
    ensures Holds(tag, s, line, bs, nsets, Store(m, a, data, width))
  {
    hide TagOf, SetOf, Base, Store, Word, WordIn, WidthOk, Start, Index, Aligned;
    StoreWhole(m, a, data, width);
    if tag >= 0 {
      forall i | 0 <= i < |line|
        ensures LineWord(tag, s, i, line[i], bs, nsets, Store(m, a, data, width))
      {
        assert LineWord(tag, s, i, line[i], bs, nsets, m);
        ElsewhereWord(tag, s, i, bs, nsets, a);
        var c := Base(tag, s, bs, nsets) + 4 * i;
        StoreElsewhere(m, a, data, width, c);
        assert c in Store(m, a, data, width).Keys;
      }
    }
  }

  /** A word of another block is not the word of `a`. */
  lemma ElsewhereWord(tag: nat, s: nat, i: nat, bs: nat, nsets: nat, a: nat)
    requires BlockSize(bs) && s < nsets && i < bs / 4 && (tag != TagOf(a, bs, nsets) || s != SetOf(a, bs, nsets))
    ensures (Base(tag, s, bs, nsets) + 4 * i) % 4 == 0 && Base(tag, s, bs, nsets) + 4 * i != Aligned(a)
  {
    hide TagOf, SetOf, Base, Index, Aligned, Start;
    Index4(a, bs);
    var c := Base(tag, s, bs, nsets) + 4 * i;
    InBlock(tag, s, 4 * i, bs, nsets);
    IndexOf(c, bs);
    IndexOf(a, bs);
    if c == Aligned(a) {
      BaseOf(a, bs, nsets);
      Index4(a, bs);
      InBlock(TagOf(a, bs, nsets), SetOf(a, bs, nsets), 4 * Index(a, bs), bs, nsets);
    }
  }

  /** A write hit keeps its line equal to memory. */
  lemma HoldsAfterHit(tag: nat, s: nat, line: seq<int>, a: nat, data: nat, width: nat, bs: nat, nsets: nat, m: Memory)
    requires BlockSize(bs) && nsets > 0 && |line| == bs / 4 && WholeWords(m) && WidthOk(a, width) &&
      data < 0x1_0000_0000
    requires tag == TagOf(a, bs, nsets) && s == SetOf(a, bs, nsets) && Holds(tag, s, line, bs, nsets, m) && a in m
    ensures var k := Index(a, bs);
      Holds(tag, s, line[k := Merge(line[k], a % 4, data, width)], bs, nsets, Store(m, a, data, width))
  {
    hide TagOf, SetOf, Base, Store, Word, WordIn, WidthOk, Start, Index, Aligned, Merge;
    var k := Index(a, bs);
    HitWord(tag, s, line, a, bs, nsets, m);
    MergeIsStore(m, a, data, width);
    StoreWhole(m, a, data, width);
    BaseOf(a, bs, nsets);
    IndexOf(a, bs);
    var line' := line[k := Merge(line[k], a % 4, data, width)];
    forall i | 0 <= i < |line|
      ensures LineWord(tag, s, i, line'[i], bs, nsets, Store(m, a, data, width))
    {
      assert LineWord(tag, s, i, line[i], bs, nsets, m);
      var c := Base(tag, s, bs, nsets) + 4 * i;
      assert c in Store(m, a, data, width).Keys;
      if i != k { StoreElsewhere(m, a, data, width, c); }
    }
  }

  /** Every set agrees with memory. */
  ghost predicate Agree(sets: seq<CacheSet>, lines: seq<seq<seq<int>>>, bs: nat, nsets: nat, m: Memory) {
    WholeWords(m) && |sets| == |lines| == nsets && forall s :: 0 <= s < nsets ==>
      SetAgrees(sets[s], lines[s], s, bs, nsets, m)
  }

  ghost predicate Gone(sets: seq<CacheSet>, a: nat, bs: nat, nsets: nat)
    requires bs > 0 && nsets > 0 && |sets| == nsets
  {
    TagOf(a, bs, nsets) !in sets[SetOf(a, bs, nsets)].tags
  }

  lemma AgreeWhole(sets: seq<CacheSet>, lines: seq<seq<seq<int>>>, bs: nat, nsets: nat, m: Memory)
    requires Agree(sets, lines, bs, nsets, m)
    ensures WholeWords(m)
  {
  }

  /** Memory may change where no line holds it. */
  lemma AgreeAfterStore(sets: seq<CacheSet>, lines: seq<seq<seq<int>>>, bs: nat, nsets: nat, m: Memory, a: nat,
    data: nat, width: nat)
    requires BlockSize(bs) && nsets > 0 && WidthOk(a, width) && data < 0x1_0000_0000
    requires Agree(sets, lines, bs, nsets, m) && Gone(sets, a, bs, nsets)
    ensures Agree(sets, lines, bs, nsets, Store(m, a, data, width))
  {
    hide TagOf, SetOf, Store, Holds, WholeWords, WidthOk, Unique;
    StoreWhole(m, a, data, width);
    forall s | 0 <= s < nsets
      ensures SetAgrees(sets[s], lines[s], s, bs, nsets, Store(m, a, data, width))
    {
      assert SetAgrees(sets[s], lines[s], s, bs, nsets, m);
      forall w | 0 <= w < |lines[s]|
        ensures Holds(sets[s].tags[w], s, lines[s][w], bs, nsets, Store(m, a, data, width))
      {
        HoldsAfterStore(sets[s].tags[w], s, lines[s][w], bs, nsets, m, a, data, width);
      }
    }
  }

  /** A write hit changes memory and the one line that holds it. */
  lemma AgreeAfterWriteHit(sets: seq<CacheSet>, lines: seq<seq<seq<int>>>, bs: nat, nsets: nat, m: Memory, a: nat,
    data: nat, width: nat,
                           w: nat, lrus: seq<nat>)
    requires BlockSize(bs) && nsets > 0 && WidthOk(a, width) && data < 0x1_0000_0000 && a in m
    requires Agree(sets, lines, bs, nsets, m)
    requires var s := SetOf(a, bs, nsets); w < |sets[s].tags| && sets[s].tags[w] == TagOf(a, bs, nsets)
    ensures var s, k := SetOf(a, bs, nsets), Index(a, bs);
      SetAgrees(sets[s], lines[s], s, bs, nsets, m) &&
      Agree(sets[s := CacheSet(sets[s].tags, lrus)],
            lines[s := lines[s][w := lines[s][w][k := Merge(lines[s][w][k], a % 4, data, width)]]], bs, nsets,
              Store(m, a, data, width))
  {
    hide TagOf, SetOf, Store, Holds, WholeWords, WidthOk, Merge;
    StoreWhole(m, a, data, width);
    var s, k := SetOf(a, bs, nsets), Index(a, bs);
    assert SetAgrees(sets[s], lines[s], s, bs, nsets, m);
    var line := lines[s][w][k := Merge(lines[s][w][k], a % 4, data, width)];
    HoldsAfterHit(TagOf(a, bs, nsets), s, lines[s][w], a, data, width, bs, nsets, m);
    var lines' := lines[s := lines[s][w := line]];
    forall s' | 0 <= s' < nsets
      ensures SetAgrees(sets[s'], lines'[s'], s', bs, nsets, Store(m, a, data, width))
    {
      assert SetAgrees(sets[s'], lines[s'], s', bs, nsets, m);
      forall v | 0 <= v < |lines[s']|
        ensures Holds(sets[s'].tags[v], s', lines'[s'][v], bs, nsets, Store(m, a, data, width))
      {
        if s' != s || v != w {
          HoldsAfterStore(sets[s'].tags[v], s', lines[s'][v], bs, nsets, m, a, data, width);
        }
      }
    }
  }

  /** A way that was refilled from memory, or emptied because that failed. */
  lemma AgreeAfterMiss(sets: seq<CacheSet>, lines: seq<seq<seq<int>>>, bs: nat, nsets: nat, m: Memory, s: nat, v: nat,
    tag: nat,
                       ustates: nat, mapped: bool, line: seq<int>)
    requires bs > 0 && Agree(sets, lines, bs, nsets, m) && s < nsets && ustates > 0 && |line| == bs / 4
    requires v < |sets[s].tags| == |sets[s].lrus| && tag !in sets[s].tags
    requires mapped ==> Holds(tag, s, line, bs, nsets, m)
    ensures Agree(sets[s := Refilled(sets[s], v, tag, ustates, mapped)], lines[s := lines[s][v := line]], bs, nsets, m)
  {
  }

  lemma AgreeAfterInvalidate(sets: seq<CacheSet>, lines: seq<seq<seq<int>>>, bs: nat, nsets: nat, m: Memory, s: nat,
    tag: nat, enabled: bool)
    requires bs > 0 && Agree(sets, lines, bs, nsets, m) && s < nsets && |sets[s].tags| == |sets[s].lrus|
    ensures Agree(sets[s := Invalidated(sets[s], tag, enabled)], lines, bs, nsets, m)
  {
  }

  const ONE_WORD: Memory := map[0 := 0, 1 := 0, 2 := 0, 3 := 1]

  lemma OneWholeWord()
    ensures WholeWords(ONE_WORD)
  {
    hide WordIn;
    assert WordIn(ONE_WORD, 0) by { FirstWordIn(); }
    forall a: nat {:trigger Aligned(a)} | a in ONE_WORD
      ensures WordIn(ONE_WORD, Aligned(a))
    {
      assert Aligned(a) == 0;
    }
  }

  lemma FirstWordIn()
    ensures WordIn(ONE_WORD, 0)
  {
  }

  lemma OneWordRead()
    ensures 0 in ONE_WORD && WidthOk(0, 4) && Direct(ONE_WORD, 0, 4) == 1
  {
    hide Aligned;
    assert ONE_WORD[3] == 1;
  }

  lemma OneWordBlock(bs: nat)
    requires BlockSize(bs)
    ensures !BlockMapped(ONE_WORD, 0, bs)
  {
    assert Start(0, bs) == 0;
    assert Start(0, bs) + 4 * 1 !in ONE_WORD;
  }

  /** One mapped word: it reads as 1, but its block is not wholly mapped. */
  lemma PartlyMapped(bs: nat)
    requires BlockSize(bs)
    ensures WholeWords(ONE_WORD) && Direct(ONE_WORD, 0, 4) == 1 && !BlockMapped(ONE_WORD, 0, bs)
  {
    hide WholeWords, Direct, BlockMapped;
    OneWholeWord();
    OneWordRead();
    OneWordBlock(bs);
  }

  /** The tags, counters and lines of a cache that has never been used. */
  function ZeroSets(nways: nat, nsets: nat): seq<CacheSet> {
    seq(nsets, _ => CacheSet(seq(nways, _ => 0), seq(nways, _ => 0)))
  }

  function ZeroLines(nways: nat, bs: nat, nsets: nat): seq<seq<seq<int>>> {
    seq(nsets, _ => seq(nways, _ => seq(bs / 4, _ => 0)))
  }

  /** The blocks with tag 0, which are the first of memory, are mapped and zero. */
  ghost predicate StartsZero(bs: nat, nsets: nat, m: Memory)
    requires bs > 0
  {
    forall s, i :: 0 <= s < nsets && 0 <= i < bs / 4 ==> LineWord(0, s, i, 0, bs, nsets, m)
  }

  /** Tag 0 is a valid tag, so the all-zero state that the cache starts in is coherent exactly when there is one way and
      memory starts with zeros. */
  lemma ZeroStateExact(nways: nat, bs: nat, nsets: nat, m: Memory)
    requires BlockSize(bs) && nsets > 0 && nways > 0 && WholeWords(m)
    ensures Agree(ZeroSets(nways, nsets), ZeroLines(nways, bs, nsets), bs, nsets, m) <==>
      nways == 1 && StartsZero(bs, nsets, m)
  {
    hide LineWord;
    var sets, lines := ZeroSets(nways, nsets), ZeroLines(nways, bs, nsets);
    assert nways > 1 ==> sets[0].tags[0] == sets[0].tags[1] == 0;
    if Agree(sets, lines, bs, nsets, m) {
      assert SetAgrees(sets[0], lines[0], 0, bs, nsets, m);
      forall s, i | 0 <= s < nsets && 0 <= i < bs / 4
        ensures LineWord(0, s, i, 0, bs, nsets, m)
      {
        assert SetAgrees(sets[s], lines[s], s, bs, nsets, m);
        assert Holds(sets[s].tags[0], s, lines[s][0], bs, nsets, m);
        assert lines[s][0][i] == 0;
      }
    }
  }

  /** A write that bypasses the cache keeps it coherent exactly when no line holds the block or the word stays the
      same. */
  lemma BypassedStore(sets: seq<CacheSet>, lines: seq<seq<seq<int>>>, bs: nat, nsets: nat, m: Memory, a: nat, data: nat,
    width: nat)
    requires BlockSize(bs) && nsets > 0 && WidthOk(a, width) && data < 0x1_0000_0000 && a in m &&
      Agree(sets, lines, bs, nsets, m)
    ensures Agree(sets, lines, bs, nsets, Store(m, a, data, width)) <==>
      Gone(sets, a, bs, nsets) || Word(Store(m, a, data, width), Aligned(a)) == Word(m, Aligned(a))
  {
    hide TagOf, SetOf, Store, WholeWords, WidthOk, Word, Aligned, Index, SetAgrees, Holds;
    var now := Store(m, a, data, width);
    var s := SetOf(a, bs, nsets);
    StoreWhole(m, a, data, width);
    if Gone(sets, a, bs, nsets) {
      AgreeAfterStore(sets, lines, bs, nsets, m, a, data, width);
    } else if Word(now, Aligned(a)) == Word(m, Aligned(a)) {
      forall s' | 0 <= s' < nsets
        ensures SetAgrees(sets[s'], lines[s'], s', bs, nsets, now)
      {
        SameWords(sets[s'], lines[s'], s', bs, nsets, m, a, data, width);
      }
    } else {
      HitSeen(sets, lines, bs, nsets, m, a);
      if Agree(sets, lines, bs, nsets, now) { HitSeen(sets, lines, bs, nsets, now, a); }
    }
  }

  /** Some line of the set of `a` shows the word that memory holds. */
  lemma HitSeen(sets: seq<CacheSet>, lines: seq<seq<seq<int>>>, bs: nat, nsets: nat, m: Memory, a: nat)
    requires BlockSize(bs) && nsets > 0 && Agree(sets, lines, bs, nsets, m) && !Gone(sets, a, bs, nsets)
    ensures
      var s, tags := SetOf(a, bs, nsets), sets[SetOf(a, bs, nsets)].tags;
      var w := FindLast(tags, TagOf(a, bs, nsets), |tags|);
      0 <= w < |lines[s]| && |lines[s][w]| == bs / 4 && lines[s][w][Index(a, bs)] == Word(m, Aligned(a))
  {
    hide TagOf, SetOf, WholeWords, Word, Aligned, Index, Holds, Unique;
    var s := SetOf(a, bs, nsets);
    var tags := sets[s].tags;
    var w := FindLast(tags, TagOf(a, bs, nsets), |tags|);
    assert SetAgrees(sets[s], lines[s], s, bs, nsets, m);
    HitWord(tags[w], s, lines[s][w], a, bs, nsets, m);
  }

  lemma SameWords(c: CacheSet, lines: seq<seq<int>>, s: nat, bs: nat, nsets: nat, m: Memory, a: nat, data: nat,
    width: nat)
    requires BlockSize(bs) && s < nsets && WholeWords(m) && WidthOk(a, width) && data < 0x1_0000_0000
    requires SetAgrees(c, lines, s, bs, nsets, m) && Word(Store(m, a, data, width), Aligned(a)) == Word(m, Aligned(a))
    ensures SetAgrees(c, lines, s, bs, nsets, Store(m, a, data, width))
  {
    hide Store, WholeWords, WidthOk, Word, Aligned, Base, Start, Index, Unique;
    var now := Store(m, a, data, width);
    StoreWhole(m, a, data, width);
    forall w, i | 0 <= w < |lines| && c.tags[w] >= 0 && 0 <= i < |lines[w]|
      ensures LineWord(c.tags[w], s, i, lines[w][i], bs, nsets, now)
    {
      assert Holds(c.tags[w], s, lines[w], bs, nsets, m);
      assert LineWord(c.tags[w], s, i, lines[w][i], bs, nsets, m);
      var b := Base(c.tags[w], s, bs, nsets) + 4 * i;
      InBlock(c.tags[w], s, 4 * i, bs, nsets);
      IndexOf(b, bs);
      assert b in now.Keys;
      if b != Aligned(a) { StoreElsewhere(m, a, data, width, b); }
    }
  }

  // ---- Bringing the cache up ----

  /** dc_inv of these addresses while the cache is disabled. */
  function InvalidateAll(sets: seq<CacheSet>, addrs: seq<nat>, bs: nat, nsets: nat): (r: seq<CacheSet>)
    requires bs > 0 && nsets > 0 && |sets| == nsets && forall s :: 0 <= s < nsets ==> |sets[s].tags| == |sets[s].lrus|
    ensures |r| == nsets && forall s :: 0 <= s < nsets ==> |r[s].tags| == |r[s].lrus| == |sets[s].tags|
  {
    if addrs == [] then sets
    else
      var before := InvalidateAll(sets, addrs[..|addrs| - 1], bs, nsets);
      var a := addrs[|addrs| - 1];
      InvalidatedAt(before, a, bs, nsets, false)
  }

  lemma {:induction false} InvalidatedSet(sets: seq<CacheSet>, addrs: seq<nat>, bs: nat, nsets: nat, i: nat)
    requires bs > 0 && nsets > 0 && |sets| == nsets && forall s :: 0 <= s < nsets ==> |sets[s].tags| == |sets[s].lrus|
    requires i < |addrs|
    ensures var s := SetOf(addrs[i], bs, nsets); InvalidateAll(sets, addrs, bs, nsets)[s] == Fresh(|sets[s].tags|)
  {
    hide SetOf, TagOf;
    if i < |addrs| - 1 { InvalidatedSet(sets, addrs[..|addrs| - 1], bs, nsets, i); }
  }

  ghost predicate Reached(addrs: seq<nat>, s: nat, bs: nat, nsets: nat)
    requires bs > 0 && nsets > 0
  {
    exists i :: 0 <= i < |addrs| && SetOf(addrs[i], bs, nsets) == s
  }

  /** Whatever the tags and lines were: once an address of every set has been invalidated the cache is coherent. */
  lemma InvalidatedAgrees(sets: seq<CacheSet>, lines: seq<seq<seq<int>>>, addrs: seq<nat>, bs: nat, nsets: nat,
    m: Memory)
    requires bs > 0 && nsets > 0 && |sets| == |lines| == nsets && WholeWords(m)
    requires forall s :: 0 <= s < nsets ==> |sets[s].tags| == |sets[s].lrus| == |lines[s]|
    requires forall s, w :: 0 <= s < nsets && 0 <= w < |lines[s]| ==> |lines[s][w]| == bs / 4
    requires forall s :: 0 <= s < nsets ==> Reached(addrs, s, bs, nsets)
    ensures Agree(InvalidateAll(sets, addrs, bs, nsets), lines, bs, nsets, m)
  {
    hide SetOf, TagOf, WholeWords, InvalidateAll;
    var now := InvalidateAll(sets, addrs, bs, nsets);
    forall s | 0 <= s < nsets
      ensures SetAgrees(now[s], lines[s], s, bs, nsets, m)
    {
      assert Reached(addrs, s, bs, nsets);
      var i :| 0 <= i < |addrs| && SetOf(addrs[i], bs, nsets) == s;
      InvalidatedSet(sets, addrs, bs, nsets, i);
    }
  }

  lemma AlignedIn(m: Memory, a: nat)
    requires WholeWords(m)
    ensures a in m <==> Aligned(a) in m
  {
    hide WordIn;
    Lane(a, 1);
    if Aligned(a) in m {
      Realigned(a);
      assert WordIn(m, Aligned(Aligned(a)));
      Bytes(m, Aligned(a), a % 4);
    }
    if a in m { assert WordIn(m, Aligned(a)); Bytes(m, Aligned(a), 0); }
  }

  lemma Realigned(a: nat)
    ensures Aligned(Aligned(a)) == Aligned(a)
  {
  }

  lemma Bytes(m: Memory, b: nat, r: nat)
    requires WordIn(m, b) && r < 4
    ensures b + r in m
  {
  }

  // ---- What is kept ----

  /** Invalidating an address with the cache on takes away nothing but its block. */
  lemma InvalidateKeeps(c: CacheSet, tag: int, w: nat)
    requires w < |c.tags| == |c.lrus| && c.tags[w] != tag
    ensures Invalidated(c, tag, true).tags[w] == c.tags[w] && Invalidated(c, tag, true).lrus[w] == c.lrus[w]
  {
  }

  /** A set that is only read. */
  function ReadAll(c: CacheSet, history: seq<int>, ustates: nat): (r: CacheSet)
    requires 0 < |c.tags| == |c.lrus| && ustates > 0
    ensures |r.tags| == |r.lrus| == |c.tags|
  {
    if history == [] then c
    else Accessed(ReadAll(c, history[..|history| - 1], ustates), history[|history| - 1], ustates, true, false)
  }

  lemma ReadIsFetch(c: CacheSet, tag: int, ustates: nat)
    requires 0 < |c.tags| == |c.lrus| && ustates > 0 && Unique(c.tags) && tag != EMPTY
    ensures Accessed(c, tag, ustates, true, false) == Fetch(c, tag, ustates)
    ensures FindLast(c.tags, tag, |c.tags|) >= 0 <==> Hits(c, tag)
  {
    hide Promote, Replace, Victim;
    var w, v := FindLast(c.tags, tag, |c.tags|), Find(c.tags, tag, 0);
    if w >= 0 {
      assert v < |c.tags|;
      OnePlace(c.tags, v, w);
    }
  }

  lemma OnePlace(tags: seq<int>, i: nat, j: nat)
    requires i < |tags| && j < |tags| && Unique(tags) && tags[i] == tags[j] != EMPTY
    ensures i == j
  {
  }

  /** Reads alone use the ways of an empty set in exact order of last use, as long as there are enough usage states. */
  lemma {:induction false} ReadLruExact(history: seq<int>, tag: int, nways: nat, ustates: nat)
    requires 0 < nways <= ustates && 2 <= ustates && EMPTY !in history && tag != EMPTY
    ensures
      var c := ReadAll(Fresh(nways), history, ustates);
      var recent := Recency(history);
      c == FetchAll(Fresh(nways), history, ustates) && Unique(c.tags) &&
      (FindLast(c.tags, tag, nways) >= 0 <==> tag in recent[..Min(|recent|, nways)])
  {
    ReadsFetch(history, nways, ustates);
    ReadIsFetch(ReadAll(Fresh(nways), history, ustates), tag, ustates);
    LruExact(history, tag, nways, ustates);
  }

  lemma {:induction false} ReadsFetch(history: seq<int>, nways: nat, ustates: nat)
    requires 0 < nways && ustates > 0 && EMPTY !in history
    ensures ReadAll(Fresh(nways), history, ustates) == FetchAll(Fresh(nways), history, ustates)
    ensures Unique(ReadAll(Fresh(nways), history, ustates).tags)
  {
    hide Accessed, Fetch;
    if history != [] {
      var before, last := history[..|history| - 1], history[|history| - 1];
      ReadsFetch(before, nways, ustates);
      var c := ReadAll(Fresh(nways), before, ustates);
      ReadIsFetch(c, last, ustates);
      AccessUnique(c, last, ustates, true, false);
    }
  }
}
