/** The instruction cache: flat arrays of tags, usage counters and words, addressed with the
    masks that are computed once from the configuration. */
module Icache {
  import opened IcacheLru

  // ---- Masks and shifts ----

  function Pow2(n: nat): (r: nat)
    ensures r > 0
  {
    if n == 0 then 1 else 2 * Pow2(n - 1)
  }

  /** `<<` and `>>`. */
  function Shl(a: nat, k: nat): nat { if k == 0 then a else 2 * Shl(a, k - 1) }

  function Shr(a: nat, k: nat): nat { if k == 0 then a else Shr(a / 2, k - 1) }

  /** `&` on unsigned numbers. */
  function And(a: nat, b: nat): nat
    decreases a + b
  {
    if a == 0 || b == 0 then 0 else 2 * And(a / 2, b / 2) + if a % 2 == 1 && b % 2 == 1 then 1 else 0
  }

  /** `|` on unsigned numbers. */
  function Or(a: nat, b: nat): nat
    decreases a + b
  {
    if a == 0 then b else if b == 0 then a
    else 2 * Or(a / 2, b / 2) + if a % 2 == 1 || b % 2 == 1 then 1 else 0
  }

  /** The low `k` bits. */
  function Low(a: nat, k: nat): (r: nat)
    ensures r < Pow2(k)
  {
    if k == 0 then 0 else 2 * Low(a / 2, k - 1) + a % 2
  }

  lemma {:induction false} LowMask(a: nat, k: nat)
    ensures And(a, Pow2(k) - 1) == Low(a, k)
    decreases k
  {
    if k > 0 {
      LowMask(a / 2, k - 1);
      if a == 0 { LowZero(k); }
    }
  }

  lemma {:induction false} LowZero(k: nat)
    ensures Low(0, k) == 0
  {
    if k > 0 { LowZero(k - 1); }
  }

  lemma {:induction false} HighMask(a: nat, m: nat, k: nat)
    ensures And(a, Shl(m, k)) == Shl(And(Shr(a, k), m), k)
    decreases k
  {
    if k > 0 {
      HighMask(a / 2, m, k - 1);
      if a == 0 { ShrZero(k); ShlZero(k); }
      if Shl(m, k) == 0 { ShlPositive(m, k); ShlZero(k); }
    }
  }

  lemma {:induction false} ShrZero(k: nat)
    ensures Shr(0, k) == 0
  {
    if k > 0 { ShrZero(k - 1); }
  }

  lemma {:induction false} ShlZero(k: nat)
    ensures Shl(0, k) == 0
  {
    if k > 0 { ShlZero(k - 1); }
  }

  lemma {:induction false} ShlPositive(m: nat, k: nat)
    ensures m > 0 ==> Shl(m, k) > 0
  {
    if k > 0 { ShlPositive(m, k - 1); }
  }

  /** A number is its high part and its low part. */
  lemma {:induction false} Parts(a: nat, k: nat)
    ensures a == Shl(Shr(a, k), k) + Low(a, k) && Low(a, k) < Pow2(k)
    decreases k
  {
    if k > 0 { Parts(a / 2, k - 1); }
  }

  lemma {:induction false} ShrShl(a: nat, k: nat)
    ensures Shr(Shl(a, k), k) == a
    decreases k
  {
    if k > 0 { ShrShl(a, k - 1); }
  }

  lemma {:induction false} ShrAgain(a: nat, j: nat, k: nat)
    ensures Shr(Shr(a, j), k) == Shr(a, j + k)
    decreases j
  {
    if j > 0 { ShrAgain(a / 2, j - 1, k); }
  }

  lemma {:induction false} ShlAgain(a: nat, j: nat, k: nat)
    ensures Shl(Shl(a, j), k) == Shl(a, j + k)
    decreases k
  {
    if k > 0 { ShlAgain(a, j, k - 1); }
  }

  lemma {:induction false} ShlAdd(a: nat, b: nat, k: nat)
    ensures Shl(a + b, k) == Shl(a, k) + Shl(b, k)
  {
    if k > 0 { ShlAdd(a, b, k - 1); }
  }

  /** Masking off everything of `a` but its low `n` bits and then the lowest `k` changes nothing but those. */
  lemma ClearLow(a: nat, k: nat, n: nat)
    requires k <= n && a < Pow2(n)
    ensures And(a, Shl(Pow2(n - k) - 1, k)) == Shl(Shr(a, k), k)
  {
    HighMask(a, Pow2(n - k) - 1, k);
    LowMask(Shr(a, k), n - k);
    LowWhole(a, k, n);
  }

  lemma {:induction false} LowWhole(a: nat, k: nat, n: nat)
    requires k <= n && a < Pow2(n)
    ensures Low(Shr(a, k), n - k) == Shr(a, k)
    decreases n
  {
    if k > 0 {
      LowWhole(a / 2, k - 1, n - 1);
    } else if n > 0 {
      LowWhole(a / 2, 0, n - 1);
    }
  }

  /** Or-ing into cleared bits adds. */
  lemma {:induction false} OrLow(a: nat, y: nat, k: nat)
    requires y < Pow2(k)
    ensures Or(Shl(a, k), y) == Shl(a, k) + y
    decreases k
  {
    if k > 0 { OrLow(a, y / 2, k - 1); }
  }

  const ADDRESS_BITS := 32

  /** What an address is split into, for `s` bits of set number and `b` bits of offset. */
  function SetOf(addr: nat, s: nat, b: nat): (r: nat)
    ensures r < Pow2(s)
  {
    Low(Shr(addr, b), s)
  }

  function TagOf(addr: nat, s: nat, b: nat): nat { Shl(Shr(addr, s + b), s + b) }

  function OffsetOf(addr: nat, b: nat): nat { Low(addr, b) }

  /** Tag and set together give back the block. */
  lemma BlockFromTag(addr: nat, s: nat, b: nat)
    ensures TagOf(addr, s, b) + Shl(SetOf(addr, s, b), b) == Shl(Shr(addr, b), b)
    ensures SetOf(addr, s, b) < Pow2(s)
  {
    var n := Shr(addr, b);
    Parts(n, s);
    ShrAgain(addr, b, s);
    ShlAdd(Shl(Shr(n, s), s), Low(n, s), b);
    ShlAgain(Shr(n, s), s, b);
  }

  /** The masks of ic_end_sec pick out set, tag, offset and block. */
  lemma MasksSplit(addr: nat, s: nat, b: nat)
    requires addr < Pow2(ADDRESS_BITS) && s + b <= ADDRESS_BITS
    ensures Shr(And(addr, Shl(Pow2(s) - 1, b)), b) == SetOf(addr, s, b)
    ensures And(addr, Shl(Pow2(ADDRESS_BITS - (s + b)) - 1, s + b)) == TagOf(addr, s, b)
    ensures And(addr, Pow2(b) - 1) == OffsetOf(addr, b)
    ensures And(addr, Shl(Pow2(ADDRESS_BITS - b) - 1, b)) == Shl(Shr(addr, b), b)
  {
    hide And, Shl, Shr, Low;
    HighMask(addr, Pow2(s) - 1, b);
    LowMask(Shr(addr, b), s);
    ShrShl(Low(Shr(addr, b), s), b);
    ClearLow(addr, s + b, ADDRESS_BITS);
    LowMask(addr, b);
    ClearLow(addr, b, ADDRESS_BITS);
  }

  // ---- Ways ----

  /** The ways of a set lie `nsets` apart. */
  function Way(row: nat, j: nat, nsets: nat): nat { if j == 0 then row else Way(row, j - 1, nsets) + nsets }

  /** The number of ways in the whole cache. */
  function LastWay(nways: nat, nsets: nat): nat { Way(0, nways, nsets) }

  lemma {:induction false} WayRange(row: nat, j: nat, nways: nat, nsets: nat)
    requires row < nsets
    ensures Way(row, 0, nsets) == row && (Way(row, j, nsets) < LastWay(nways, nsets) <==> j < nways)
    ensures j >= nways ==> Way(row, j, nsets) >= LastWay(nways, nsets)
    decreases nways
  {
    if nways == 0 {
      WayAtLeast(row, j, nsets);
    } else if j > 0 {
      WayRange(row, j - 1, nways - 1, nsets);
    } else {
      WayAtLeast(0, nways - 1, nsets);
    }
  }

  lemma {:induction false} WayAtLeast(row: nat, j: nat, nsets: nat)
    ensures Way(row, j, nsets) >= row
  {
    if j > 0 { WayAtLeast(row, j - 1, nsets); }
  }

  lemma {:induction false} WayDistinct(s: nat, j: nat, s': nat, j': nat, nsets: nat)
    requires s < nsets && s' < nsets && Way(s, j, nsets) == Way(s', j', nsets)
    ensures s == s' && j == j'
  {
    if j > 0 && j' > 0 {
      WayDistinct(s, j - 1, s', j' - 1, nsets);
    }
  }

  // ---- Memory ----

  /** Mapped words of main memory by their 4-aligned address. */
  type Memory = map<nat, int>

  function ReadWord(main: Memory, addr: nat): int { if addr in main then main[addr] else 0 }

  /** The address of word `i` of the block of `addr`. */
  function WordAddress(addr: nat, b: nat, i: nat): nat { Shl(Shr(addr, b), b) + 4 * i }

  predicate BlockMapped(main: Memory, addr: nat, b: nat) {
    forall i :: 0 <= i < WordsPerBlock(b) ==> WordAddress(addr, b, i) in main
  }

  function WordsPerBlock(b: nat): nat { Pow2(b) / 4 }

  /** One mapped word: it reads as 1, but its block is not wholly mapped. */
  lemma PartlyMapped()
    ensures var main: Memory := map[0 := 1]; ReadWord(main, 0) == 1 && !BlockMapped(main, 0, 4)
  {
    var main: Memory := map[0 := 1];
    assert WordsPerBlock(4) == 4;
    assert Shr(0, 4) == 0 && Shl(0, 4) == 0;
    assert WordAddress(0, 4, 1) !in main;
  }

  lemma BlockWords(b: nat)
    requires b >= 2
    ensures Pow2(b) == 4 * WordsPerBlock(b) && WordsPerBlock(b) > 0
  {
    hide Shl, Shr, And, Or, Low;
    var quarter := Pow2(b - 2);
    assert Pow2(b - 1) == 2 * quarter && Pow2(b) == 2 * Pow2(b - 1);
    assert 4 * quarter / 4 == quarter;
  }

  lemma ShlFour(a: nat, k: nat)
    requires k >= 2
    ensures Shl(a, k) == 4 * Shl(a, k - 2)
  {
  }

  /** An aligned address is a word of its block. */
  lemma AddressInBlock(addr: nat, b: nat)
    requires b >= 2 && addr % 4 == 0
    ensures OffsetOf(addr, b) % 4 == 0 && OffsetOf(addr, b) / 4 < WordsPerBlock(b)
    ensures WordAddress(addr, b, OffsetOf(addr, b) / 4) == addr
  {
    hide Low, Shr, Shl, Pow2, WordsPerBlock;
    Parts(addr, b);
    BlockWords(b);
    ShlFour(Shr(addr, b), b);
  }

  /** The refill starts at the requested word and wraps around at the end of the block. */
  lemma {:induction false} LowOnce(a: nat, b: nat)
    requires a < 2 * Pow2(b)
    ensures Low(a, b) == if a < Pow2(b) then a else a - Pow2(b)
    decreases b
  {
    if b > 0 { LowOnce(a / 2, b - 1); }
  }

  /** `line` holds what memory holds at the block with this tag and set. */
  ghost predicate Holds(tag: int, s: nat, b: nat, line: seq<int>, main: Memory) {
    tag >= 0 ==> forall i :: 0 <= i < |line| ==> Word(tag, s, b, i) in main && line[i] == main[Word(tag, s, b, i)]
  }

  function Word(tag: nat, s: nat, b: nat, i: nat): nat { tag + Shl(s, b) + 4 * i }

  /** A tag is empty or has nothing set below the set number. */
  predicate Proper(tag: int, sb: nat, b: nat) { tag == EMPTY || (tag >= 0 && TagOf(tag, sb, b) == tag) }

  /** The lines of all sets agree with memory. */
  ghost predicate Agree(sets: seq<CacheSet>, lines: seq<seq<seq<int>>>, sb: nat, b: nat, main: Memory)
    requires |sets| == |lines| && forall s :: 0 <= s < |sets| ==> |sets[s].tags| == |lines[s]|
  {
    forall s, j :: 0 <= s < |sets| && 0 <= j < |sets[s].tags| ==>
      Holds(sets[s].tags[j], s, b, lines[s][j], main) && Proper(sets[s].tags[j], sb, b)
  }

  function Down(lrus: seq<nat>): (r: seq<nat>)
    ensures |r| == |lrus|
  {
    seq(|lrus|, j requires 0 <= j < |lrus| => if lrus[j] > 0 then lrus[j] - 1 else 0)
  }

  /** A set after a miss that evicts `way`: a block that cannot be read whole ages the others but is not kept. */
  function Missed(c: CacheSet, way: nat, tag: int, ustates: nat, mapped: bool): (r: CacheSet)
    requires way < |c.tags| == |c.lrus| && ustates > 0
    ensures |r.tags| == |r.lrus| == |c.tags|
  {
    var r := Replace(c, way, tag, ustates);
    if mapped then r else Emptied(r, way)
  }

  /** A set after a fetch. */
  function Fetched(c: CacheSet, tag: int, ustates: nat, mapped: bool): (r: CacheSet)
    requires 0 < |c.tags| == |c.lrus| && ustates > 0
    ensures |r.tags| == |r.lrus| == |c.tags|
    ensures mapped || Hits(c, tag) ==> r == Fetch(c, tag, ustates)
  {
    var w := Find(c.tags, tag, 0);
    if w < |c.tags| then CacheSet(c.tags, Promote(c.lrus, w, ustates))
    else
      VictimInRange(c.lrus, ustates);
      Missed(c, Victim(c.lrus, ustates), tag, ustates, mapped)
  }

  /** A fetch whose block is not wholly mapped costs the set its victim and nothing else. */
  lemma FailedFetch(c: CacheSet, tag: int, ustates: nat, k: nat)
    requires 0 < |c.tags| == |c.lrus| && ustates > 0 && !Hits(c, tag) && k < |c.tags|
    ensures var r, v := Fetched(c, tag, ustates, false), Victim(c.lrus, ustates);
      if k == v then r.tags[k] == EMPTY && r.lrus[k] == 0
      else r.tags[k] == c.tags[k] && r.lrus[k] == if c.lrus[k] > 0 then c.lrus[k] - 1 else 0
  {
    VictimInRange(c.lrus, ustates);
  }

  /** Counters do not matter to the contents. */
  lemma AgreeAfterHit(was: seq<CacheSet>, now: seq<CacheSet>, s: nat, lines: seq<seq<seq<int>>>, sb: nat, b: nat,
    main: Memory)
    requires |was| == |lines| && (forall s :: 0 <= s < |was| ==> |was[s].tags| == |lines[s]|)
    requires s < |was| == |now| && now == was[s := CacheSet(was[s].tags, now[s].lrus)]
    ensures Agree(was, lines, sb, b, main) ==> Agree(now, lines, sb, b, main)
  {
  }

  /** A refilled or an emptied way agrees with memory, and no other way has changed. */
  lemma AgreeAfterMiss(sets: seq<CacheSet>, lines: seq<seq<seq<int>>>, s: nat, v: nat, tag: int, ustates: nat,
    mapped: bool,
                       line: seq<int>, sb: nat, b: nat, main: Memory)
    requires |sets| == |lines| && (forall s :: 0 <= s < |sets| ==> |sets[s].tags| == |lines[s]|)
    requires s < |sets| && v < |sets[s].tags| == |sets[s].lrus| && ustates > 0
    requires mapped ==> Holds(tag, s, b, line, main) && Proper(tag, sb, b)
    ensures Agree(sets, lines, sb, b, main) ==>
      Agree(sets[s := Missed(sets[s], v, tag, ustates, mapped)], lines[s := lines[s][v := line]], sb, b, main)
  {
  }

  lemma TagProper(addr: nat, sb: nat, b: nat)
    ensures Proper(TagOf(addr, sb, b), sb, b)
  {
    ShrShl(Shr(addr, sb + b), sb + b);
  }

  /** A word of a line is in the block with the line's tag and set, and in no other. */
  lemma WordsBlock(tag: nat, s: nat, sb: nat, b: nat, i: nat)
    requires Proper(tag, sb, b) && s < Pow2(sb) && b >= 2 && i < WordsPerBlock(b)
    ensures TagOf(Word(tag, s, b, i), sb, b) == tag && SetOf(Word(tag, s, b, i), sb, b) == s
  {
    hide Shl, Shr, Low, Pow2, WordsPerBlock;
    var x := Shr(tag, sb + b);
    var block := Shl(x, sb) + s;
    BlockWords(b);
    ShlAgain(x, sb, b);
    ShlAdd(Shl(x, sb), s, b);
    Unshift(block, 4 * i, b);
    Unshift(x, s, sb);
    ShrAgain(Word(tag, s, b, i), b, sb);
    assert sb + b == b + sb;
  }

  lemma {:induction false} Unshift(x: nat, low: nat, k: nat)
    requires low < Pow2(k)
    ensures Shr(Shl(x, k) + low, k) == x && Low(Shl(x, k) + low, k) == low
    decreases k
  {
    if k > 0 {
      assert (Shl(x, k) + low) / 2 == Shl(x, k - 1) + low / 2;
      Unshift(x, low / 2, k - 1);
    }
  }

  /** Once the set has no way with the block's tag, memory in the block may change. */
  lemma AgreeAfterWrite(sets: seq<CacheSet>, lines: seq<seq<seq<int>>>, sb: nat, b: nat, main: Memory, addr: nat,
    value: int)
    requires |sets| == |lines| <= Pow2(sb) && b >= 2 && (forall s :: 0 <= s < |sets| ==> |sets[s].tags| == |lines[s]|)
    requires forall s, j :: 0 <= s < |sets| && 0 <= j < |sets[s].tags| ==> |lines[s][j]| == WordsPerBlock(b)
    requires Agree(sets, lines, sb, b, main) && SetOf(addr, sb, b) < |sets|
    requires TagOf(addr, sb, b) !in sets[SetOf(addr, sb, b)].tags
    ensures Agree(sets, lines, sb, b, main[addr := value])
  {
    hide TagOf, SetOf, Shl;
    forall s, j | 0 <= s < |sets| && 0 <= j < |sets[s].tags|
      ensures Holds(sets[s].tags[j], s, b, lines[s][j], main[addr := value])
    {
      var tag := sets[s].tags[j];
      assert Holds(tag, s, b, lines[s][j], main) && Proper(tag, sb, b);
      if tag >= 0 {
        forall i | 0 <= i < WordsPerBlock(b)
          ensures Word(tag, s, b, i) in main && Word(tag, s, b, i) != addr
        {
          WordsBlock(tag, s, sb, b, i);
        }
      }
    }
  }

  /** Invalidation empties some ways, among them every way with the tag. */
  lemma AgreeAfterInvalidate(sets: seq<CacheSet>, lines: seq<seq<seq<int>>>, s: nat, tag: int, enabled: bool, sb: nat,
    b: nat, main: Memory)
    requires |sets| == |lines| && (forall s :: 0 <= s < |sets| ==>
      |sets[s].tags| == |lines[s]| &&
      |sets[s].lrus| == |sets[s].tags|)
    requires s < |sets| && tag != EMPTY
    ensures tag !in InvalidatedAt(sets, s, tag, enabled)[s].tags
    ensures Agree(sets, lines, sb, b, main) ==> Agree(InvalidatedAt(sets, s, tag, enabled), lines, sb, b, main)
  {
  }

  /** All sets after a fetch in set `s`. */
  function FetchedAt(sets: seq<CacheSet>, s: nat, tag: int, ustates: nat, mapped: bool): (r: seq<CacheSet>)
    requires s < |sets| && 0 < |sets[s].tags| == |sets[s].lrus| && ustates > 0
    ensures |r| == |sets|
  {
    sets[s := Fetched(sets[s], tag, ustates, mapped)]
  }

  /** A set after invalidation: the ways with this tag, or with the cache disabled all ways, are empty. */
  function Invalidated(c: CacheSet, tag: int, enabled: bool): (r: CacheSet)
    requires |c.tags| == |c.lrus|
    ensures |r.tags| == |r.lrus| == |c.tags|
  {
    CacheSet(seq(|c.tags|, k requires 0 <= k < |c.tags| => if !enabled || c.tags[k] == tag then EMPTY else c.tags[k]),
             seq(|c.tags|, k requires 0 <= k < |c.tags| => if !enabled || c.tags[k] == tag then 0 else c.lrus[k]))
  }

  function InvalidatedAt(sets: seq<CacheSet>, s: nat, tag: int, enabled: bool): (r: seq<CacheSet>)
    requires s < |sets| && |sets[s].tags| == |sets[s].lrus|
    ensures |r| == |sets|
  {
    sets[s := Invalidated(sets[s], tag, enabled)]
  }

  /** Invalidating an address with the cache on takes away nothing but its block. */
  lemma InvalidateKeeps(c: CacheSet, tag: int, k: nat)
    requires k < |c.tags| == |c.lrus|
    ensures var r := Invalidated(c, tag, true);
      if c.tags[k] != tag then r.tags[k] == c.tags[k] && r.lrus[k] == c.lrus[k]
      else r.tags[k] == EMPTY && r.lrus[k] == 0
  {
  }

  /** The ways below `n` have been invalidated. */
  ghost predicate Invalidating(now: CacheSet, n: nat, tag: int, enabled: bool, was: CacheSet)
    requires |was.tags| == |was.lrus|
  {
    |now.tags| == |now.lrus| == |was.tags| && forall k :: 0 <= k < |was.tags| ==>
      var r := if k < n then Invalidated(was, tag, enabled) else was;
      now.tags[k] == r.tags[k] && now.lrus[k] == r.lrus[k]
  }

  lemma InvalidatingStarts(was: CacheSet, tag: int, enabled: bool)
    requires |was.tags| == |was.lrus|
    ensures Invalidating(was, 0, tag, enabled, was)
  {
  }

  lemma InvalidatingStep(now: CacheSet, n: nat, tag: int, enabled: bool, was: CacheSet)
    requires |was.tags| == |was.lrus| && n < |was.tags| && Invalidating(now, n, tag, enabled, was)
    ensures |now.tags| == |now.lrus| == |was.tags|
    ensures !enabled || now.tags[n] == tag ==> Invalidating(Emptied(now, n), n + 1, tag, enabled, was)
    ensures enabled && now.tags[n] != tag ==> Invalidating(now, n + 1, tag, enabled, was)
  {
  }

  lemma InvalidatingEnds(now: CacheSet, tag: int, enabled: bool, was: CacheSet)
    requires |was.tags| == |was.lrus| && Invalidating(now, |was.tags|, tag, enabled, was)
    ensures now == Invalidated(was, tag, enabled)
  {
  }

  // ---- Runs ----

  /** The sets after fetches of these addresses, all in mapped blocks. */
  function FetchRun(sets: seq<CacheSet>, addrs: seq<nat>, sb: nat, b: nat, ustates: nat): (r: seq<CacheSet>)
    requires |sets| == Pow2(sb) && ustates > 0 && forall s :: 0 <= s < |sets| ==> 0 < |sets[s].tags| == |sets[s].lrus|
    ensures |r| == |sets| && forall s :: 0 <= s < |sets| ==> |r[s].tags| == |r[s].lrus| == |sets[s].tags|
  {
    if addrs == [] then sets
    else
      var before := FetchRun(sets, addrs[..|addrs| - 1], sb, b, ustates);
      var a := addrs[|addrs| - 1];
      FetchedAt(before, SetOf(a, sb, b), TagOf(a, sb, b), ustates, true)
  }

  /** The tags that addresses of set `s` brought in. */
  function TagsFor(addrs: seq<nat>, s: nat, sb: nat, b: nat): (r: seq<int>)
    ensures EMPTY !in r
  {
    if addrs == [] then []
    else
      var a := addrs[|addrs| - 1];
      var before := TagsFor(addrs[..|addrs| - 1], s, sb, b);
      if SetOf(a, sb, b) == s then before + [TagOf(a, sb, b)] else before
  }

  /** Every set sees its own fetches only. */
  lemma {:induction false} RunPerSet(nways: nat, addrs: seq<nat>, s: nat, sb: nat, b: nat, ustates: nat)
    requires s < Pow2(sb) && 0 < nways && ustates > 0
    ensures FetchRun(seq(Pow2(sb), _ => Fresh(nways)), addrs, sb, b, ustates)[s] ==
      FetchAll(Fresh(nways), TagsFor(addrs, s, sb, b), ustates)
  {
    hide SetOf, TagOf, Fetch, Missed, Fetched;
    if addrs != [] {
      var a := addrs[|addrs| - 1];
      var h := TagsFor(addrs[..|addrs| - 1], s, sb, b);
      RunPerSet(nways, addrs[..|addrs| - 1], s, sb, b, ustates);
      assert SetOf(a, sb, b) == s ==> (h + [TagOf(a, sb, b)])[..|h|] == h;
    }
  }

  /** From reset and with no more ways than usage states, any run of fetches leaves exactly the `nways` most recently
      fetched blocks of every set in the cache. */
  lemma CacheLruExact(nways: nat, addrs: seq<nat>, addr: nat, sb: nat, b: nat, ustates: nat)
    requires 0 < nways <= ustates && 2 <= ustates
    ensures
      var s, tag := SetOf(addr, sb, b), TagOf(addr, sb, b);
      var c := FetchRun(seq(Pow2(sb), _ => Fresh(nways)), addrs, sb, b, ustates)[s];
      var recent := Recency(TagsFor(addrs, s, sb, b));
      Hits(c, tag) <==> tag in recent[..Min(|recent|, nways)]
  {
    hide Shl, Shr, Low, FetchRun, FetchAll, TagsFor, Recency;
    var s := SetOf(addr, sb, b);
    RunPerSet(nways, addrs, s, sb, b, ustates);
    LruExact(TagsFor(addrs, s, sb, b), TagOf(addr, sb, b), nways, ustates);
  }

  class InsnCache {
    const setBits: nat
    const blockBits: nat
    const nways: nat
    const ustates: nat
    const nsets: nat
    const setMask: nat
    const tagaddrMask: nat
    const blockOffsetMask: nat
    const blockMask: nat
    const lastWay: nat
    const ustatesReload: nat
    const tags: array<int>
    const lrus: array<nat>
    const lines: array2<int>
    /** Is the cache present (UPR[ICP]) and is it enabled (SR[ICE])? */
    const present: bool
    var enabled: bool

    predicate Configured() {
      nsets == Pow2(setBits) && 2 <= blockBits && setBits + blockBits <= ADDRESS_BITS && 0 < nways && 2 <= ustates &&
      setMask == Shl(nsets - 1, blockBits) &&
      tagaddrMask == Shl(Pow2(ADDRESS_BITS - (setBits + blockBits)) - 1, setBits + blockBits) &&
      blockOffsetMask == Pow2(blockBits) - 1 &&
      blockMask == Shl(Pow2(ADDRESS_BITS - blockBits) - 1, blockBits) &&
      lastWay == LastWay(nways, nsets) && ustatesReload == ustates - 1 &&
      tags.Length == lrus.Length == lines.Length0 == lastWay && lines.Length1 == WordsPerBlock(blockBits)
    }

    lemma WayInRange(s: nat, j: nat)
      requires Configured() && s < nsets && j < nways
      ensures Way(s, j, nsets) < lastWay == tags.Length == lrus.Length == lines.Length0 &&
        lines.Length1 == WordsPerBlock(blockBits)
    {
      WayRange(s, j, nways, nsets);
    }

    ghost function TagAt(s: nat, j: nat): int
      requires Configured() && s < nsets && j < nways
      reads tags
    {
      WayInRange(s, j);
      tags[Way(s, j, nsets)]
    }

    ghost function LruAt(s: nat, j: nat): nat
      requires Configured() && s < nsets && j < nways
      reads lrus
    {
      WayInRange(s, j);
      lrus[Way(s, j, nsets)]
    }

    /** One set as `IcacheLru` sees it. */
    ghost function View(s: nat): (c: CacheSet)
      requires Configured() && s < nsets
      reads tags, lrus
      ensures |c.tags| == |c.lrus| == nways
    {
      CacheSet(seq(nways, j requires 0 <= j < nways reads tags => TagAt(s, j)),
               seq(nways, j requires 0 <= j < nways reads lrus => LruAt(s, j)))
    }

    ghost function LineAt(s: nat, j: nat): (line: seq<int>)
      requires Configured() && s < nsets && j < nways
      reads lines
      ensures |line| == WordsPerBlock(blockBits)
    {
      WayInRange(s, j);
      seq(WordsPerBlock(blockBits), i requires 0 <= i < WordsPerBlock(blockBits) reads lines => lines[Way(s, j, nsets),
        i])
    }

    /** All sets, and the lines of every way of every set. */
    ghost function Sets(): (r: seq<CacheSet>)
      requires Configured()
      reads tags, lrus
      ensures |r| == nsets && forall s :: 0 <= s < nsets ==> |r[s].tags| == |r[s].lrus| == nways
      ensures forall s :: 0 <= s < nsets ==> r[s] == View(s)
    {
      seq(nsets, s requires 0 <= s < nsets reads tags, lrus => View(s))
    }

    ghost function Lines(): (r: seq<seq<seq<int>>>)
      requires Configured()
      reads lines
      ensures |r| == nsets && forall s :: 0 <= s < nsets ==> |r[s]| == nways
      ensures forall s, j :: 0 <= s < nsets && 0 <= j < nways ==> r[s][j] == LineAt(s, j)
    {
      seq(nsets, s requires 0 <= s < nsets reads lines =>
        seq(nways, j requires 0 <= j < nways reads lines => LineAt(s, j)))
    }

    /** Every valid line equals memory. */
    ghost predicate Coherent(main: Memory)
      requires Configured()
      reads tags, lrus, lines
    {
      Agree(Sets(), Lines(), setBits, blockBits, main)
    }

    /** ic_end_sec: the derived constants, and an empty cache. */
    constructor (setBits: nat, blockBits: nat, nways: nat, ustates: nat, present: bool)
      requires setBits <= 10 && (blockBits == 4 || blockBits == 5) && 0 < nways && 2 <= ustates <= 4
      ensures Configured() && !enabled && this.present == present
      ensures this.setBits == setBits && this.blockBits == blockBits && this.nways == nways && this.ustates == ustates
      ensures Sets() == seq(nsets, _ => Fresh(nways))
      ensures forall main :: Coherent(main)
      ensures fresh(tags) && fresh(lrus) && fresh(lines)
    {
      hide Replace, Promote, Emptied, Victim, Scan, Find;
      this.setBits, this.blockBits, this.nways, this.ustates := setBits, blockBits, nways, ustates;
      this.present := present;
      enabled := false;
      var n := Pow2(setBits);
      nsets := n;
      setMask := Shl(n - 1, blockBits);
      tagaddrMask := Shl(Pow2(ADDRESS_BITS - (setBits + blockBits)) - 1, setBits + blockBits);
      blockOffsetMask := Pow2(blockBits) - 1;
      blockMask := Shl(Pow2(ADDRESS_BITS - blockBits) - 1, blockBits);
      var last := LastWay(nways, n);
      lastWay := last;
      ustatesReload := ustates - 1;
      tags := new int[last](_ => EMPTY);
      lrus := new nat[last](_ => 0);
      lines := new int[last, WordsPerBlock(blockBits)]((_, _) => 0);
      new;
      forall s, j | 0 <= s < nsets && 0 <= j < nways
        ensures TagAt(s, j) == EMPTY && LruAt(s, j) == 0
      {
        WayInRange(s, j);
      }
      assert forall s :: 0 <= s < nsets ==> View(s) == Fresh(nways);
    }

    /** The first way of the set that holds `tag`; past the last way if there is none. */
    method Lookup(s: nat, tag: int) returns (way: nat, ghost j: nat)
      requires Configured() && s < nsets
      ensures j == Find(View(s).tags, tag, 0) && way == Way(s, j, nsets) && (way < lastWay <==> j < nways)
    {
      hide LastWay;
      way, j := s, 0;
      ghost var held := View(s).tags;
      WayRange(s, 0, nways, nsets);
      while way < lastWay && tags[way] != tag
        invariant j <= nways && way == Way(s, j, nsets) && (way < lastWay <==> j < nways)
        invariant forall k :: 0 <= k < j ==> held[k] != tag
        decreases nways - j
      {
        assert held[j] == TagAt(s, j);
        way, j := way + nsets, j + 1;
        WayRange(s, j, nways, nsets);
      }
      if j < nways { assert held[j] == TagAt(s, j); }
    }

    /** One counter changes. */
    method SetLru(s: nat, way: nat, ghost j: nat, value: nat)
      requires Configured() && s < nsets && j < nways && way == Way(s, j, nsets)
      modifies lrus
      ensures Sets() == old(Sets())[s := CacheSet(old(View(s)).tags, old(View(s)).lrus[j := value])]
    {
      hide LastWay, Pow2, Shl;
      WayInRange(s, j);
      lrus[way] := value;
      forall s', k | 0 <= s' < nsets && 0 <= k < nways
        ensures LruAt(s', k) == if s' == s && k == j then value else old(LruAt(s', k))
      {
        WayInRange(s', k);
        if Way(s', k, nsets) == way { WayDistinct(s', k, s, j, nsets); }
      }
      forall s' | 0 <= s' < nsets
        ensures View(s') == if s' == s then CacheSet(old(View(s)).tags, old(View(s)).lrus[j := value])
          else old(View(s'))
      {
      }
    }

    /** One tag changes. */
    method SetTag(s: nat, way: nat, ghost j: nat, tag: int)
      requires Configured() && s < nsets && j < nways && way == Way(s, j, nsets)
      modifies tags
      ensures Sets() == old(Sets())[s := CacheSet(old(View(s)).tags[j := tag], old(View(s)).lrus)]
    {
      hide LastWay, Pow2, Shl;
      WayInRange(s, j);
      tags[way] := tag;
      forall s', k | 0 <= s' < nsets && 0 <= k < nways
        ensures TagAt(s', k) == if s' == s && k == j then tag else old(TagAt(s', k))
      {
        WayInRange(s', k);
        if Way(s', k, nsets) == way { WayDistinct(s', k, s, j, nsets); }
      }
      forall s' | 0 <= s' < nsets
        ensures View(s') == if s' == s then CacheSet(old(View(s)).tags[j := tag], old(View(s)).lrus) else old(View(s'))
      {
      }
    }

    /** The hit rule on way `way`. */
    method PromoteWay(s: nat, way: nat, ghost h: nat)
      requires Configured() && s < nsets && h < nways && way == Way(s, h, nsets)
      modifies lrus
      ensures Sets() == old(Sets())[s := CacheSet(old(View(s)).tags, Promote(old(View(s)).lrus, h, ustates))]
    {
      hide LastWay, Way, Pow2, Shl, View;
      WayInRange(s, h);
      ghost var was, all := View(s), Sets();
      ghost var next := seq(nways, j requires 0 <= j < nways =>
        if was.lrus[j] > was.lrus[h] then was.lrus[j] - 1 else was.lrus[j]);
      var lruWay := s;
      ghost var j: nat := 0;
      WayRange(s, 0, nways, nsets);
      assert all == all[s := View(s)];
      while lruWay < lastWay
        invariant j <= nways && lruWay == Way(s, j, nsets) && (lruWay < lastWay <==> j < nways)
        invariant Sets() == all[s := View(s)] && Aging(View(s), j, next, was)
        decreases nways - j
      {
        ViewAt(s, j);
        ViewAt(s, h);
        if lrus[lruWay] > lrus[way] {
          SetLru(s, lruWay, j, lrus[lruWay] - 1);
        }
        lruWay, j := NextWay(s, lruWay, j);
      }
      SetLru(s, way, h, ustatesReload);
      assert Promote(was.lrus, h, ustates) == View(s).lrus;
    }

    lemma ViewAt(s: nat, j: nat)
      requires Configured() && s < nsets && j < nways
      ensures Way(s, j, nsets) < lastWay == tags.Length == lrus.Length
      ensures View(s).lrus[j] == lrus[Way(s, j, nsets)] && View(s).tags[j] == tags[Way(s, j, nsets)]
    {
      WayInRange(s, j);
    }

    /** The stride to the next way of the set. */
    method NextWay(s: nat, way: nat, ghost j: nat) returns (way': nat, ghost j': nat)
      requires Configured() && s < nsets && j < nways && way == Way(s, j, nsets)
      ensures way' == way + nsets && j' == j + 1 && way' == Way(s, j', nsets) && (way' < lastWay <==> j' < nways)
    {
      way', j' := way + nsets, j + 1;
      WayRange(s, j', nways, nsets);
    }

    /** The victim scan. */
    method ChooseVictim(s: nat) returns (way: nat, ghost v: nat)
      requires Configured() && s < nsets
      ensures v == Victim(View(s).lrus, ustates) < nways && way == Way(s, v, nsets)
    {
      hide LastWay;
      var minlru := ustatesReload;
      way, v := s, 0;
      var lruWay := s;
      ghost var j: nat := 0;
      ghost var was := View(s).lrus;
      WayRange(s, 0, nways, nsets);
      while lruWay < lastWay
        invariant j <= nways && lruWay == Way(s, j, nsets) && (lruWay < lastWay <==> j < nways)
        invariant v < nways && way == Way(s, v, nsets)
        invariant Scan(was, j, v, minlru) == Victim(was, ustates)
        decreases nways - j
      {
        WayInRange(s, j);
        assert lrus[lruWay] == was[j];
        if lrus[lruWay] < minlru {
          way, v := lruWay, j;
          minlru := lrus[lruWay];
        }
        lruWay, j := lruWay + nsets, j + 1;
        WayRange(s, j, nways, nsets);
      }
    }

    /** Every counter of the set moves down one state, except at zero. */
    method AgeAll(s: nat)
      requires Configured() && s < nsets
      modifies lrus
      ensures Sets() == old(Sets())[s := CacheSet(old(View(s)).tags, Down(old(View(s)).lrus))]
    {
      hide LastWay, Way, Pow2, Shl, View;
      ghost var was, all := View(s), Sets();
      var lruWay := s;
      ghost var j: nat := 0;
      WayRange(s, 0, nways, nsets);
      assert all == all[s := View(s)];
      while lruWay < lastWay
        invariant j <= nways && lruWay == Way(s, j, nsets) && (lruWay < lastWay <==> j < nways)
        invariant Sets() == all[s := View(s)] && Aging(View(s), j, Down(was.lrus), was)
        decreases nways - j
      {
        ViewAt(s, j);
        if lrus[lruWay] > 0 {
          SetLru(s, lruWay, j, lrus[lruWay] - 1);
        }
        lruWay, j := NextWay(s, lruWay, j);
      }
      assert View(s).lrus == Down(was.lrus);
    }

    /** Word `i` of the line has been read once the refill has gone through `n` words from word `first`. */
    ghost predicate Covered(i: nat, first: nat, n: nat) {
      first <= i < first + n || first <= i + WordsPerBlock(blockBits) < first + n
    }

    ghost predicate Filled(way: nat, addr: nat, first: nat, n: nat, main: Memory)
      requires Configured() && way < lines.Length0
      reads lines
    {
      forall i :: 0 <= i < WordsPerBlock(blockBits) && Covered(i, first, n) ==>
        WordAddress(addr, blockBits, i) in main && lines[way, i] == main[WordAddress(addr, blockBits, i)]
    }

    /** The byte offset `first` words and `n` more into the block, wrapped, and the address it stands for. */
    lemma Wrapped(addr: nat, first: nat, n: nat) returns (i: nat)
      requires Configured() && addr < Pow2(ADDRESS_BITS) && first < WordsPerBlock(blockBits) &&
        n <= WordsPerBlock(blockBits)
      ensures i == if first + n < WordsPerBlock(blockBits) then first + n else first + n - WordsPerBlock(blockBits)
      ensures And(4 * first + 4 * n, blockOffsetMask) == 4 * i
      ensures i < WordsPerBlock(blockBits) ==> Or(And(addr, blockMask), 4 * i) == WordAddress(addr, blockBits, i)
    {
      hide And, Or, Shl, Shr, Low;
      BlockWords(blockBits);
      LowMask(4 * first + 4 * n, blockBits);
      LowOnce(4 * first + 4 * n, blockBits);
      i := if first + n < WordsPerBlock(blockBits) then first + n else first + n - WordsPerBlock(blockBits);
      MasksSplit(addr, setBits, blockBits);
      if i < WordsPerBlock(blockBits) { OrLow(Shr(addr, blockBits), 4 * i, blockBits); }
    }

    /** The refill loop. */
    method Refill(way: nat, addr: nat, main: Memory) returns (ok: bool)
      requires Configured() && way < lastWay && addr < Pow2(ADDRESS_BITS) && addr % 4 == 0
      modifies lines
      ensures ok <==> BlockMapped(main, addr, blockBits)
      ensures ok ==> forall i :: 0 <= i < WordsPerBlock(blockBits) ==>
        lines[way, i] == main[WordAddress(addr, blockBits, i)]
      ensures forall w, i :: 0 <= w < lastWay && 0 <= i < WordsPerBlock(blockBits) && w != way ==>
        lines[w, i] == old(lines[w, i])
    {
      hide And, Or, Shl, Shr, Low, LastWay, Way, OffsetOf, SetOf, TagOf, WordAddress, WordsPerBlock, Pow2;
      MasksSplit(addr, setBits, blockBits);
      AddressInBlock(addr, blockBits);
      BlockWords(blockBits);
      var reload := And(addr, blockOffsetMask);
      var end := reload + Pow2(blockBits);
      ghost var first, n := reload / 4, 0;
      while reload < end
        invariant n <= WordsPerBlock(blockBits) && reload == 4 * first + 4 * n &&
          end == 4 * first + 4 * WordsPerBlock(blockBits)
        invariant Filled(way, addr, first, n, main)
        invariant forall w, i :: 0 <= w < lastWay && 0 <= i < WordsPerBlock(blockBits) && w != way ==>
          lines[w, i] == old(lines[w, i])
        decreases end - reload
      {
        ghost var g := Wrapped(addr, first, n);
        var at := And(reload, blockOffsetMask);
        var from := Or(And(addr, blockMask), at);
        lines[way, at / 4] := ReadWord(main, from);
        if from !in main {
          return false;
        }
        reload, n := reload + 4, n + 1;
      }
      assert forall i :: 0 <= i < WordsPerBlock(blockBits) ==> Covered(i, first, n);
      ok := true;
    }

    predicate Bypasses(ci: bool)
      reads this
    {
      !present || !enabled || ci
    }

    ghost predicate Fetchable(addr: nat) {
      Configured() && addr < Pow2(ADDRESS_BITS) && addr % 4 == 0
    }

    /** The word a fetch wants, in a line that holds its block. */
    lemma LineWord(addr: nat, line: seq<int>, main: Memory)
      requires Fetchable(addr) && |line| == WordsPerBlock(blockBits)
      requires Holds(TagOf(addr, setBits, blockBits), SetOf(addr, setBits, blockBits), blockBits, line, main)
      ensures BlockMapped(main, addr, blockBits)
      ensures var o := OffsetOf(addr, blockBits) / 4; o < |line| && addr in main && line[o] == main[addr]
    {
      hide Shl, Shr, Low, OffsetOf;
      BlockFromTag(addr, setBits, blockBits);
      AddressInBlock(addr, blockBits);
      forall i | 0 <= i < WordsPerBlock(blockBits)
        ensures WordAddress(addr, blockBits, i) in main && line[i] == main[WordAddress(addr, blockBits, i)]
      {
        assert Word(TagOf(addr, setBits, blockBits), SetOf(addr, setBits, blockBits), blockBits, i) ==
          WordAddress(addr, blockBits, i);
      }
    }

    lemma LineFilled(addr: nat, line: seq<int>, main: Memory)
      requires Fetchable(addr) && |line| == WordsPerBlock(blockBits) && BlockMapped(main, addr, blockBits)
      requires forall i :: 0 <= i < |line| ==> line[i] == main[WordAddress(addr, blockBits, i)]
      ensures Holds(TagOf(addr, setBits, blockBits), SetOf(addr, setBits, blockBits), blockBits, line, main)
    {
      hide Shl, Shr, Low;
      BlockFromTag(addr, setBits, blockBits);
      forall i | 0 <= i < |line|
        ensures Word(TagOf(addr, setBits, blockBits), SetOf(addr, setBits, blockBits), blockBits, i) ==
          WordAddress(addr, blockBits, i)
      {
      }
    }

    /** ic_simulate_fetch after a hit in way `way`. */
    method Hit(s: nat, addr: nat, way: nat, ghost h: nat, ghost main: Memory) returns (word: int)
      requires Fetchable(addr) && s == SetOf(addr, setBits, blockBits) && h < nways && way == Way(s, h, nsets)
      requires View(s).tags[h] == TagOf(addr, setBits, blockBits)
      modifies lrus
      ensures Sets() == old(Sets())[s := CacheSet(old(View(s)).tags, Promote(old(View(s)).lrus, h, ustates))]
      ensures Holds(TagOf(addr, setBits, blockBits), s, blockBits, LineAt(s, h), main) ==>
        BlockMapped(main, addr, blockBits) && addr in main && word == main[addr]
    {
      hide And, Shl, Shr, Low, LastWay, Way, Pow2, OffsetOf, SetOf, TagOf, WordsPerBlock, Promote, BlockMapped, View,
        Holds;
      PromoteWay(s, way, h);
      WayInRange(s, h);
      MasksSplit(addr, setBits, blockBits);
      AddressInBlock(addr, blockBits);
      word := lines[way, And(addr, blockOffsetMask) / 4];
      assert word == LineAt(s, h)[OffsetOf(addr, blockBits) / 4];
      if Holds(TagOf(addr, setBits, blockBits), s, blockBits, LineAt(s, h),
        main) { LineWord(addr, LineAt(s, h), main); }
    }

    /** The refill of way `v` of set `s`. */
    method RefillWay(s: nat, way: nat, ghost v: nat, addr: nat, main: Memory) returns (ok: bool)
      requires Fetchable(addr) && s < nsets && v < nways && way == Way(s, v, nsets)
      modifies lines
      ensures ok <==> BlockMapped(main, addr, blockBits)
      ensures ok ==> forall i :: 0 <= i < WordsPerBlock(blockBits) ==>
        LineAt(s, v)[i] == main[WordAddress(addr, blockBits, i)]
      ensures Lines() == old(Lines())[s := old(Lines())[s][v := LineAt(s, v)]]
    {
      hide Way, LastWay, WordsPerBlock, SetOf, Pow2, Shl;
      WayInRange(s, v);
      ok := Refill(way, addr, main);
      forall s', k | 0 <= s' < nsets && 0 <= k < nways && (s' != s || k != v)
        ensures LineAt(s', k) == old(LineAt(s', k))
      {
        WayInRange(s', k);
        if Way(s', k, nsets) == way { WayDistinct(s', k, s, v, nsets); }
      }
      forall s' | 0 <= s' < nsets
        ensures Lines()[s'] == if s' == s then old(Lines())[s][v := LineAt(s, v)] else old(Lines())[s']
      {
      }
    }

    lemma Masked(addr: nat)
      requires Configured() && addr < Pow2(ADDRESS_BITS)
      ensures And(addr, tagaddrMask) == TagOf(addr, setBits, blockBits)
      ensures Shr(And(addr, setMask), blockBits) == SetOf(addr, setBits, blockBits) < nsets
    {
      hide And, Shl, Shr, Low, TagOf, SetOf;
      MasksSplit(addr, setBits, blockBits);
      BlockFromTag(addr, setBits, blockBits);
    }

    /** The victim gets the new tag and the counters age. */
    method Install(s: nat, tag: int) returns (way: nat, ghost v: nat)
      requires Configured() && s < nsets
      modifies tags, lrus
      ensures v == Victim(old(View(s)).lrus, ustates) < nways && way == Way(s, v, nsets)
      ensures Sets() == old(Sets())[s := Replace(old(View(s)), v, tag, ustates)]
    {
      hide LastWay, Way, Pow2, Victim, Shl, View;
      way, v := ChooseVictim(s);
      SetTag(s, way, v, tag);
      AgeAll(s);
      SetLru(s, way, v, ustatesReload);
      assert View(s) == Replace(old(View(s)), v, tag, ustates);
    }

    /** The way is emptied again. */
    method Drop(s: nat, way: nat, ghost v: nat)
      requires Configured() && s < nsets && v < nways && way == Way(s, v, nsets)
      modifies tags, lrus
      ensures Sets() == old(Sets())[s := Emptied(old(View(s)), v)]
    {
      hide LastWay, Way, Pow2, Shl, View;
      SetTag(s, way, v, EMPTY);
      SetLru(s, way, v, 0);
    }

    /** ic_simulate_fetch after no way matched. */
    method Miss(s: nat, addr: nat, main: Memory) returns (word: int, ghost v: nat)
      requires Fetchable(addr) && s == SetOf(addr, setBits, blockBits)
      modifies tags, lrus, lines
      ensures v == Victim(old(View(s)).lrus, ustates) < nways
      ensures Sets() == old(Sets())[s :=
        Missed(old(View(s)), v, TagOf(addr, setBits, blockBits), ustates, BlockMapped(main, addr, blockBits))]
      ensures Lines() == old(Lines())[s := old(Lines())[s][v := LineAt(s, v)]]
      ensures BlockMapped(main, addr, blockBits) ==>
        Holds(TagOf(addr, setBits, blockBits), s, blockBits, LineAt(s, v), main) && addr in main && word == main[addr]
      ensures !BlockMapped(main, addr, blockBits) ==> word == 0
    {
      hide And, Or, Shl, Shr, Low, LastWay, Way, Pow2, OffsetOf, SetOf, TagOf, WordsPerBlock, BlockMapped, Victim,
        Replace, Holds, LineAt, View, Sets, Lines, Emptied;
      Masked(addr);
      var way;
      way, v := Install(s, And(addr, tagaddrMask));
      var ok := RefillWay(s, way, v, addr, main);
      if ok {
        word := Loaded(s, way, v, addr, main);
      } else {
        Drop(s, way, v);
        word := 0;
      }
    }

    /** The word to return once the line has been filled. */
    method Loaded(s: nat, way: nat, ghost v: nat, addr: nat, ghost main: Memory) returns (word: int)
      requires Fetchable(addr) && s == SetOf(addr, setBits, blockBits) && v < nways && way == Way(s, v, nsets)
      requires BlockMapped(main, addr, blockBits)
      requires forall i :: 0 <= i < WordsPerBlock(blockBits) ==>
        LineAt(s, v)[i] == main[WordAddress(addr, blockBits, i)]
      ensures Holds(TagOf(addr, setBits, blockBits), s, blockBits, LineAt(s, v), main) && addr in main &&
        word == main[addr]
    {
      hide And, Or, Shl, Shr, Low, LastWay, Way, Pow2, OffsetOf, SetOf, TagOf, WordsPerBlock, WordAddress;
      WayInRange(s, v);
      MasksSplit(addr, setBits, blockBits);
      AddressInBlock(addr, blockBits);
      LineFilled(addr, LineAt(s, v), main);
      LineWord(addr, LineAt(s, v), main);
      word := lines[way, And(addr, blockOffsetMask) / 4];
    }

    /** The arrays hold what the fetches of `history` leave in a cache that was empty. */
    ghost predicate Ran(history: seq<nat>)
      requires Configured()
      reads tags, lrus
    {
      Sets() == FetchRun(seq(nsets, _ => Fresh(nways)), history, setBits, blockBits, ustates)
    }

    lemma RanNext(was: seq<CacheSet>, history: seq<nat>, addr: nat)
      requires Configured() && was == FetchRun(seq(nsets, _ => Fresh(nways)), history, setBits, blockBits, ustates)
      requires Sets() == FetchedAt(was, SetOf(addr, setBits, blockBits), TagOf(addr, setBits, blockBits), ustates, true)
      ensures Ran(history + [addr])
    {
      hide FetchedAt, SetOf, TagOf, Pow2, View, LastWay, Way;
      assert (history + [addr])[..|history|] == history;
    }

    /** With no more ways than usage states the next fetch finds its tag in the strided ways of its set exactly when its
        block is among the `nways` last ones that the set had. */
    lemma HitsExact(history: seq<nat>, addr: nat)
      requires Configured() && Ran(history) && nways <= ustates
      ensures SetOf(addr, setBits, blockBits) < nsets
      ensures
        var s, tag := SetOf(addr, setBits, blockBits), TagOf(addr, setBits, blockBits);
        var recent := Recency(TagsFor(history, s, setBits, blockBits));
        (exists j :: 0 <= j < nways && TagAt(s, j) == tag) <==> tag in recent[..Min(|recent|, nways)]
    {
      hide FetchRun, TagsFor, Recency, LastWay, Way, Shl, Shr, Low, TagAt, LruAt;
      BlockFromTag(addr, setBits, blockBits);
      CacheLruExact(nways, history, addr, setBits, blockBits, ustates);
      var s, tag := SetOf(addr, setBits, blockBits), TagOf(addr, setBits, blockBits);
      assert Sets()[s] == View(s);
      assert forall j :: 0 <= j < nways ==> View(s).tags[j] == TagAt(s, j);
      assert Hits(View(s), tag) <==> exists j :: 0 <= j < nways && View(s).tags[j] == tag;
    }

    /** ic_simulate_fetch. */
    method Fetch(addr: nat, main: Memory, ci: bool) returns (word: int)
      requires Fetchable(addr)
      modifies tags, lrus, lines
      ensures Bypasses(ci) ==> word == ReadWord(main, addr) && unchanged(tags, lrus, lines)
      ensures !Bypasses(ci) ==>
        Sets() ==
        FetchedAt(old(Sets()), SetOf(addr, setBits, blockBits), TagOf(addr, setBits, blockBits), ustates,
        BlockMapped(main, addr, blockBits))
      ensures !Bypasses(ci) && BlockMapped(main, addr, blockBits) ==>
        forall history :: old(Ran(history)) ==> Ran(history + [addr])
      ensures old(Coherent(main)) ==> Coherent(main)
      ensures old(Coherent(main)) && !Bypasses(ci) ==>
        word == if BlockMapped(main, addr, blockBits) then ReadWord(main, addr) else 0
    {
      hide And, Or, Shl, Shr, Low, LastWay, Way, Pow2, OffsetOf, SetOf, TagOf, WordsPerBlock, BlockMapped, Holds,
        Victim, Find, LineAt, View, Promote, Missed, Proper, FetchRun;
      if Bypasses(ci) {
        return ReadWord(main, addr);
      }
      Masked(addr);
      var s := Shr(And(addr, setMask), blockBits);
      var way;
      ghost var h;
      way, h := Lookup(s, And(addr, tagaddrMask));
      if way < lastWay {
        word := Hit(s, addr, way, h, main);
        assert old(Coherent(main)) ==> Holds(View(s).tags[h], s, blockBits, LineAt(s, h), main);
        AgreeAfterHit(old(Sets()), Sets(), s, Lines(), setBits, blockBits, main);
      } else {
        ghost var v;
        word, v := Miss(s, addr, main);
        TagProper(addr, setBits, blockBits);
        AgreeAfterMiss(old(Sets()), old(Lines()), s, v, TagOf(addr, setBits, blockBits), ustates,
          BlockMapped(main, addr, blockBits), LineAt(s, v), setBits, blockBits, main);
      }
      forall history | BlockMapped(main, addr, blockBits) && old(Ran(history))
        ensures Ran(history + [addr])
      {
        RanNext(old(Sets()), history, addr);
      }
    }

    /** ic_inv with the cache disabled: the whole set. */
    method EmptySet(s: nat, ghost tagaddr: int)
      requires Configured() && s < nsets
      modifies tags, lrus
      ensures Sets() == InvalidatedAt(old(Sets()), s, tagaddr, false)
    {
      hide LastWay, Way, Pow2, Shl, View, Emptied, Invalidated, Invalidating;
      ghost var was, all := View(s), Sets();
      var way := s;
      ghost var j: nat := 0;
      WayRange(s, 0, nways, nsets);
      assert all == all[s := View(s)];
      InvalidatingStarts(was, tagaddr, false);
      while way < lastWay
        invariant j <= nways && way == Way(s, j, nsets) && (way < lastWay <==> j < nways)
        invariant Sets() == all[s := View(s)] && Invalidating(View(s), j, tagaddr, false, was)
        decreases nways - j
      {
        ViewAt(s, j);
        InvalidatingStep(View(s), j, tagaddr, false, was);
        Drop(s, way, j);
        way, j := NextWay(s, way, j);
      }
      InvalidatingEnds(View(s), tagaddr, false, was);
    }

    /** ic_inv with the cache enabled: the ways that hold the tag. */
    method EmptyMatching(s: nat, tagaddr: int)
      requires Configured() && s < nsets
      modifies tags, lrus
      ensures Sets() == InvalidatedAt(old(Sets()), s, tagaddr, true)
    {
      hide LastWay, Way, Pow2, Shl, View, Emptied, Invalidated, Invalidating;
      ghost var was, all := View(s), Sets();
      var way := s;
      ghost var j: nat := 0;
      WayRange(s, 0, nways, nsets);
      assert all == all[s := View(s)];
      InvalidatingStarts(was, tagaddr, true);
      while way < lastWay
        invariant j <= nways && way == Way(s, j, nsets) && (way < lastWay <==> j < nways)
        invariant Sets() == all[s := View(s)] && Invalidating(View(s), j, tagaddr, true, was)
        decreases nways - j
      {
        ViewAt(s, j);
        InvalidatingStep(View(s), j, tagaddr, true, was);
        if tags[way] == tagaddr {
          Drop(s, way, j);
        }
        way, j := NextWay(s, way, j);
      }
      InvalidatingEnds(View(s), tagaddr, true, was);
    }

    /** ic_inv. */
    method Inv(addr: nat, ghost main: Memory)
      requires Configured() && addr < Pow2(ADDRESS_BITS)
      modifies tags, lrus
      ensures !present ==> unchanged(tags, lrus)
      ensures present ==> Sets() == InvalidatedAt(old(Sets()), SetOf(addr, setBits, blockBits),
        TagOf(addr, setBits, blockBits), enabled)
      ensures present ==> Gone(addr) && (old(Coherent(main)) ==> Coherent(main))
    {
      hide And, Shl, Shr, Low, LastWay, Way, Pow2, SetOf, TagOf, View, Configured, Lines, Sets, Agree, Invalidated,
        InvalidatedAt;
      if !present {
        return;
      }
      Masked(addr);
      var s := Shr(And(addr, setMask), blockBits);
      AgreeAfterInvalidate(Sets(), Lines(), s, TagOf(addr, setBits, blockBits), enabled, setBits, blockBits, main);
      if !enabled {
        EmptySet(s, TagOf(addr, setBits, blockBits));
        return;
      }
      EmptyMatching(s, And(addr, tagaddrMask));
    }

    /** No way holds the block of the address. */
    ghost predicate Gone(addr: nat)
      requires Configured()
      reads tags, lrus
    {
      TagOf(addr, setBits, blockBits) !in Sets()[SetOf(addr, setBits, blockBits)].tags
    }

    /** Once its block is gone an address may be written behind the cache's back. */
    lemma WriteKeepsCoherent(main: Memory, addr: nat, value: int)
      requires Configured() && Coherent(main) && Gone(addr)
      ensures Coherent(main[addr := value])
    {
      hide Shl, Shr, Low, Way, LastWay, Pow2, View, WordsPerBlock, Agree, SetOf, TagOf;
      AgreeAfterWrite(Sets(), Lines(), setBits, blockBits, main, addr, value);
    }
  }
}
