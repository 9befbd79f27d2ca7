/** The data cache: tags, usage counters and lines of every way of every set, changed in place. */
module Dcache {
  import opened IcacheLru
  import opened DcacheSpec

  class DataCache {
    const bs: nat
    const nsets: nat
    const nways: nat
    const ustates: nat
    const tags: array2<int>
    const lrus: array2<nat>
    const lines: array3<int>
    /** Is the cache present (UPR[DCP]) and is it enabled (SR[DCE])? */
    const present: bool
    var enabled: bool
    /** The memory behind the cache. */
    var main: Memory

    predicate Configured() {
      BlockSize(bs) && nsets > 0 && nways > 0 && ustates > 0 &&
      tags.Length0 == lrus.Length0 == lines.Length0 == nsets &&
        tags.Length1 == lrus.Length1 == lines.Length1 == nways &&
      lines.Length2 == bs / 4
    }

    ghost function View(s: nat): (c: CacheSet)
      requires Configured() && s < nsets
      reads tags, lrus
      ensures |c.tags| == |c.lrus| == nways
    {
      CacheSet(seq(nways, w requires 0 <= w < nways reads tags => tags[s, w]),
               seq(nways, w requires 0 <= w < nways reads lrus => lrus[s, w]))
    }

    ghost function LineAt(s: nat, w: nat): (line: seq<int>)
      requires Configured() && s < nsets && w < nways
      reads lines
      ensures |line| == bs / 4
    {
      seq(bs / 4, i requires 0 <= i < bs / 4 reads lines => lines[s, w, i])
    }

    ghost function Sets(): (r: seq<CacheSet>)
      requires Configured()
      reads tags, lrus
      ensures |r| == nsets && forall s :: 0 <= s < nsets ==> |r[s].tags| == |r[s].lrus| == nways
      ensures forall s :: 0 <= s < nsets ==> r[s] == View(s)
    {
      seq(nsets, s requires 0 <= s < nsets reads tags, lrus => View(s))
    }

    ghost function Lines(): (r: seq<seq<seq<int>>>)
      requires Configured()
      reads lines
      ensures |r| == nsets && forall s :: 0 <= s < nsets ==> |r[s]| == nways
      ensures forall s, w :: 0 <= s < nsets && 0 <= w < nways ==> |r[s][w]| == bs / 4
      ensures forall s, w :: 0 <= s < nsets && 0 <= w < nways ==> r[s][w] == LineAt(s, w)
    {
      seq(nsets, s requires 0 <= s < nsets reads lines =>
        seq(nways, w requires 0 <= w < nways reads lines => LineAt(s, w)))
    }

    /** Valid tags are unique in every set and every valid line equals memory. */
    ghost predicate Coherent()
      requires Configured()
      reads this, tags, lrus, lines
    {
      Agree(Sets(), Lines(), bs, nsets, main)
    }

    /** The cache starts as static storage does, all zero. */
    constructor (bs: nat, nsets: nat, nways: nat, ustates: nat, present: bool, main: Memory)
      requires BlockSize(bs) && nsets > 0 && nways > 0 && ustates > 0
      ensures Configured() && !enabled && this.present == present && this.main == main
      ensures this.bs == bs && this.nsets == nsets && this.nways == nways && this.ustates == ustates
      ensures Sets() == seq(nsets, _ => CacheSet(seq(nways, _ => 0), seq(nways, _ => 0)))
      ensures fresh(tags) && fresh(lrus) && fresh(lines)
    {
      this.bs, this.nsets, this.nways, this.ustates := bs, nsets, nways, ustates;
      this.present, this.main := present, main;
      enabled := false;
      tags := new int[nsets, nways]((_, _) => 0);
      lrus := new nat[nsets, nways]((_, _) => 0);
      lines := new int[nsets, nways, bs / 4]((_, _, _) => 0);
      new;
      assert forall s :: 0 <= s < nsets ==> View(s) == CacheSet(seq(nways, _ => 0), seq(nways, _ => 0));
    }

    // ---- Single steps ----

    method SetLru(s: nat, w: nat, value: nat)
      requires Configured() && s < nsets && w < nways
      modifies lrus
      ensures Sets() == old(Sets())[s := CacheSet(old(View(s)).tags, old(View(s)).lrus[w := value])]
    {
      lrus[s, w] := value;
      forall s' | 0 <= s' < nsets
        ensures View(s') == if s' == s then CacheSet(old(View(s)).tags, old(View(s)).lrus[w := value])
          else old(View(s'))
      {
      }
    }

    method SetTag(s: nat, w: nat, tag: int)
      requires Configured() && s < nsets && w < nways
      modifies tags
      ensures Sets() == old(Sets())[s := CacheSet(old(View(s)).tags[w := tag], old(View(s)).lrus)]
    {
      tags[s, w] := tag;
      forall s' | 0 <= s' < nsets
        ensures View(s') == if s' == s then CacheSet(old(View(s)).tags[w := tag], old(View(s)).lrus) else old(View(s'))
      {
      }
    }

    lemma ViewAt(s: nat, w: nat)
      requires Configured() && s < nsets && w < nways
      ensures View(s).lrus[w] == lrus[s, w] && View(s).tags[w] == tags[s, w]
    {
    }

    /** The scan for a matching way; it goes on after a match. */
    method FindWay(s: nat, tag: int) returns (way: int)
      requires Configured() && s < nsets
      ensures way == FindLast(View(s).tags, tag, nways)
    {
      hide View;
      way := -1;
      for i := 0 to nways
        invariant way == FindLast(View(s).tags, tag, i)
      {
        ViewAt(s, i);
        if tags[s, i] == tag {
          way := i;
        }
      }
    }

    /** Counters after a hit in way `way`. */
    method PromoteWay(s: nat, way: nat)
      requires Configured() && s < nsets && way < nways
      modifies lrus
      ensures Sets() == old(Sets())[s := CacheSet(old(View(s)).tags, Promote(old(View(s)).lrus, way, ustates))]
    {
      hide View;
      ghost var was, all := View(s), Sets();
      ghost var next := seq(nways, j requires 0 <= j < nways =>
        if was.lrus[j] > was.lrus[way] then was.lrus[j] - 1 else was.lrus[j]);
      assert all == all[s := View(s)];
      for i := 0 to nways
        invariant Sets() == all[s := View(s)] && Aging(View(s), i, next, was)
      {
        ViewAt(s, i);
        ViewAt(s, way);
        if lrus[s, i] > lrus[s, way] {
          SetLru(s, i, lrus[s, i] - 1);
        }
      }
      SetLru(s, way, ustates - 1);
      assert Promote(was.lrus, way, ustates) == View(s).lrus;
    }

    /** Tag and counters after a refill of way `way`. */
    method Install(s: nat, way: nat, tag: int)
      requires Configured() && s < nsets && way < nways
      modifies tags, lrus
      ensures Sets() == old(Sets())[s := Replace(old(View(s)), way, tag, ustates)]
    {
      hide View;
      ghost var was0 := View(s);
      SetTag(s, way, tag);
      ghost var was, all := View(s), Sets();
      ghost var next := seq(nways, j requires 0 <= j < nways => if was.lrus[j] > 0 then was.lrus[j] - 1 else 0);
      assert all == all[s := View(s)];
      for i := 0 to nways
        invariant Sets() == all[s := View(s)] && Aging(View(s), i, next, was)
      {
        ViewAt(s, i);
        if lrus[s, i] > 0 {
          SetLru(s, i, lrus[s, i] - 1);
        }
      }
      SetLru(s, way, ustates - 1);
      assert Replace(was0, way, tag, ustates) == View(s);
    }

    method Drop(s: nat, way: nat)
      requires Configured() && s < nsets && way < nways
      modifies tags, lrus
      ensures Sets() == old(Sets())[s := Emptied(old(View(s)), way)]
    {
      hide View;
      SetTag(s, way, EMPTY);
      SetLru(s, way, 0);
    }

    /** The way that a read miss replaces: the first with the smallest counter. */
    method ReadVictim(s: nat) returns (minway: nat)
      requires Configured() && s < nsets
      ensures minway == Victim(View(s).lrus, ustates) < nways
    {
      hide View;
      var minlru := ustates - 1;
      minway := 0;
      for i := 0 to nways
        invariant minway < nways && minlru >= 0
        invariant Scan(View(s).lrus, i, minway, minlru) == Victim(View(s).lrus, ustates)
      {
        ViewAt(s, i);
        if lrus[s, i] < minlru {
          minway := i;
          minlru := lrus[s, i];
        }
      }
    }

    /** The way that a write miss replaces; this scan leaves the minimum where it was. */
    method ChooseWriteVictim(s: nat) returns (minway: nat)
      requires Configured() && s < nsets
      ensures minway == WriteVictim(View(s).lrus, ustates, nways) < nways
    {
      hide View;
      var minlru := ustates - 1;
      minway := 0;
      for i := 0 to nways
        invariant minway == WriteVictim(View(s).lrus, ustates, i) && minway < nways
      {
        ViewAt(s, i);
        if lrus[s, i] < minlru {
          minway := i;
        }
      }
    }

    /** Word `k` of the line has been read once the refill has gone through `n` words from word `first`. */
    ghost predicate Covered(k: nat, first: nat, n: nat) { first <= k < first + n || first <= k + bs / 4 < first + n }

    ghost predicate Filling(s: nat, way: nat, a: nat, n: nat)
      requires Configured() && s < nsets && way < nways
      reads this, lines
    {
      forall k :: 0 <= k < bs / 4 && Covered(k, Index(a, bs), n) ==>
        Start(a, bs) + 4 * k in main && LineAt(s, way)[k] == Word(main, Start(a, bs) + 4 * k)
    }

    method SetWord(s: nat, way: nat, k: nat, word: int)
      requires Configured() && s < nsets && way < nways && k < bs / 4
      modifies lines
      ensures Lines() == old(Lines())[s := old(Lines())[s][way := old(LineAt(s, way))[k := word]]]
    {
      lines[s, way, k] := word;
      forall s', w' | 0 <= s' < nsets && 0 <= w' < nways
        ensures LineAt(s', w') == if s' == s && w' == way then old(LineAt(s, way))[k := word] else old(LineAt(s', w'))
      {
      }
      forall s' | 0 <= s' < nsets
        ensures Lines()[s'] == if s' == s then old(Lines())[s][way := old(LineAt(s, way))[k := word]]
          else old(Lines())[s']
      {
      }
    }

    /** The refill of a line from memory; it stops at the first word that is not mapped. */
    method Refill(s: nat, way: nat, a: nat) returns (ok: bool)
      requires Configured() && s < nsets && way < nways
      modifies lines
      ensures ok <==> BlockMapped(main, a, bs)
      ensures Lines() == old(Lines())[s := old(Lines())[s][way := LineAt(s, way)]]
      ensures ok ==> forall k :: 0 <= k < bs / 4 ==>
        Start(a, bs) + 4 * k in main &&
        LineAt(s, way)[k] == Word(main, Start(a, bs) + 4 * k)
    {
      hide Index, Start, Aligned, Word, LineAt, Off;
      ghost var was := Lines();
      assert was[s][way := LineAt(s, way)] == was[s];
      assert was == was[s := was[s]];
      for n := 0 to bs / 4
        invariant Filling(s, way, a, n)
        invariant Lines() == was[s := was[s][way := LineAt(s, way)]]
      {
        RefillIndex(a, n, bs);
        var from := Start(a, bs) + Off(Aligned(a) + 4 * n, bs);
        ghost var k := Index(a + 4 * n, bs);
        ghost var line := LineAt(s, way);
        SetWord(s, way, Index(a + 4 * n, bs), Word(main, from));
        assert Lines()[s][way] == LineAt(s, way) == line[k := Word(main, from)];
        assert from == Start(a, bs) + 4 * k;
        assert Lines()[s] == was[s][way := LineAt(s, way)];
        if from !in main {
          return false;
        }
        forall j | 0 <= j < bs / 4 && Covered(j, Index(a, bs), n + 1)
          ensures Start(a, bs) + 4 * j in main && LineAt(s, way)[j] == Word(main, Start(a, bs) + 4 * j)
        {
          assert j == k || Covered(j, Index(a, bs), n);
        }
      }
      forall k | 0 <= k < bs / 4
        ensures Start(a, bs) + 4 * k in main && LineAt(s, way)[k] == Word(main, Start(a, bs) + 4 * k)
      {
        assert Covered(k, Index(a, bs), bs / 4);
      }
      ok := true;
    }

    predicate Bypasses(ci: bool)
      reads this
    {
      !present || !enabled || ci
    }

    /** A miss: the way is refilled and takes over the tag, or is emptied. */
    method Load(s: nat, way: nat, a: nat) returns (ok: bool)
      requires Configured() && s == SetOf(a, bs, nsets) && way < nways
      modifies tags, lrus, lines
      ensures ok <==> BlockMapped(main, a, bs)
      ensures Sets() == old(Sets())[s :=
        Refilled(old(View(s)), way, TagOf(a, bs, nsets), ustates, BlockMapped(main, a, bs))]
      ensures Lines() == old(Lines())[s := old(Lines())[s][way := LineAt(s, way)]]
      ensures ok ==> Holds(TagOf(a, bs, nsets), s, LineAt(s, way), bs, nsets, main)
      ensures old(Coherent()) && TagOf(a, bs, nsets) !in old(View(s)).tags ==> Coherent()
    {
      hide View, LineAt, TagOf, SetOf, BlockMapped, Holds, Agree, Start, Word, Replace, Emptied;
      ok := Refill(s, way, a);
      if ok {
        FilledHolds(s, LineAt(s, way), a, bs, nsets, main);
        Install(s, way, TagOf(a, bs, nsets));
      } else {
        Drop(s, way);
      }
      if old(Coherent()) && TagOf(a, bs, nsets) !in old(View(s)).tags {
        AgreeAfterMiss(old(Sets()), old(Lines()), bs, nsets, main, s, way, TagOf(a, bs, nsets), ustates, ok,
          LineAt(s, way));
      }
    }

    /** The wanted part of the wanted word of a line that holds the block. */
    method Extract(s: nat, way: nat, a: nat, width: nat) returns (value: int)
      requires Configured() && s == SetOf(a, bs, nsets) && way < nways && WidthOk(a, width)
      ensures Holds(TagOf(a, bs, nsets), s, LineAt(s, way), bs, nsets, main) && WholeWords(main) ==>
        value == Direct(main, a, width) && BlockMapped(main, a, bs)
    {
      hide TagOf, SetOf, BlockMapped, Holds, Start, Word, Index, Aligned, Select, Direct, WholeWords, WidthOk;
      value := Select(lines[s, way, Index(a, bs)], a % 4, width);
      assert lines[s, way, Index(a, bs)] == LineAt(s, way)[Index(a, bs)];
      if Holds(TagOf(a, bs, nsets), s, LineAt(s, way), bs, nsets, main) && WholeWords(main) {
        HitWord(TagOf(a, bs, nsets), s, LineAt(s, way), a, bs, nsets, main);
        AlignedIn(main, a);
        SelectIsDirect(main, a, width);
      }
    }

    /** dc_simulate_read. */
    method Read(a: nat, width: nat, ci: bool) returns (value: int)
      requires Configured() && WidthOk(a, width)
      modifies tags, lrus, lines
      ensures Bypasses(ci) ==> value == Direct(main, a, width) && unchanged(tags, lrus, lines)
      ensures !Bypasses(ci) ==>
        Sets() == AccessedAt(old(Sets()), a, bs, nsets, ustates, BlockMapped(main, a, bs), false)
      ensures old(Coherent()) ==> Coherent()
      ensures old(Coherent()) && !Bypasses(ci) ==> value == if BlockMapped(main, a, bs) then Direct(main, a, width)
        else 0
    {
      hide View, LineAt, TagOf, SetOf, BlockMapped, Holds, Agree, Start, Word, Index, Promote, Refilled, Victim,
        FindLast, Direct;
      if Bypasses(ci) {
        return Direct(main, a, width);
      }
      var s := SetOf(a, bs, nsets);
      ghost var was, lined := Sets(), Lines();
      if old(Coherent()) { AgreeWhole(was, lined, bs, nsets, main); }
      var way := FindWay(s, TagOf(a, bs, nsets));
      if way >= 0 {
        PromoteWay(s, way);
        if old(Coherent()) { HitHolds(was, Lines(), a, way, Sets()[s].lrus); }
        value := Extract(s, way, a, width);
      } else {
        var minway := ReadVictim(s);
        var ok := Load(s, minway, a);
        if ok {
          value := Extract(s, minway, a, width);
        } else {
          value := 0;
        }
      }
    }

    /** Counters do not matter to coherence, and the way that was found holds the block. */
    lemma HitHolds(sets: seq<CacheSet>, lined: seq<seq<seq<int>>>, a: nat, way: nat, counters: seq<nat>)
      requires Configured() && Agree(sets, lined, bs, nsets, main)
      requires var c := sets[SetOf(a, bs, nsets)]; way < |c.tags| && c.tags[way] == TagOf(a, bs, nsets)
      ensures var s := SetOf(a, bs, nsets);
        Agree(sets[s := CacheSet(sets[s].tags, counters)], lined, bs, nsets, main) &&
        SetAgrees(sets[s], lined[s], s, bs, nsets, main) &&
          Holds(TagOf(a, bs, nsets), s, lined[s][way], bs, nsets, main) && WholeWords(main)
    {
    }

    /** The cached word after a write hit. */
    method Update(s: nat, way: nat, a: nat, data: nat, width: nat)
      requires Configured() && s < nsets && way < nways
      modifies lines
      ensures Lines() == MergedAt(old(Lines()), s, way, a, data, width)
    {
      hide LineAt, Merge;
      var k := Index(a, bs);
      LineWordAt(s, way, k);
      SetWord(s, way, k, Merge(lines[s, way, k], a % 4, data, width));
    }

    lemma LineWordAt(s: nat, w: nat, k: nat)
      requires Configured() && s < nsets && w < nways && k < bs / 4
      ensures LineAt(s, w)[k] == lines[s, w, k] && Lines()[s][w] == LineAt(s, w)
    {
    }

    ghost function MergedAt(lined: seq<seq<seq<int>>>, s: nat, way: nat, a: nat, data: nat,
      width: nat): seq<seq<seq<int>>>
      requires Configured() && s < |lined| && way < |lined[s]| && |lined[s][way]| == bs / 4
    {
      var k := Index(a, bs);
      lined[s := lined[s][way := lined[s][way][k := Merge(lined[s][way][k], a % 4, data, width)]]]
    }

    /** dc_simulate_write after memory has been written. */
    method WriteCached(a: nat, data: nat, width: nat, ghost before: Memory)
      requires Configured() && WidthOk(a, width) && data < 0x1_0000_0000 && main == Store(before, a, data, width) &&
        a in before
      modifies tags, lrus, lines
      ensures Sets() == AccessedAt(old(Sets()), a, bs, nsets, ustates, BlockMapped(main, a, bs), true)
      ensures old(Agree(Sets(), Lines(), bs, nsets, before)) ==> Coherent()
    {
      hide View, LineAt, TagOf, SetOf, BlockMapped, Holds, Agree, Start, Word, Index, Promote, Refilled, FindLast,
        Store, Merge, Aligned;
      ghost var was, lined := Sets(), Lines();
      var s := SetOf(a, bs, nsets);
      var way := FindWay(s, TagOf(a, bs, nsets));
      if way >= 0 {
        PromoteWay(s, way);
        Update(s, way, a, data, width);
        if Agree(was, lined, bs, nsets, before) {
          AgreeAfterWriteHit(was, lined, bs, nsets, before, a, data, width, way, Sets()[s].lrus);
        }
      } else {
        if Agree(was, lined, bs, nsets, before) { AgreeAfterStore(was, lined, bs, nsets, before, a, data, width); }
        var minway := ChooseWriteVictim(s);
        var ok := Load(s, minway, a);
      }
    }

    /** dc_simulate_write. */
    method Write(a: nat, data: nat, width: nat, ci: bool)
      requires Configured() && WidthOk(a, width) && data < 0x1_0000_0000
      modifies this`main, tags, lrus, lines
      ensures main == Store(old(main), a, data, width)
      ensures Bypasses(ci) || a !in main ==> unchanged(tags, lrus, lines)
      ensures !Bypasses(ci) && a in main ==>
        Sets() == AccessedAt(old(Sets()), a, bs, nsets, ustates, BlockMapped(main, a, bs), true)
      ensures old(Coherent()) && !Bypasses(ci) ==> Coherent()
      ensures old(Coherent()) && Bypasses(ci) ==>
        (Coherent() <==> Gone(Sets(), a, bs, nsets) || Word(main, Aligned(a)) == Word(old(main), Aligned(a)))
    {
      hide View, LineAt, BlockMapped, Agree, Word, Store, Aligned, AccessedAt, Gone, WidthOk;
      ghost var was, lined := Sets(), Lines();
      main := Store(main, a, data, width);
      NotStored(old(main), a, data, width);
      if old(Coherent()) && a in old(main) { BypassedStore(was, lined, bs, nsets, old(main), a, data, width); }
      if Bypasses(ci) || a !in main {
        return;
      }
      WriteCached(a, data, width, old(main));
    }

    /** dc_inv. */
    method Inv(a: nat)
      requires Configured()
      modifies tags, lrus
      ensures !present ==> unchanged(tags, lrus)
      ensures present ==> Sets() == InvalidatedAt(old(Sets()), a, bs, nsets, enabled)
      ensures old(Coherent()) ==> Coherent()
    {
      hide View, TagOf, SetOf, Agree, FindLast, Emptied;
      if !present {
        return;
      }
      var s := SetOf(a, bs, nsets);
      ghost var was, all := View(s), Sets();
      if old(Coherent()) { AgreeAfterInvalidate(Sets(), Lines(), bs, nsets, main, s, TagOf(a, bs, nsets), enabled); }
      if !enabled {
        assert all == all[s := View(s)];
        for i := 0 to nways
          invariant Sets() == all[s := View(s)] && EmptiedTo(View(s), i)
        {
          EmptiedStep(View(s), i);
          Drop(s, i);
        }
        assert View(s) == Fresh(nways);
        return;
      }
      var way := FindWay(s, TagOf(a, bs, nsets));
      if way >= 0 {
        Drop(s, way);
      } else {
        assert Sets() == all[s := was];
      }
    }
  }
}
