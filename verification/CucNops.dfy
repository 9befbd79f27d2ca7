/** Removing nops from the blocks of a function and inserting them, with every reference relocated. */
module CucNops {
  import opened CucInsn
  import opened CucFunc

  predicate IsNop(ins: Insn) { ins.index.Nop? }

  /** The instructions of a block that are no nops. */
  function Survivors(block: seq<Insn>): (s: seq<Insn>)
    ensures |s| <= |block|
  {
    if block == [] then []
    else
      var s, last := Survivors(block[..|block| - 1]), block[|block| - 1];
      if IsNop(last) then s else s + [last]
  }

  /** Where instruction `i` ends up: the number of survivors before it. */
  function Rank(block: seq<Insn>, i: nat): (n: nat)
    requires i <= |block|
    ensures n <= i
  {
    if i == 0 then 0 else Rank(block, i - 1) + if IsNop(block[i - 1]) then 0 else 1
  }

  lemma {:induction false} RankPrefix(block: seq<Insn>, k: nat, i: nat)
    requires i <= k <= |block|
    ensures Rank(block[..k], i) == Rank(block, i)
  {
    if i > 0 { RankPrefix(block, k, i - 1); }
  }

  lemma {:induction false} RankMonotone(block: seq<Insn>, i: nat, j: nat)
    requires i <= j <= |block|
    ensures Rank(block, i) <= Rank(block, j) <= Rank(block, i) + (j - i)
    ensures i < j && !IsNop(block[i]) ==> Rank(block, i) < Rank(block, j)
  {
    if i < j { RankMonotone(block, i, j - 1); }
  }

  lemma {:induction false} SurvivorsCount(block: seq<Insn>, i: nat)
    requires i <= |block|
    ensures |Survivors(block[..i])| == Rank(block, i)
  {
    if i > 0 {
      assert block[..i][..i - 1] == block[..i - 1];
      SurvivorsCount(block, i - 1);
    }
  }

  /** An instruction that is no nop is the survivor at its rank. */
  lemma {:induction false} SurvivorAt(block: seq<Insn>, i: nat)
    requires i < |block| && !IsNop(block[i])
    ensures Rank(block, i) < |Survivors(block)| && Survivors(block)[Rank(block, i)] == block[i]
  {
    var n := |block| - 1;
    SurvivorsCount(block, n);
    if i < n {
      SurvivorAt(block[..n], i);
      RankPrefix(block, n, i);
    }
  }

  /** Every survivor comes from somewhere. */
  lemma {:induction false} SurvivorFrom(block: seq<Insn>, k: nat) returns (i: nat)
    requires k < |Survivors(block)|
    ensures i < |block| && !IsNop(block[i]) && Rank(block, i) == k && Survivors(block)[k] == block[i]
  {
    var n := |block| - 1;
    SurvivorsCount(block, n);
    if k < |Survivors(block[..n])| {
      i := SurvivorFrom(block[..n], k);
      RankPrefix(block, n, i);
    } else {
      i := n;
    }
  }

  // ---- Relocation ----

  function MapOperand(o: Operand, g: int -> int): Operand { if o.Ref? then Ref(g(o.i)) else o }

  function MapList(s: seq<int>, g: int -> int): (r: seq<int>)
    ensures |r| == |s| && forall k :: 0 <= k < |s| ==> r[k] == g(s[k])
  {
    seq(|s|, k requires 0 <= k < |s| => g(s[k]))
  }

  /** All references of an instruction relocated. */
  function MapInsn(ins: Insn, g: int -> int): Insn {
    ins.(a0 := MapOperand(ins.a0, g), a1 := MapOperand(ins.a1, g), a2 := MapOperand(ins.a2, g), a3 :=
      MapOperand(ins.a3, g),
         dep := MapList(ins.dep, g))
  }

  function MapBlock(block: seq<Insn>, g: int -> int): (r: seq<Insn>)
    ensures |r| == |block| && forall i :: 0 <= i < |block| ==> r[i] == MapInsn(block[i], g)
  {
    seq(|block|, i requires 0 <= i < |block| => MapInsn(block[i], g))
  }

  function MapAll(bbs: Blocks, g: int -> int): (q: Blocks)
    ensures |q| == |bbs| && forall b :: 0 <= b < |bbs| ==> q[b] == MapBlock(bbs[b], g)
  {
    seq(|bbs|, b requires 0 <= b < |bbs| => MapBlock(bbs[b], g))
  }

  /** References of an instruction. */
  ghost predicate RefIn(ins: Insn, r: int) {
    ins.a0 == Ref(r) || ins.a1 == Ref(r) || ins.a2 == Ref(r) || ins.a3 == Ref(r) || r in ins.dep
  }

  ghost predicate RefsOk(bbs: Blocks) {
    Sized(bbs) && forall r, d :: IsRef(bbs, r) && RefIn(At(bbs, r), d) ==> IsRef(bbs, d)
  }

  /** Relocating twice, where the two relocations compose on the references there are. */
  lemma MapTwice(ins: Insn, g: int -> int, h: int -> int, k: int -> int)
    requires forall d :: RefIn(ins, d) ==> h(g(d)) == k(d)
    ensures MapInsn(MapInsn(ins, g), h) == MapInsn(ins, k)
  {
    forall i | 0 <= i < |ins.dep|
      ensures h(g(ins.dep[i])) == k(ins.dep[i])
    {
      assert RefIn(ins, ins.dep[i]);
    }
    assert MapInsn(MapInsn(ins, g), h).dep == MapInsn(ins, k).dep;
    var a, b, c, d := ins.a0, ins.a1, ins.a2, ins.a3;
    assert a.Ref? ==> RefIn(ins, a.i);
    assert b.Ref? ==> RefIn(ins, b.i);
    assert c.Ref? ==> RefIn(ins, c.i);
    assert d.Ref? ==> RefIn(ins, d.i);
  }

  lemma {:induction false} SurvivorsMapped(block: seq<Insn>, g: int -> int)
    ensures Survivors(MapBlock(block, g)) == MapBlock(Survivors(block), g)
  {
    var n := |block| - 1;
    if block != [] {
      assert MapBlock(block, g)[..n] == MapBlock(block[..n], g);
      SurvivorsMapped(block[..n], g);
    }
  }

  lemma {:induction false} RankMapped(block: seq<Insn>, g: int -> int, i: nat)
    requires i <= |block|
    ensures Rank(MapBlock(block, g), i) == Rank(block, i)
  {
    if i > 0 { RankMapped(block, g, i - 1); }
  }

  // ---- remove_nops ----

  /** Where a reference leads after the nops are gone. */
  function MoveRef(bbs: Blocks, r: int): int {
    if IsRef(bbs, r) then MakeRef(RefBb(r), Rank(bbs[RefBb(r)], RefI(r))) else r
  }

  /** The function without its nops. */
  function Compacted(bbs: Blocks): (q: Blocks)
    ensures |q| == |bbs| && forall b :: 0 <= b < |bbs| ==> q[b] == MapBlock(Survivors(bbs[b]), r => MoveRef(bbs, r))
  {
    seq(|bbs|, b requires 0 <= b < |bbs| => MapBlock(Survivors(bbs[b]), r => MoveRef(bbs, r)))
  }

  /** Every instruction that is no nop survives where its reference leads, with its own references led along. */
  lemma SurvivorKept(bbs: Blocks, r: int)
    requires Sized(bbs) && IsRef(bbs, r) && !IsNop(At(bbs, r))
    ensures IsRef(Compacted(bbs), MoveRef(bbs, r))
    ensures At(Compacted(bbs), MoveRef(bbs, r)) == MapInsn(At(bbs, r), d => MoveRef(bbs, d))
  {
    var b, i := RefBb(r), RefI(r);
    SurvivorAt(bbs[b], i);
    RefRoundTrip(b, Rank(bbs[b], i), b, 0);
  }

  /** No two survivors end up in one place. */
  lemma SurvivorsDistinct(bbs: Blocks, r: int, d: int)
    requires Sized(bbs) && IsRef(bbs, r) && IsRef(bbs, d) && !IsNop(At(bbs, r)) && !IsNop(At(bbs, d)) &&
      MoveRef(bbs, r) == MoveRef(bbs, d)
    ensures r == d
  {
    var b, i, c, j := RefBb(r), RefI(r), RefBb(d), RefI(d);
    RefRoundTrip(b, Rank(bbs[b], i), c, Rank(bbs[c], j));
    if i < j { RankMonotone(bbs[b], i, j); } else if j < i { RankMonotone(bbs[b], j, i); }
    RefUnpacked(r);
    RefUnpacked(d);
  }

  /** Nothing else is left. */
  lemma SurvivorSource(bbs: Blocks, p: int) returns (r: int)
    requires Sized(bbs) && IsRef(Compacted(bbs), p)
    ensures IsRef(bbs, r) && !IsNop(At(bbs, r)) && MoveRef(bbs, r) == p
  {
    var b, k := RefBb(p), RefI(p);
    var i := SurvivorFrom(bbs[b], k);
    RefRoundTrip(b, i, b, i);
    r := MakeRef(b, i);
    RefUnpacked(p);
  }

  // ---- Block by block ----

  /** A relocated reference denotes its original target if and only if that is no nop; otherwise it denotes another
      instruction or none. */
  lemma ReferenceKept(bbs: Blocks, d: int) returns (r: int)
    requires Sized(bbs) && IsRef(bbs, d)
    ensures IsRef(Compacted(bbs), MoveRef(bbs, d)) ==>
      IsRef(bbs, r) && !IsNop(At(bbs, r)) &&
      MoveRef(bbs, r) == MoveRef(bbs, d)
    ensures !IsNop(At(bbs, d)) <==> IsRef(Compacted(bbs), MoveRef(bbs, d)) && r == d
  {
    hide Compacted, MoveRef, RefBb, RefI;
    r := d;
    if IsRef(Compacted(bbs), MoveRef(bbs, d)) {
      r := SurvivorSource(bbs, MoveRef(bbs, d));
      if !IsNop(At(bbs, d)) {
        SurvivorsDistinct(bbs, r, d);
      }
    } else if !IsNop(At(bbs, d)) {
      SurvivorKept(bbs, d);
    }
  }

  /** The relocation after block `b` has been compacted: references into it go where its table says. */
  function TableMove(table: seq<nat>, b: nat, r: int): int {
    if r >= 0 && RefBb(r) == b && RefI(r) < |table| then MakeRef(b, table[RefI(r)]) else r
  }

  function Ranks(block: seq<Insn>): (t: seq<nat>)
    ensures |t| == |block| && forall i :: 0 <= i < |block| ==> t[i] == Rank(block, i)
  {
    seq(|block|, i requires 0 <= i < |block| => Rank(block, i))
  }

  function PartMove(bbs: Blocks, b: nat, r: int): int { if r >= 0 && RefBb(r) < b then MoveRef(bbs, r) else r }

  /** The function when the first `b` blocks are done. */
  function PartCompacted(bbs: Blocks, b: nat): (q: Blocks)
    requires b <= |bbs|
    ensures |q| == |bbs|
    ensures forall c :: 0 <= c < |bbs| ==>
      q[c] == MapBlock(if c < b then Survivors(bbs[c]) else bbs[c], r => PartMove(bbs, b, r))
  {
    seq(|bbs|, c requires 0 <= c < |bbs| => MapBlock(if c < b then Survivors(bbs[c])
      else bbs[c], r => PartMove(bbs, b, r)))
  }

  lemma RefsOf(bbs: Blocks, c: nat, i: nat, d: int)
    requires RefsOk(bbs) && c < |bbs| && i < |bbs[c]| && RefIn(bbs[c][i], d)
    ensures IsRef(bbs, d)
  {
    RefRoundTrip(c, i, c, i);
    assert At(bbs, MakeRef(c, i)) == bbs[c][i];
  }

  lemma MoveStep(bbs: Blocks, b: nat, d: int)
    requires Sized(bbs) && b < |bbs| && IsRef(bbs, d)
    ensures TableMove(Ranks(bbs[b]), b, PartMove(bbs, b, d)) == PartMove(bbs, b + 1, d)
  {
  }

  /** One more block: it is compacted, and every reference into it is moved. */
  lemma PartStep(bbs: Blocks, b: nat)
    requires RefsOk(bbs) && b < |bbs|
    ensures
      var p := PartCompacted(bbs, b);
      Ranks(p[b]) == Ranks(bbs[b]) &&
      MapAll(p[b := Survivors(p[b])], r => TableMove(Ranks(p[b]), b, r)) == PartCompacted(bbs, b + 1)
  {
    hide RefBb, RefI, MakeRef, PartMove, TableMove, Rank, Survivors, MapInsn;
    var p := PartCompacted(bbs, b);
    var g := r => PartMove(bbs, b, r);
    forall i | 0 <= i < |bbs[b]|
      ensures Rank(p[b], i) == Rank(bbs[b], i)
    {
      RankMapped(bbs[b], g, i);
    }
    assert Ranks(p[b]) == Ranks(bbs[b]);
    SurvivorsMapped(bbs[b], g);
    var q := p[b := Survivors(p[b])];
    var h := r => TableMove(Ranks(p[b]), b, r);
    forall c | 0 <= c < |bbs|
      ensures MapBlock(q[c], h) == PartCompacted(bbs, b + 1)[c]
    {
      var from := if c < b + 1 then Survivors(bbs[c]) else bbs[c];
      assert q[c] == MapBlock(from, g);
      forall i | 0 <= i < |from|
        ensures MapInsn(MapInsn(from[i], g), h) == MapInsn(from[i], r => PartMove(bbs, b + 1, r))
      {
        var j := if c < b + 1 then SourceOf(bbs[c], i) else i;
        forall d | RefIn(from[i], d)
          ensures h(g(d)) == PartMove(bbs, b + 1, d)
        {
          RefsOf(bbs, c, j, d);
          MoveStep(bbs, b, d);
        }
        MapTwice(from[i], g, h, r => PartMove(bbs, b + 1, r));
      }
    }
  }

  lemma HasSource(block: seq<Insn>, k: nat)
    requires k < |Survivors(block)|
    ensures exists i :: 0 <= i < |block| && Survivors(block)[k] == block[i]
  {
  }

  ghost function SourceOf(block: seq<Insn>, k: nat): (i: nat)
    requires k < |Survivors(block)|
    ensures i < |block| && Survivors(block)[k] == block[i]
  {
    HasSource(block, k);
    var i :| 0 <= i < |block| && Survivors(block)[k] == block[i];
    i
  }

  lemma PartStart(bbs: Blocks)
    ensures PartCompacted(bbs, 0) == bbs
  {
    var q := PartCompacted(bbs, 0);
    forall c | 0 <= c < |bbs|
      ensures q[c] == bbs[c]
    {
      forall i | 0 <= i < |bbs[c]|
        ensures MapInsn(bbs[c][i], r => PartMove(bbs, 0, r)) == bbs[c][i]
      {
        assert MapList(bbs[c][i].dep, r => PartMove(bbs, 0, r)) == bbs[c][i].dep;
      }
    }
  }

  lemma PartEnd(bbs: Blocks)
    requires RefsOk(bbs)
    ensures PartCompacted(bbs, |bbs|) == Compacted(bbs)
  {
    hide RefBb, RefI, MakeRef, Rank, Survivors;
    forall c | 0 <= c < |bbs|
      ensures PartCompacted(bbs, |bbs|)[c] == Compacted(bbs)[c]
    {
      var s := Survivors(bbs[c]);
      forall i | 0 <= i < |s|
        ensures MapInsn(s[i], r => PartMove(bbs, |bbs|, r)) == MapInsn(s[i], r => MoveRef(bbs, r))
      {
        SameMap(s[i], r => PartMove(bbs, |bbs|, r), r => MoveRef(bbs, r));
      }
    }
  }

  lemma SameMap(ins: Insn, g: int -> int, h: int -> int)
    requires forall d :: RefIn(ins, d) ==> g(d) == h(d)
    ensures MapInsn(ins, g) == MapInsn(ins, h)
  {
    MapSame(ins);
    MapTwice(ins, d => d, g, h);
  }

  lemma MapSame(ins: Insn)
    ensures MapInsn(ins, d => d) == ins
  {
  }

  // ---- insert_insns ----

  function Nops(n: nat): (s: seq<Insn>)
    ensures |s| == n && forall i :: 0 <= i < n ==> s[i] == NOP_INSN
  {
    seq(n, _ => NOP_INSN)
  }

  /** References at or behind the insertion point move behind the inserted nops. */
  function ShiftRef(b: nat, ins: nat, n: nat, r: int): int {
    if r >= 0 && RefBb(r) == b && RefI(r) >= ins then MakeRef(b, RefI(r) + n) else r
  }

  function Inserted(bbs: Blocks, b: nat, ins: nat, n: nat): (q: Blocks)
    requires b < |bbs| && ins <= |bbs[b]|
    ensures |q| == |bbs|
  {
    MapAll(bbs[b := bbs[b][..ins] + Nops(n) + bbs[b][ins..]], r => ShiftRef(b, ins, n, r))
  }

  ghost predicate NoNops(bbs: Blocks) { forall r :: IsRef(bbs, r) ==> !IsNop(At(bbs, r)) }

  lemma {:induction false} RankWithout(block: seq<Insn>, i: nat)
    requires i <= |block| && forall k :: 0 <= k < i ==> !IsNop(block[k])
    ensures Rank(block, i) == i
  {
    if i > 0 { RankWithout(block, i - 1); }
  }

  /** With a gap of nops, ranks behind it are short by its length. */
  lemma {:induction false} RankGap(block: seq<Insn>, ins: nat, n: nat, i: nat)
    requires ins + n <= |block| && i <= |block|
    requires forall k :: 0 <= k < |block| ==> (IsNop(block[k]) <==> ins <= k < ins + n)
    ensures Rank(block, i) == if i <= ins then i else if i <= ins + n then ins else i - n
  {
    if i > 0 { RankGap(block, ins, n, i - 1); }
  }

  /** The survivors of a block with a gap of nops are the rest. */
  lemma SurvivorsGap(block: seq<Insn>, ins: nat, n: nat)
    requires ins + n <= |block|
    requires forall k :: 0 <= k < |block| ==> (IsNop(block[k]) <==> ins <= k < ins + n)
    ensures Survivors(block) == block[..ins] + block[ins + n..]
  {
    hide Survivors, Rank, IsNop;
    SurvivorsCount(block, |block|);
    assert block[..|block|] == block;
    RankGap(block, ins, n, |block|);
    var s, u := Survivors(block), block[..ins] + block[ins + n..];
    assert |s| == |u|;
    forall k | 0 <= k < |u|
      ensures s[k] == u[k]
    {
      SurvivorInGap(block, ins, n, k);
    }
  }

  lemma SurvivorInGap(block: seq<Insn>, ins: nat, n: nat, k: nat)
    requires ins + n <= |block| && k < |block| - n
    requires forall k :: 0 <= k < |block| ==> (IsNop(block[k]) <==> ins <= k < ins + n)
    ensures var i := if k < ins then k else k + n; k < |Survivors(block)| && Survivors(block)[k] == block[i]
  {
    hide Survivors, Rank, IsNop;
    var i := if k < ins then k else k + n;
    assert !IsNop(block[i]);
    RankGap(block, ins, n, i);
    SurvivorAt(block, i);
  }

  /** Where the relocations of insertion and removal lead back. */
  lemma ShiftBack(bbs: Blocks, b: nat, ins: nat, n: nat, d: int)
    requires Sized(bbs) && NoNops(bbs) && b < |bbs| && ins <= |bbs[b]| && |bbs[b]| + n < MAX_INSNS && IsRef(bbs, d)
    ensures MoveRef(Inserted(bbs, b, ins, n), ShiftRef(b, ins, n, d)) == d
  {
    hide RefBb, RefI, MakeRef, Rank, MapInsn;
    var q := Inserted(bbs, b, ins, n);
    var c, i := RefBb(d), RefI(d);
    RefUnpacked(d);
    BlockShapes(bbs, b, ins, n);
    if c == b {
      var j := if i >= ins then i + n else i;
      RefRoundTrip(b, j, b, j);
      RankGap(q[b], ins, n, j);
    } else {
      RankWithout(q[c], i);
    }
  }

  /** Which instructions are nops after the insertion. */
  lemma BlockShapes(bbs: Blocks, b: nat, ins: nat, n: nat)
    requires Sized(bbs) && NoNops(bbs) && b < |bbs| && ins <= |bbs[b]|
    ensures var q := Inserted(bbs, b, ins, n);
      |q[b]| == |bbs[b]| + n && (forall k :: 0 <= k < |q[b]| ==> (IsNop(q[b][k]) <==> ins <= k < ins + n)) &&
      forall c :: 0 <= c < |bbs| && c != b ==> |q[c]| == |bbs[c]| && forall k :: 0 <= k < |q[c]| ==> !IsNop(q[c][k])
  {
    forall c, k | 0 <= c < |bbs| && 0 <= k < |bbs[c]|
      ensures !IsNop(bbs[c][k])
    {
      RefRoundTrip(c, k, c, k);
      assert !IsNop(At(bbs, MakeRef(c, k)));
    }
  }

  /** Inserting nops and removing them again leaves every block, operand and dependency list as it was. */
  lemma InsertThenRemove(bbs: Blocks, b: nat, ins: nat, n: nat)
    requires RefsOk(bbs) && NoNops(bbs) && b < |bbs| && ins <= |bbs[b]| && |bbs[b]| + n < MAX_INSNS
    ensures Compacted(Inserted(bbs, b, ins, n)) == bbs
  {
    hide RefBb, RefI, MakeRef, Rank, MapInsn, Survivors, ShiftRef, MoveRef;
    var q := Inserted(bbs, b, ins, n);
    var wide := bbs[b := bbs[b][..ins] + Nops(n) + bbs[b][ins..]];
    var g := r => ShiftRef(b, ins, n, r);
    var h := r => MoveRef(q, r);
    BlockShapes(bbs, b, ins, n);
    forall c | 0 <= c < |bbs|
      ensures MapBlock(Survivors(q[c]), h) == bbs[c]
    {
      SurvivorsGap(q[c], if c == b then ins else 0, if c == b then n else 0);
      assert Survivors(q[c]) == MapBlock(bbs[c], g);
      forall i | 0 <= i < |bbs[c]|
        ensures MapInsn(MapInsn(bbs[c][i], g), h) == bbs[c][i]
      {
        forall d | RefIn(bbs[c][i], d)
          ensures h(g(d)) == d
        {
          RefsOf(bbs, c, i, d);
          ShiftBack(bbs, b, ins, n, d);
        }
        MapTwice(bbs[c][i], g, h, d => d);
        MapSame(bbs[c][i]);
      }
    }
  }

  // ---- The passes ----

  /** The non-nops of one block move down over the nops; `reloc` records where each instruction went. */
  method CompactBlock(f: Func, b: nat, reloc: array<nat>)
    requires b < |f.bb| && |f.bb[b]| <= reloc.Length
    modifies f`bb, reloc
    ensures f.bb == old(f.bb)[b := Survivors(old(f.bb[b]))]
    ensures reloc[..|old(f.bb[b])|] == Ranks(old(f.bb[b]))
  {
    hide Survivors, Rank;
    ghost var was, block := f.bb, f.bb[b];
    var n := |f.bb[b]|;
    var d := 0;
    RankStart(block);
    for i := 0 to n
      invariant |f.bb| == |was| && d == Rank(block, i) && |f.bb[b]| == n && f.bb == was[b := f.bb[b]]
      invariant forall k :: 0 <= k < d ==> f.bb[b][k] == Survivors(block)[k]
      invariant forall k :: i <= k < n ==> f.bb[b][k] == block[k]
      invariant forall k :: 0 <= k < i ==> reloc[k] == Rank(block, k)
    {
      RankNext(block, i);
      reloc[i] := d;
      if !IsNop(f.bb[b][i]) {
        SurvivorAt(block, i);
        f.bb := f.bb[b := f.bb[b][d := f.bb[b][i]]];
        d := d + 1;
      }
    }
    SurvivorsCount(block, n);
    assert block[..n] == block;
    f.bb := f.bb[b := f.bb[b][..d]];
    assert f.bb[b] == Survivors(block);
  }

  lemma RankStart(block: seq<Insn>)
    ensures Rank(block, 0) == 0
    ensures Rank(block, |block|) == |Survivors(block)|
    ensures forall i :: 0 <= i <= |block| ==> Rank(block, i) <= |Survivors(block)|
  {
    assert block[..|block|] == block;
    SurvivorsCount(block, |block|);
    forall i | 0 <= i <= |block|
      ensures Rank(block, i) <= |Survivors(block)|
    {
      RankMonotone(block, i, |block|);
    }
  }

  lemma RankNext(block: seq<Insn>, i: nat)
    requires i < |block|
    ensures Rank(block, i + 1) == Rank(block, i) + if IsNop(block[i]) then 0 else 1
  {
  }

  /** Every reference of every instruction is relocated. */
  method RelocateAll(f: Func, g: int -> int)
    modifies f`bb
    ensures f.bb == MapAll(old(f.bb), g)
  {
    ghost var was := f.bb;
    for c := 0 to |f.bb|
      invariant |f.bb| == |was| && forall k :: 0 <= k < |was| ==> f.bb[k] == if k < c then MapBlock(was[k], g)
        else was[k]
    {
      for i := 0 to |f.bb[c]|
        invariant |f.bb| == |was| && |f.bb[c]| == |was[c]| &&
          (forall k :: 0 <= k < |was| && k != c ==> f.bb[k] == if k < c then MapBlock(was[k], g) else was[k])
        invariant forall k :: 0 <= k < |was[c]| ==> f.bb[c][k] == if k < i then MapInsn(was[c][k], g) else was[c][k]
      {
        f.bb := f.bb[c := f.bb[c][i := MapInsn(f.bb[c][i], g)]];
      }
    }
  }

  /** remove_nops. */
  method RemoveNops(f: Func, reloc: array<nat>) returns (modified: bool)
    requires RefsOk(f.bb) && reloc.Length >= MAX_INSNS
    modifies f`bb, reloc
    ensures f.bb == Compacted(old(f.bb))
    ensures modified <==> exists b :: 0 <= b < |f.bb| && |f.bb[b]| != |old(f.bb)[b]|
  {
    hide Survivors, Rank, MapInsn, PartMove, MoveRef, RefIn;
    ghost var was := f.bb;
    PartStart(was);
    modified := false;
    for b := 0 to |f.bb|
      invariant |f.bb| == |was| && f.bb == PartCompacted(was, b)
      invariant modified <==> exists c :: 0 <= c < b && |Survivors(was[c])| != |was[c]|
    {
      PartStep(was, b);
      var n := |f.bb[b]|;
      SurvivorsMapped(was[b], r => PartMove(was, b, r));
      CompactBlock(f, b, reloc);
      if n != |f.bb[b]| {
        modified := true;
      }
      var table := reloc[..n];
      RelocateAll(f, r => TableMove(table, b, r));
    }
    PartEnd(was);
  }

  /** insert_insns: `n` nops before instruction `r`. */
  method InsertInsns(f: Func, r: nat, n: nat, reloc: array<nat>)
    requires RefsOk(f.bb) && RefBb(r) < |f.bb| && RefI(r) <= |f.bb[RefBb(r)]| &&
      |f.bb[RefBb(r)]| + n < MAX_INSNS <= reloc.Length
    requires f.nmsched <= f.msched.Length && forall k :: 0 <= k < f.nmsched ==> IsRef(f.bb, f.msched[k])
    modifies f`bb, f.msched, reloc
    ensures f.bb == Inserted(old(f.bb), RefBb(r), RefI(r), n)
    ensures forall k :: 0 <= k < f.nmsched ==> f.msched[k] == ShiftRef(RefBb(r), RefI(r), n, old(f.msched[k]))
  {
    hide RefBb, RefI, MakeRef, MapInsn;
    var b, ins := RefBb(r), RefI(r);
    ghost var was := f.bb;
    OpenGap(f, b, ins, n, reloc);
    RelocateAll(f, d => ShiftRef(b, ins, n, d));
    for i := 0 to f.nmsched
      invariant f.bb == Inserted(was, b, ins, n)
      invariant forall k :: 0 <= k < |was[b]| ==> reloc[k] == if k < ins then k else k + n
      invariant forall k :: 0 <= k < f.nmsched ==>
        f.msched[k] == if k < i then ShiftRef(b, ins, n, old(f.msched[k])) else old(f.msched[k])
    {
      assert IsRef(was, f.msched[i]);
      if RefBb(f.msched[i]) == b {
        RefUnpacked(f.msched[i]);
        f.msched[i] := MakeRef(b, reloc[RefI(f.msched[i])]);
      }
    }
  }

  /** The instructions from `ins` on move up by `n` places, the last one first, and the gap is filled with nops. */
  method OpenGap(f: Func, b: nat, ins: nat, n: nat, reloc: array<nat>)
    requires b < |f.bb| && ins <= |f.bb[b]| <= reloc.Length
    modifies f`bb, reloc
    ensures f.bb == old(f.bb)[b := old(f.bb[b])[..ins] + Nops(n) + old(f.bb[b])[ins..]]
    ensures forall i :: 0 <= i < |old(f.bb[b])| ==> reloc[i] == if i < ins then i else i + n
  {
    ghost var was, block := f.bb, f.bb[b];
    var m := |f.bb[b]|;
    f.bb := f.bb[b := f.bb[b] + Nops(n)];
    for i := 0 to m
      invariant f.bb == was[b := block + Nops(n)]
      invariant forall k :: 0 <= k < i ==> reloc[k] == if k < ins then k else k + n
    {
      reloc[i] := if i < ins then i else i + n;
    }
    for i := m downto 0
      invariant |f.bb| == |was| && f.bb == was[b := f.bb[b]] && |f.bb[b]| == m + n
      invariant forall k :: 0 <= k < m ==> reloc[k] == if k < ins then k else k + n
      invariant forall k :: 0 <= k < m && (k < i || k < ins) ==> f.bb[b][k] == block[k]
      invariant forall k :: ins + n <= k < m + n && i + n <= k ==> f.bb[b][k] == block[k - n]
    {
      f.bb := f.bb[b := f.bb[b][reloc[i] := f.bb[b][i]]];
    }
    for i := 0 to n
      invariant |f.bb| == |was| && f.bb == was[b := f.bb[b]] && |f.bb[b]| == m + n
      invariant forall k :: 0 <= k < ins ==> f.bb[b][k] == block[k]
      invariant forall k :: ins <= k < ins + i ==> f.bb[b][k] == NOP_INSN
      invariant forall k :: ins + n <= k < m + n ==> f.bb[b][k] == block[k - n]
      invariant forall k :: 0 <= k < m ==> reloc[k] == if k < ins then k else k + n
    {
      f.bb := f.bb[b := f.bb[b][ins + i := ChangeType(f.bb[b][ins + i], Nop)]];
    }
    assert f.bb[b] == block[..ins] + Nops(n) + block[ins..];
  }
}
