/** Basic blocks of instructions and the references between them. */
module CucFunc {
  import opened CucInsn

  type Blocks = seq<seq<Insn>>

  /** A reference packs a block number and an index in the block. */
  function MakeRef(b: nat, i: nat): (r: nat) { b * MAX_INSNS + i }

  function RefBb(r: nat): nat { r / MAX_INSNS }

  function RefI(r: nat): (i: nat)
    ensures i < MAX_INSNS
  {
    r % MAX_INSNS
  }

  /** Packing and unpacking are inverse for indices below the limit, and references order as the program does. */
  lemma RefRoundTrip(b: nat, i: nat, b': nat, i': nat)
    requires i < MAX_INSNS && i' < MAX_INSNS
    ensures RefBb(MakeRef(b, i)) == b && RefI(MakeRef(b, i)) == i
    ensures MakeRef(b, i) < MakeRef(b', i') <==> b < b' || (b == b' && i < i')
    ensures MakeRef(b, i) == MakeRef(b', i') <==> b == b' && i == i'
  {
  }

  lemma RefUnpacked(r: nat)
    ensures MakeRef(RefBb(r), RefI(r)) == r
  {
  }

  /** Beyond the limit two different places share a reference. */
  lemma RefLimit(b: nat, i: nat)
    ensures (RefBb(MakeRef(b, i)) == b && RefI(MakeRef(b, i)) == i) <==> i < MAX_INSNS
  {
  }

  predicate IsRef(bbs: Blocks, r: int) { r >= 0 && RefBb(r) < |bbs| && RefI(r) < |bbs[RefBb(r)]| }

  function At(bbs: Blocks, r: int): (ins: Insn)
    requires IsRef(bbs, r)
  {
    bbs[RefBb(r)][RefI(r)]
  }

  ghost predicate Sized(bbs: Blocks) { forall b :: 0 <= b < |bbs| ==> |bbs[b]| < MAX_INSNS }

  /** The same function with one instruction replaced. */
  function Put(bbs: Blocks, r: int, ins: Insn): (q: Blocks)
    requires IsRef(bbs, r)
    ensures |q| == |bbs| && forall b :: 0 <= b < |bbs| ==> |q[b]| == |bbs[b]|
    ensures forall r' :: IsRef(q, r') <==> IsRef(bbs, r')
    ensures forall r' :: IsRef(bbs, r') ==> At(q, r') == if r' == r then ins else At(bbs, r')
  {
    var b, i := RefBb(r), RefI(r);
    assert forall r': int :: r' >= 0 && RefBb(r') == b && RefI(r') == i ==> r' == r by {
      forall r': int | r' >= 0 && RefBb(r') == b && RefI(r') == i ensures r' == r {
        RefUnpacked(r');
        RefUnpacked(r);
      }
    }
    bbs[b := bbs[b][i := ins]]
  }

  // ---- Blocks as tables of instructions ----

  /** Blocks with the same instructions at the same references are the same. */
  lemma SameBlocks(p: Blocks, q: Blocks)
    requires Sized(p) && |p| == |q| && forall b :: 0 <= b < |p| ==> |p[b]| == |q[b]|
    requires forall r :: IsRef(p, r) ==> At(p, r) == At(q, r)
    ensures p == q
  {
    forall b, i | 0 <= b < |p| && 0 <= i < |p[b]|
      ensures p[b][i] == q[b][i]
    {
      RefRoundTrip(b, i, b, i);
      assert At(p, MakeRef(b, i)) == p[b][i] && At(q, MakeRef(b, i)) == q[b][i];
    }
    assert forall b :: 0 <= b < |p| ==> p[b] == q[b];
  }

  /** Every instruction `r` replaced by `g(r)`. */
  function Rebuild(bbs: Blocks, g: int -> Insn): (q: Blocks)
    ensures |q| == |bbs| && forall b :: 0 <= b < |bbs| ==> |q[b]| == |bbs[b]|
    ensures forall b, i :: 0 <= b < |bbs| && 0 <= i < |bbs[b]| ==> q[b][i] == g(MakeRef(b, i))
  {
    seq(|bbs|, b requires 0 <= b < |bbs| => seq(|bbs[b]|, i requires 0 <= i < |bbs[b]| => g(MakeRef(b, i))))
  }

  lemma RebuiltAt(bbs: Blocks, g: int -> Insn)
    ensures forall r :: IsRef(Rebuild(bbs, g), r) <==> IsRef(bbs, r)
    ensures forall r :: IsRef(bbs, r) ==> At(Rebuild(bbs, g), r) == g(r)
  {
  }

  // ---- Marks ----

  function SetFlag(ins: Insn, flag: Flag,
    on: bool): Insn { ins.(ty := if on then ins.ty + {flag} else ins.ty - {flag}) }

  /** The function with exactly these instructions marked. */
  ghost function Flagged(flag: Flag, bbs: Blocks, flagged: set<int>): (q: Blocks)
    ensures |q| == |bbs|
  {
    Rebuild(bbs, r => if IsRef(bbs, r) then SetFlag(At(bbs, r), flag, r in flagged) else NOP_INSN)
  }

  ghost function FlagSet(flag: Flag, bbs: Blocks): set<int> {
    set b, i | 0 <= b < |bbs| && 0 <= i < |bbs[b]| && flag in bbs[b][i].ty :: MakeRef(b, i)
  }

  lemma FlaggedAt(flag: Flag, bbs: Blocks, flagged: set<int>)
    ensures forall r :: IsRef(Flagged(flag, bbs, flagged), r) <==> IsRef(bbs, r)
    ensures forall r :: IsRef(bbs, r) ==> At(Flagged(flag, bbs, flagged), r) == SetFlag(At(bbs, r), flag, r in flagged)
    ensures |Flagged(flag, bbs, flagged)| == |bbs| && forall b :: 0 <= b < |bbs| ==>
      |Flagged(flag, bbs, flagged)[b]| == |bbs[b]|
    ensures Sized(bbs) ==> Sized(Flagged(flag, bbs, flagged))
  {
    hide RefBb, RefI, Rebuild;
    RebuiltAt(bbs, r => if IsRef(bbs, r) then SetFlag(At(bbs, r), flag, r in flagged) else NOP_INSN);
  }

  /** The blocks with their own marks. */
  lemma FlaggedSame(flag: Flag, bbs: Blocks)
    requires Sized(bbs)
    ensures Flagged(flag, bbs, FlagSet(flag, bbs)) == bbs
  {
    hide Flagged, RefBb, RefI, MakeRef;
    var q := Flagged(flag, bbs, FlagSet(flag, bbs));
    FlaggedAt(flag, bbs, FlagSet(flag, bbs));
    forall r | IsRef(bbs, r)
      ensures At(q, r) == At(bbs, r)
    {
      FlagSetAt(flag, bbs, r);
      assert flag in At(bbs, r).ty ==> At(bbs, r).ty + {flag} == At(bbs, r).ty;
      assert flag !in At(bbs, r).ty ==> At(bbs, r).ty - {flag} == At(bbs, r).ty;
    }
    SameBlocks(bbs, q);
  }

  lemma FlagSetAt(flag: Flag, bbs: Blocks, r: int)
    requires Sized(bbs) && IsRef(bbs, r)
    ensures r in FlagSet(flag, bbs) <==> flag in At(bbs, r).ty
  {
  }

  lemma FlaggedSizes(flag: Flag, bbs: Blocks, flagged: set<int>)
    ensures |Flagged(flag, bbs, flagged)| == |bbs| && forall b :: 0 <= b < |bbs| ==>
      |Flagged(flag, bbs, flagged)[b]| == |bbs[b]|
  {
  }

  lemma PutSame(p: Blocks, r: int)
    requires IsRef(p, r)
    ensures Put(p, r, At(p, r)) == p
  {
    assert p[RefBb(r)][RefI(r) := p[RefBb(r)][RefI(r)]] == p[RefBb(r)];
  }

  lemma PutTwice(p: Blocks, r: int, a: Insn, b: Insn)
    requires IsRef(p, r)
    ensures Put(Put(p, r, a), r, b) == Put(p, r, b)
  {
    var k, i := RefBb(r), RefI(r);
    assert p[k][i := a][i := b] == p[k][i := b];
    assert p[k := p[k][i := a]][k := p[k][i := b]] == p[k := p[k][i := b]];
  }

  // ---- The function record ----

  class Func {
    /** The basic blocks' instructions. */
    var bb: Blocks
    /** The schedule of memory accesses, in the first `nmsched` places. */
    const msched: array<int>
    var nmsched: nat

    constructor (bb: Blocks, limit: nat)
      ensures this.bb == bb && msched.Length == limit && nmsched == 0 && fresh(msched)
    {
      this.bb := bb;
      nmsched := 0;
      msched := new int[limit];
    }

    /** One instruction changes. */
    method SetInsn(r: int, ins: Insn)
      requires IsRef(bb, r)
      modifies this`bb
      ensures bb == Put(old(bb), r, ins)
    {
      bb := bb[RefBb(r) := bb[RefBb(r)][RefI(r) := ins]];
    }
  }

  /** The mark of one instruction is set or cleared. */
  method Mark(f: Func, flag: Flag, r: int, on: bool, ghost was: Blocks, ghost flagged: set<int>)
    requires Sized(was) && IsRef(was, r) && f.bb == Flagged(flag, was, flagged)
    modifies f`bb
    ensures f.bb == Flagged(flag, was, if on then flagged + {r} else flagged - {r})
  {
    hide RefBb, RefI, Put, Flagged;
    FlaggedAt(flag, was, flagged);
    FlaggedAt(flag, was, if on then flagged + {r} else flagged - {r});
    f.SetInsn(r, SetFlag(At(f.bb, r), flag, on));
    SameBlocks(Flagged(flag, was, if on then flagged + {r} else flagged - {r}), f.bb);
  }
}
