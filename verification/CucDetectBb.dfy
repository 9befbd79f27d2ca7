/** detect_bb, on the instruction array and the block array. */
module CucDetectBb {
  import opened CucInsn
  import opened CucGraph
  import opened CucBlocks

  const BBID_START := 0x1000
  const BBID_END := 0x1001

  datatype Bb = Bb(first: int, last: int, next0: int, next1: int, prev0: int, prev1: int, tmp: int)

  // ---- Marks ----

  ghost predicate StartBy(code: Code, k: int, n: nat) {
    (0 < k < n && k <= |code| && IsBranch(code[k - 1])) || TargetedBy(code, k, n)
  }

  ghost predicate EndBy(code: Code, k: int, n: nat) {
    (0 <= k < n && k < |code| && IsBranch(code[k])) || TargetedBy(code, k + 1, n)
  }

  function Mark(ins: Insn, start: bool, end: bool): Insn {
    ins.(ty := ins.ty + (if start then {FBbStart} else {}) + (if end then {FBbEnd} else {}))
  }

  lemma TargetNext(code: Code, k: int, n: nat)
    requires n < |code|
    ensures TargetedBy(code, k, n + 1) <==> TargetedBy(code, k, n) || (IsBranch(code[n]) && code[n].a0 == Jump(k))
  {
  }

  class Detector {
    /** The instructions of the function. */
    const insn: array<Insn>
    /** Its basic blocks, in the first `numBb` places. */
    const bb: array<Bb>
    const reloc: array<nat>
    var numBb: nat

    constructor (code: Code, limit: nat)
      ensures insn[..] == code && bb.Length == limit == reloc.Length && numBb == 0 && fresh(insn) && fresh(bb) &&
        fresh(reloc)
    {
      insn := new Insn[|code|](i requires 0 <= i < |code| => code[i]);
      bb := new Bb[limit](_ => Bb(0, 0, 0, 0, 0, 0, 0));
      reloc := new nat[limit](_ => 0);
      numBb := 0;
    }

    /** The instructions are those of `code` with these start and end marks. */
    ghost predicate Marks(code: Code, start: seq<bool>, end: seq<bool>)
      reads insn
    {
      insn.Length == |code| == |start| == |end| && forall k :: 0 <= k < |code| ==>
        insn[k] == Mark(code[k], start[k], end[k])
    }

    method MarkStart(k: nat, ghost code: Code, ghost start: seq<bool>, ghost end: seq<bool>)
      requires Marks(code, start, end) && k < |code|
      modifies insn
      ensures Marks(code, start[k := true], end)
    {
      insn[k] := Mark(insn[k], true, false);
    }

    method MarkEnd(k: nat, ghost code: Code, ghost start: seq<bool>, ghost end: seq<bool>)
      requires Marks(code, start, end) && k < |code|
      modifies insn
      ensures Marks(code, start, end[k := true])
    {
      insn[k] := Mark(insn[k], false, true);
    }

    /** Starts and ends of blocks; false if a jump leads out of the function. */
    method MarkLimits(ghost code: Code) returns (ok: bool)
      requires CodeOk(code) && insn[..] == code
      modifies insn
      ensures ok <==> JumpsInside(code)
      ensures ok ==> insn.Length == |code| && forall k :: 0 <= k < |code| ==>
        insn[k] == Mark(code[k], IsStart(code, k), IsEnd(code, k))
    {
      hide TargetedBy, Marks, StartBy, EndBy, InsnOk, IsStart, IsEnd;
      var endBb := false;
      ghost var start, end := seq(|code|, _ => false), seq(|code|, _ => false);
      Unmarked(code, start, end);
      NoMarks(code);
      for i := 0 to insn.Length
        invariant insn.Length == |code| == |start| == |end| && Marks(code, start, end)
        invariant endBb == (i > 0 && IsBranch(code[i - 1]))
        invariant forall k :: 0 <= k < |code| ==> start[k] == StartBy(code, k, i)
        invariant forall k :: 0 <= k < |code| ==> end[k] == EndBy(code, k, i)
        invariant forall k :: 0 <= k < i && IsBranch(code[k]) ==> Inside(code, k)
      {
        ghost var start0, end0 := start, end;
        MarksStep(code, i, start, end);
        if endBb {
          MarkStart(i, code, start, end);
          start := start[i := true];
        }
        endBb := false;
        Marked(code, start, end, i);
        if IsBranch(insn[i]) {
          var jt := insn[i].a0.i;
          MarkEnd(i, code, start, end);
          end := end[i := true];
          endBb := true;
          if jt < 0 || jt >= insn.Length {
            return false;
          }
          if jt > 0 {
            MarkEnd(jt - 1, code, start, end);
            end := end[jt - 1 := true];
          }
          MarkStart(jt, code, start, end);
          start := start[jt := true];
        }
        assert start == NextStart(code, i, start0) && end == NextEnd(code, i, end0);
      }
      MarkStart(0, code, start, end);
      start := start[0 := true];
      MarkEnd(insn.Length - 1, code, start, end);
      end := end[|code| - 1 := true];
      MarksAll(code);
      AllMarked(code, start, end);
      ok := true;
    }

    lemma Unmarked(code: Code, start: seq<bool>, end: seq<bool>)
      requires CodeOk(code) && insn[..] == code && |start| == |end| == |code| && forall k :: 0 <= k < |code| ==>
        !start[k] && !end[k]
      ensures Marks(code, start, end)
    {
    }

    lemma Marked(code: Code, start: seq<bool>, end: seq<bool>, k: nat)
      requires CodeOk(code) && Marks(code, start, end) && k < |code|
      ensures IsBranch(insn[k]) == IsBranch(code[k]) && insn[k].a0 == code[k].a0
      ensures IsBranch(code[k]) ==> code[k].a0.Jump? && code[k].a0.i != 0
    {
    }

    lemma AllMarked(code: Code, start: seq<bool>, end: seq<bool>)
      requires Marks(code, start, end)
      requires forall k :: 0 <= k < |code| ==> start[k] == IsStart(code, k) && end[k] == IsEnd(code, k)
      ensures insn.Length == |code| && forall k :: 0 <= k < |code| ==>
        insn[k] == Mark(code[k], IsStart(code, k), IsEnd(code, k))
    {
    }

    // ---- Blocks ----

    ghost predicate LimitsMarked(code: Code)
      reads insn
    {
      insn.Length == |code| && forall k :: 0 <= k < |code| ==>
        insn[k] == Mark(code[k], IsStart(code, k), IsEnd(code, k))
    }

    /** The blocks that end among the first `i` instructions are there, and the one that is open knows where it
        started. */
    ghost predicate Collected(code: Code, i: nat)
      requires i <= |code|
      reads this, bb
    {
      var s := Spans(code, i);
      numBb == |s| < bb.Length && (forall j :: 0 <= j < |s| ==> NewBlock(bb[j], s[j])) &&
      (NextFirst(s) < i ==> bb[numBb].first == NextFirst(s))
    }

    /** The block array from the marks. */
    method CollectBlocks(ghost code: Code)
      requires CodeOk(code) && LimitsMarked(code) && |Blocks(code)| < bb.Length
      modifies this`numBb, bb
      ensures Collected(code, |code|)
    {
      hide IsStart, IsEnd, Spans, NoStart;
      numBb := 0;
      NoSpans(code);
      for i := 0 to insn.Length
        invariant Collected(code, i)
      {
        SpanStep(code, i);
        if FBbStart in insn[i].ty {
          bb[numBb] := bb[numBb].(first := i);
        }
        if FBbEnd in insn[i].ty {
          bb[numBb] := bb[numBb].(last := i, next0 := -1, next1 := -1, tmp := 0);
          numBb := numBb + 1;
        }
      }
    }

    // ---- Links ----

    /** The instructions when the branches of the first `i` blocks lead to blocks. */
    ghost predicate JumpsLinked(code: Code, i: nat)
      reads insn
    {
      insn.Length == |code| && forall k :: 0 <= k < |code| ==> insn[k] == LinkedInsn(code, k, i)
    }

    /** Block `j` when the first `i` blocks are linked and `c` edges to it have been counted. */
    ghost predicate BlockLinked(code: Code, j: nat, i: nat, cnt: seq<nat>)
      requires j < |Blocks(code)| && j < bb.Length && j < |cnt|
      reads bb
    {
      var s, l := Blocks(code)[j], if j < i then GraphOf(code)[j] else Link(-1, -1);
      bb[j].first == s.first && bb[j].last == s.last && bb[j].next0 == l.next0 && bb[j].next1 == l.next1 &&
        bb[j].tmp == cnt[j]
    }

    ghost predicate Linked(code: Code, i: nat, cnt: seq<nat>)
      reads this, bb
    {
      numBb == |Blocks(code)| == |cnt| && numBb < bb.Length &&
      forall j :: 0 <= j < numBb ==> BlockLinked(code, j, i, cnt)
    }

    /** One more edge to block `j`. */
    method CountEdge(j: nat, eb: nat, ghost code: Code, i: nat, ghost cnt: seq<nat>) returns (eb': nat)
      requires Linked(code, i, cnt) && j < numBb && eb == Excess(cnt)
      modifies bb
      ensures Linked(code, i, cnt[j := cnt[j] + 1]) && eb' == Excess(cnt[j := cnt[j] + 1])
    {
      hide Spans, GraphOf;
      assert BlockLinked(code, j, i, cnt);
      ExcessStep(cnt, j);
      bb[j] := bb[j].(tmp := bb[j].tmp + 1);
      eb' := if bb[j].tmp > 2 then eb + 1 else eb;
      ghost var cnt' := cnt[j := cnt[j] + 1];
      forall k | 0 <= k < numBb
        ensures BlockLinked(code, k, i, cnt')
      {
        assert old(BlockLinked(code, k, i, cnt));
      }
    }

    /** The block that starts at instruction `k`. */
    method FindBlock(k: int, ghost code: Code, i: nat, ghost cnt: seq<nat>) returns (j: nat)
      requires Linked(code, i, cnt) && BlockAt(Blocks(code), k, 0) < numBb
      ensures j == BlockAt(Blocks(code), k, 0) < numBb
    {
      hide Spans, GraphOf;
      j := 0;
      while bb[j].first != k
        invariant j <= BlockAt(Blocks(code), k, 0)
        decreases numBb - j
      {
        assert BlockLinked(code, j, i, cnt);
        j := j + 1;
      }
      assert BlockLinked(code, j, i, cnt);
      assert BlockLinked(code, BlockAt(Blocks(code), k, 0), i, cnt);
    }

    /** The links of block `i`. */
    method SetLinks(i: nat, next0: int, next1: int, ghost code: Code, ghost cnt: seq<nat>)
      requires Linked(code, i, cnt) && i < numBb && GraphOf(code)[i] == Link(next0, next1)
      modifies bb
      ensures Linked(code, i + 1, cnt)
    {
      hide Spans, GraphOf;
      assert BlockLinked(code, i, i, cnt);
      bb[i] := bb[i].(next0 := next0, next1 := next1);
      ghost var i' := i + 1;
      forall k | 0 <= k < numBb
        ensures BlockLinked(code, k, i', cnt)
      {
        assert old(BlockLinked(code, k, i, cnt));
      }
    }

    /** Forward links; the number of artificial blocks that will be needed. */
    method LinkBlocks(ghost code: Code) returns (eb: nat)
      requires CodeOk(code) && JumpsInside(code) && LimitsMarked(code) && Collected(code, |code|)
      modifies insn, bb
      ensures JumpsLinked(code, numBb)
      ensures Linked(code, numBb, EdgeCounts(GraphOf(code), numBb)) && eb == Excess(EdgeCounts(GraphOf(code), numBb))
    {
      hide Spans, GraphOf, IsStart, IsEnd;
      eb := 0;
      StartLinks(code);
      for i := 0 to numBb
        invariant JumpsLinked(code, i) && Linked(code, i, EdgeCounts(GraphOf(code), i))
        invariant eb == Excess(EdgeCounts(GraphOf(code), i))
      {
        eb := LinkBlock(i, eb, code);
      }
    }

    lemma StartLinks(code: Code)
      requires CodeOk(code) && JumpsInside(code) && LimitsMarked(code) && Collected(code, |code|)
      ensures JumpsLinked(code, 0) && Linked(code, 0, EdgeCounts(GraphOf(code), 0)) &&
        Excess(EdgeCounts(GraphOf(code), 0)) == 0
    {
      hide Spans, IsStart, IsEnd;
      NoExcess(EdgeCounts(GraphOf(code), 0));
      forall j | 0 <= j < numBb
        ensures BlockLinked(code, j, 0, EdgeCounts(GraphOf(code), 0))
      {
        assert NewBlock(bb[j], Blocks(code)[j]);
      }
    }

    method LinkBlock(i: nat, eb: nat, ghost code: Code) returns (eb': nat)
      requires CodeOk(code) && JumpsInside(code) && i < numBb && i < |Blocks(code)| && JumpsLinked(code, i)
      requires Linked(code, i, EdgeCounts(GraphOf(code), i)) && eb == Excess(EdgeCounts(GraphOf(code), i))
      modifies insn, bb
      ensures JumpsLinked(code, i + 1) && Linked(code, i + 1, EdgeCounts(GraphOf(code), i + 1))
      ensures eb' == Excess(EdgeCounts(GraphOf(code), i + 1))
    {
      hide Spans, GraphOf, IsStart, IsEnd, JumpsLinked, Linked, Excess, CodeOk, JumpsInside;
      ghost var cnt := EdgeCounts(GraphOf(code), i);
      LinkedAt(code, i, i, cnt);
      var last := bb[i].last;
      LinkCases(code, i);
      LastInsn(code, i);
      if IsBranch(insn[last]) {
        eb' := LinkBranch(i, last, eb, code);
      } else {
        NoJump(code, i);
        if last == insn.Length - 1 {
          CountsNone(GraphOf(code), i);
          SetLinks(i, -1, -1, code, cnt);
          eb' := eb;
        } else {
          CountsOne(GraphOf(code), i);
          eb' := CountEdge(i + 1, eb, code, i, cnt);
          SetLinks(i, i + 1, -1, code, cnt[i + 1 := cnt[i + 1] + 1]);
        }
      }
    }

    /** A block that ends with a branch leads to the branch's target and to the block behind it. */
    method LinkBranch(i: nat, last: nat, eb: nat, ghost code: Code) returns (eb': nat)
      requires CodeOk(code) && JumpsInside(code) && i < numBb && i < |Blocks(code)| && JumpsLinked(code, i)
      requires Linked(code, i, EdgeCounts(GraphOf(code), i)) && eb == Excess(EdgeCounts(GraphOf(code), i))
      requires last == Blocks(code)[i].last < |code| && IsBranch(code[last])
      modifies insn, bb
      ensures JumpsLinked(code, i + 1) && Linked(code, i + 1, EdgeCounts(GraphOf(code), i + 1))
      ensures eb' == Excess(EdgeCounts(GraphOf(code), i + 1))
    {
      hide Spans, GraphOf, IsStart, IsEnd, JumpsLinked, Linked, Excess, CodeOk, JumpsInside;
      ghost var cnt := EdgeCounts(GraphOf(code), i);
      LinkedAt(code, i, i, cnt);
      LinkCases(code, i);
      LastInsn(code, i);
      var j := FindBlock(insn[last].a0.i, code, i, cnt);
      CountsTwo(GraphOf(code), i);
      LeadToBlock(last, i, j, code);
      eb' := CountEdge(j, eb, code, i, cnt);
      cnt := cnt[j := cnt[j] + 1];
      eb' := CountEdge(i + 1, eb', code, i, cnt);
      cnt := cnt[i + 1 := cnt[i + 1] + 1];
      SetLinks(i, j, i + 1, code, cnt);
    }

    lemma LinkedAt(code: Code, j: nat, i: nat, cnt: seq<nat>)
      requires Linked(code, i, cnt) && j < numBb
      ensures numBb == |Blocks(code)| == |cnt| && numBb < bb.Length && BlockLinked(code, j, i, cnt)
    {
    }

    /** The last instruction of block `i` before it is linked. */
    lemma LastInsn(code: Code, i: nat)
      requires CodeOk(code) && i < |Blocks(code)| && JumpsLinked(code, i)
      ensures Blocks(code)[i].last < insn.Length == |code|
      ensures var last := Blocks(code)[i].last; insn[last] == Mark(code[last], IsStart(code, last), IsEnd(code, last))
    {
      hide IsStart, IsEnd;
      LastsInside(code);
      BlockOfLast(code, i);
    }

    lemma NoJump(code: Code, i: nat)
      requires i < |Blocks(code)| && Blocks(code)[i].last < |code| && !IsBranch(code[Blocks(code)[i].last]) &&
        JumpsLinked(code, i)
      ensures JumpsLinked(code, i + 1)
    {
      forall k | 0 <= k < |code|
        ensures LinkedInsn(code, k, i + 1) == LinkedInsn(code, k, i)
      {
        if IsBranch(code[k]) && |Spans(code, k)| == i { BranchIsLast(code, k); }
      }
    }

    /** The target of the branch at the end of block `i` becomes a block. */
    method LeadToBlock(last: nat, i: nat, j: nat, ghost code: Code)
      requires CodeOk(code) && JumpsLinked(code, i) && i < |Blocks(code)| && last == Blocks(code)[i].last < |code|
      requires IsBranch(code[last]) && GraphOf(code)[i].next0 == j
      modifies insn
      ensures JumpsLinked(code, i + 1)
    {
      hide IsStart, IsEnd;
      BlockOfLast(code, i);
      insn[last] := insn[last].(a0 := Block(j));
      forall k | 0 <= k < |code|
        ensures insn[k] == LinkedInsn(code, k, i + 1)
      {
        if k != last && IsBranch(code[k]) && |Spans(code, k)| == i { BranchIsLast(code, k); }
      }
    }

    // ---- Artificial blocks ----

    /** What place `p` holds after the artificial blocks have been put in, `done` blocks having been led around them. */
    ghost predicate Placed(code: Code, p: nat, done: nat)
      requires GraphOk(GraphOf(code)) && p < Total(GraphOf(code)) <= bb.Length && done <= |GraphOf(code)|
      reads bb
    {
      var g := GraphOf(code);
      LayoutNodes(g, |g|);
      match Layout(g, |g|)[p]
      case Art => bb[p].last == -1 && bb[p].tmp == 0 && bb[p].next0 == bb[p].next1 == -1
      case Real(j) =>
        bb[p].first == Blocks(code)[j].first && bb[p].last == Blocks(code)[j].last &&
        bb[p].next0 == g[j].next0 && bb[p].next1 == g[j].next1 &&
          bb[p].tmp == TmpAfter(Edges(g, j, |g|), Edges(g, j, done))
    }

    /** Blocks from `i` on have been moved to their places, the others have not. */
    ghost predicate MovedFrom(code: Code, i: nat)
      requires GraphOk(GraphOf(code)) && Total(GraphOf(code)) <= bb.Length && i <= |GraphOf(code)|
      reads this, bb, reloc
    {
      var g := GraphOf(code);
      |g| == numBb <= reloc.Length && numBb <= bb.Length &&
      (forall p :: GroupStart(g, i) <= p < Total(g) ==> Placed(code, p, 0)) &&
      (forall j :: 0 <= j < i ==> BlockLinked(code, j, numBb, EdgeCounts(g, numBb))) &&
      forall j :: i <= j < numBb ==> reloc[j] == Pos(g, j)
    }

    /** Blocks move up, the last one first, and artificial blocks fill the gaps. */
    method InsertBlocks(eb: nat, ghost code: Code)
      requires GraphOk(GraphOf(code)) && Total(GraphOf(code)) <= bb.Length <= reloc.Length && numBb == |GraphOf(code)|
      requires Linked(code, numBb, EdgeCounts(GraphOf(code), numBb)) && eb == Excess(EdgeCounts(GraphOf(code), numBb))
      modifies this`numBb, bb, reloc
      ensures numBb == Total(GraphOf(code)) && (forall p :: 0 <= p < numBb ==> Placed(code, p, 0))
      ensures forall j :: 0 <= j < |GraphOf(code)| ==> reloc[j] == Pos(GraphOf(code), j)
    {
      hide Spans, GraphOf, Layout, Pos, Placed, Excess, Total, Edges, BlockLinked;
      ghost var g := GraphOf(code);
      ExcessTotal(g);
      var endBb := numBb + eb;
      for i := numBb downto 0
        invariant i <= |g| && endBb == GroupStart(g, i) && MovedFrom(code, i)
      {
        endBb := PlaceBlock(i, endBb, code);
      }
      numBb := numBb + eb;
    }

    method PlaceBlock(i: nat, endBb: nat, ghost code: Code) returns (endBb': nat)
      requires GraphOk(GraphOf(code)) && Total(GraphOf(code)) <= bb.Length && i + 1 <= |GraphOf(code)|
      requires endBb == GroupStart(GraphOf(code), i + 1) && MovedFrom(code, i + 1)
      modifies bb, reloc
      ensures endBb' == GroupStart(GraphOf(code), i) && MovedFrom(code, i)
    {
      hide Spans, GraphOf, Layout, Pos, Edges, TmpAfter;
      ghost var g := GraphOf(code);
      ghost var k := Edges(g, i, |g|);
      GroupPlaces(g, i);
      assert BlockLinked(code, i, numBb, EdgeCounts(g, numBb));
      var j := bb[i].tmp;
      TmpStart(k);
      if bb[i].tmp > 2 {
        bb[i] := bb[i].(tmp := -bb[i].tmp);
      }
      endBb' := endBb - 1;
      bb[endBb'] := bb[i];
      reloc[i] := endBb';
      assert Placed(code, endBb', 0);
      forall p | endBb <= p < Total(g)
        ensures Placed(code, p, 0)
      {
        assert old(Placed(code, p, 0));
      }
      ghost var m, cnt := numBb, EdgeCounts(g, numBb);
      forall b | 0 <= b < i
        ensures BlockLinked(code, b, m, cnt)
      {
        assert old(BlockLinked(code, b, m, cnt));
      }
      while j > 2
        invariant k > 2 ==> 2 <= j <= k && endBb' == Pos(g, i) - (k - j)
        invariant k <= 2 ==> j == k && endBb' == Pos(g, i)
        invariant forall p :: endBb' <= p < Total(g) ==> Placed(code, p, 0)
        invariant forall b :: 0 <= b < i ==> BlockLinked(code, b, m, cnt)
        invariant forall j :: i <= j < numBb ==> reloc[j] == Pos(g, j)
        decreases j
      {
        endBb' := endBb' - 1;
        LayoutArt(g, |g|, i, k - j + 1);
        label Before:
        bb[endBb'] := bb[endBb'].(first := bb[i].first, last := -1, next0 := -1, next1 := -1, tmp := 0);
        j := j - 1;
        forall p | endBb' < p < Total(g)
          ensures Placed(code, p, 0)
        {
          assert old@Before(Placed(code, p, 0));
        }
        forall b | 0 <= b < i
          ensures BlockLinked(code, b, m, cnt)
        {
          assert old@Before(BlockLinked(code, b, m, cnt));
        }
      }
    }

    // ---- Leading edges to their places ----

    /** Jumps name the places of the blocks they lead to. */
    method RelocateJumps(ghost code: Code)
      requires CodeOk(code) && JumpsInside(code) && JumpsLinked(code, |GraphOf(code)|)
      requires |GraphOf(code)| <= reloc.Length && forall j :: 0 <= j < |GraphOf(code)| ==>
        reloc[j] == Pos(GraphOf(code), j)
      modifies insn
      ensures insn.Length == |code| && forall k :: 0 <= k < |code| ==> insn[k] == PlacedInsn(code, k)
    {
      hide Spans, GraphOf, IsStart, IsEnd, Pos, LinkedInsn, PlacedInsn;
      for i := 0 to insn.Length
        invariant forall k :: 0 <= k < |code| ==> insn[k] == if k < i then PlacedInsn(code, k)
          else LinkedInsn(code, k, |GraphOf(code)|)
      {
        JumpPlace(code, i);
        var ins := insn[i];
        if ins.a0.Block? {
          insn[i] := ins.(a0 := Block(reloc[ins.a0.b]));
        }
      }
    }

    /** An edge to the block at place `t` is led to an artificial block in front of it while there is one to take it. */
    method Lead(t: nat) returns (place: int)
      requires t < bb.Length
      modifies bb
      ensures bb[t] == old(bb[t]).(tmp := Led(old(bb[t].tmp)).0) && place == t - Led(old(bb[t].tmp)).1
      ensures forall p :: 0 <= p < bb.Length && p != t ==> bb[p] == old(bb[p])
    {
      place := t;
      if bb[t].tmp < 0 {
        bb[t] := bb[t].(tmp := 0 - bb[t].tmp);
        place := t - (bb[t].tmp - 2);
      } else if bb[t].tmp > 2 {
        place := t - (bb[t].tmp - 2);
        bb[t] := bb[t].(tmp := bb[t].tmp - 1);
      }
    }

    /** Places before `p` have their final links; `c` edges to every block have been led. */
    ghost predicate LedTo(code: Code, p: nat, c: seq<nat>)
      requires GraphOk(GraphOf(code)) && p <= Total(GraphOf(code)) <= bb.Length && |c| == |GraphOf(code)|
      reads bb
    {
      forall q :: 0 <= q < Total(GraphOf(code)) ==> LedAt(code, q, p, c)
    }

    ghost predicate LedAt(code: Code, q: nat, p: nat, c: seq<nat>)
      requires GraphOk(GraphOf(code)) && q < Total(GraphOf(code)) <= bb.Length && |c| == |GraphOf(code)|
      reads bb
    {
      var g := GraphOf(code);
      LayoutNodes(g, |g|);
      var node := Layout(g, |g|)[q];
      var l := if q < p then Split(g)[q] else if node.Real? then g[node.i] else Link(-1, -1);
      bb[q].next0 == l.next0 && bb[q].next1 == l.next1 &&
      if node.Real? then
        bb[q].first == Blocks(code)[node.i].first && bb[q].last == Blocks(code)[node.i].last &&
        bb[q].tmp == TmpAfter(Edges(g, node.i, |g|), c[node.i])
      else bb[q].last == -1 && bb[q].tmp == 0
    }

    /** One edge to block `j`. */
    method LeadEdge(j: nat, ghost code: Code, ghost p: nat, ghost c: seq<nat>) returns (place: int)
      requires GraphOk(GraphOf(code)) && p <= Total(GraphOf(code)) <= bb.Length && |c| == |GraphOf(code)| &&
        LedTo(code, p, c)
      requires j < |GraphOf(code)| <= reloc.Length && reloc[j] == Pos(GraphOf(code), j)
      requires c[j] < Edges(GraphOf(code), j, |GraphOf(code)|)
      modifies bb
      ensures LedTo(code, p, c[j := c[j] + 1]) && place == Entry(GraphOf(code), j, c[j])
    {
      hide Spans, GraphOf, Layout, Pos, Edges, Total, TmpAfter, Led, Offset, Split;
      ghost var g := GraphOf(code);
      ghost var t := reloc[j];
      GroupPlaces(g, j);
      assert LedAt(code, t, p, c);
      LedStep(Edges(g, j, |g|), c[j]);
      place := Lead(reloc[j]);
      ghost var c' := c[j := c[j] + 1];
      forall q | 0 <= q < Total(g)
        ensures LedAt(code, q, p, c')
      {
        assert old(LedAt(code, q, p, c));
        LayoutNodes(g, |g|);
      }
    }

    /** The links of place `i` are final. */
    method SetPlace(i: nat, next0: int, next1: int, ghost code: Code, ghost c: seq<nat>)
      requires GraphOk(GraphOf(code)) && i < Total(GraphOf(code)) <= bb.Length && |c| == |GraphOf(code)| &&
        LedTo(code, i, c)
      requires Split(GraphOf(code))[i] == Link(next0, next1)
      modifies bb
      ensures LedTo(code, i + 1, c)
    {
      hide Spans, GraphOf, Layout, Pos, Edges, TmpAfter, Split, Total;
      bb[i] := bb[i].(next0 := next0, next1 := next1);
      ghost var i' := i + 1;
      forall q | 0 <= q < Total(GraphOf(code))
        ensures LedAt(code, q, i', c)
      {
        assert old(LedAt(code, q, i, c));
      }
    }

    /** The edges of block `done`, which is at place `i`. */
    method LeadBlock(i: nat, ghost done: nat, ghost code: Code)
      requires GraphOk(GraphOf(code)) && i < Total(GraphOf(code)) <= bb.Length
      requires |GraphOf(code)| <= reloc.Length && forall j :: 0 <= j < |GraphOf(code)| ==>
        reloc[j] == Pos(GraphOf(code), j)
      requires done < |GraphOf(code)| && i == Pos(GraphOf(code), done) &&
        LedTo(code, i, EdgeCounts(GraphOf(code), done))
      modifies bb
      ensures LedTo(code, i + 1, EdgeCounts(GraphOf(code), done + 1))
    {
      hide Spans, GraphOf, Layout, Pos, Edges, TmpAfter, Split, LedTo, Total, Entry, EdgeCounts;
      ghost var g := GraphOf(code);
      ghost var c := EdgeCounts(g, done);
      LedReal(code, i, done, c);
      EdgeRanks(g, done);
      var next0, next1 := bb[i].next0, bb[i].next1;
      var place0, place1 := -1, -1;
      if next0 >= 0 {
        place0 := LeadEdge(next0, code, i, c);
        c := c[next0 := c[next0] + 1];
      }
      if next1 >= 0 {
        place1 := LeadEdge(next1, code, i, c);
        c := c[next1 := c[next1] + 1];
      }
      assert c == EdgeCounts(g, done + 1);
      Contracted(g, done);
      assert Split(g)[i] == Link(place0, place1);
      SetPlace(i, place0, place1, code, c);
    }

    /** What block `done` looks like before its edges are led. */
    lemma LedReal(code: Code, i: nat, done: nat, c: seq<nat>)
      requires GraphOk(GraphOf(code)) && i < Total(GraphOf(code)) <= bb.Length && |c| == |GraphOf(code)| &&
        LedTo(code, i, c)
      requires done < |GraphOf(code)| && i == Pos(GraphOf(code), done)
      ensures bb[i].next0 == GraphOf(code)[done].next0 && bb[i].next1 == GraphOf(code)[done].next1
      ensures -1 <= bb[i].next0 < |GraphOf(code)| && -1 <= bb[i].next1 < |GraphOf(code)|
    {
      hide Spans, GraphOf, Layout, Pos, Edges, TmpAfter, Split, Total;
      assert LedAt(code, i, i, c);
      LayoutNodes(GraphOf(code), |GraphOf(code)|);
    }

    /** Whether place `i` is artificial can be told from its last instruction; if not it holds the next block. */
    lemma NodeAt(code: Code, i: nat, done: nat, c: seq<nat>)
      requires GraphOk(GraphOf(code)) && i < Total(GraphOf(code)) <= bb.Length && |c| == |GraphOf(code)| &&
        LedTo(code, i, c)
      requires done <= |GraphOf(code)| && (done > 0 ==> Pos(GraphOf(code), done - 1) < i)
      requires (done < |GraphOf(code)| ==> i <= Pos(GraphOf(code), done)) &&
        (done == |GraphOf(code)| ==> i == Total(GraphOf(code)))
      ensures done < |GraphOf(code)|
      ensures bb[i].last >= 0 ==> i == Pos(GraphOf(code), done)
      ensures bb[i].last >= 0 && done + 1 < |GraphOf(code)| ==> i + 1 <= Pos(GraphOf(code), done + 1)
      ensures bb[i].last >= 0 && done + 1 == |GraphOf(code)| ==> i + 1 == Total(GraphOf(code))
      ensures bb[i].last < 0 ==>
        i + 1 <= Pos(GraphOf(code), done) && bb[i].next1 == -1 &&
        Split(GraphOf(code))[i] == Link(i + 1, -1)
    {
      hide Spans, GraphOf, Layout, Edges, TmpAfter, Split, Pos;
      var g := GraphOf(code);
      assert LedAt(code, i, i, c);
      LayoutNodes(g, |g|);
      SplitAt(g, i);
      TotalIs(g);
      if done + 1 < |g| { PosIncreases(g, done, done + 1); }
      if Layout(g, |g|)[i].Real? {
        var j := Layout(g, |g|)[i].i;
        if j < done { if j < done - 1 { PosIncreases(g, j, done - 1); } } else if j > done { PosIncreases(g, done, j); }
      } else {
        assert i != Pos(g, done);
      }
    }

    /** All edges are led to their places. */
    method LeadAll(ghost code: Code)
      requires GraphOk(GraphOf(code)) && GraphOf(code) != [] && numBb == Total(GraphOf(code)) <= bb.Length
      requires |GraphOf(code)| <= reloc.Length && forall j :: 0 <= j < |GraphOf(code)| ==>
        reloc[j] == Pos(GraphOf(code), j)
      requires forall p :: 0 <= p < numBb ==> Placed(code, p, 0)
      modifies bb
      ensures LedTo(code, numBb, EdgeCounts(GraphOf(code), |GraphOf(code)|))
    {
      hide Spans, GraphOf, Layout, Pos, Edges, TmpAfter, Split, LedTo, Total;
      ghost var g := GraphOf(code);
      ghost var done := 0;
      NothingLed(code);
      for i := 0 to numBb
        invariant done <= |g| && LedTo(code, i, EdgeCounts(g, done))
        invariant (done > 0 ==> Pos(g, done - 1) < i) && (done < |g| ==> i <= Pos(g, done)) &&
          (done == |g| ==> i == numBb)
      {
        NodeAt(code, i, done, EdgeCounts(g, done));
        if bb[i].last < 0 {
          SetPlace(i, i + 1, bb[i].next1, code, EdgeCounts(g, done));
        } else {
          LeadBlock(i, done, code);
          done := done + 1;
        }
      }
      TotalIs(g);
      PosLast(g, done);
    }

    lemma NothingLed(code: Code)
      requires GraphOk(GraphOf(code)) && GraphOf(code) != [] && numBb == Total(GraphOf(code)) <= bb.Length
      requires forall p :: 0 <= p < numBb ==> Placed(code, p, 0)
      ensures LedTo(code, 0, EdgeCounts(GraphOf(code), 0))
    {
      hide Spans, GraphOf, Layout, Pos, Edges, TmpAfter, Split;
      var c := EdgeCounts(GraphOf(code), 0);
      forall q | 0 <= q < Total(GraphOf(code))
        ensures LedAt(code, q, 0, c)
      {
        assert Placed(code, q, 0);
        LayoutNodes(GraphOf(code), |GraphOf(code)|);
      }
    }

    // ---- Unconditional jumps, backward links and the two ends ----

    /** What is known of place `q` once places before `p` have lost the way on after unconditional jumps. */
    ghost predicate CutPlace(code: Code, q: nat, p: nat)
      requires CodeOk(code) && GraphOk(GraphOf(code)) && q < Total(GraphOf(code)) <= bb.Length
      reads bb
    {
      var g := GraphOf(code);
      LayoutNodes(g, |g|);
      var node := Layout(g, |g|)[q];
      var l := if q < p then Final(code)[q] else Split(g)[q];
      bb[q].next0 == l.next0 && bb[q].next1 == l.next1 &&
      if node.Real? then bb[q].first == Blocks(code)[node.i].first && bb[q].last == Blocks(code)[node.i].last
        else bb[q].last == -1
    }

    ghost predicate CutTo(code: Code, p: nat, done: nat)
      requires CodeOk(code) && GraphOk(GraphOf(code)) && Total(GraphOf(code)) <= bb.Length
      reads bb, insn
    {
      (forall q :: 0 <= q < Total(GraphOf(code)) ==> CutPlace(code, q, p)) &&
      insn.Length == |code| && forall k :: 0 <= k < |code| ==> insn[k] == CutInsn(code, k, done)
    }

    /** Unconditional jumps disappear, and with them the way to the next block. */
    method CutJumps(ghost code: Code)
      requires CodeOk(code) && JumpsInside(code) && GraphOk(GraphOf(code)) && GraphOf(code) != []
      requires numBb == Total(GraphOf(code)) <= bb.Length && CutTo(code, 0, 0)
      modifies bb, insn
      ensures CutTo(code, numBb, |GraphOf(code)|)
    {
      hide Spans, GraphOf, Layout, Pos, Split, CutTo, Total, Final, CutInsn;
      ghost var g := GraphOf(code);
      ghost var done := 0;
      for i := 0 to numBb
        invariant done <= |g| && CutTo(code, i, done)
        invariant (done > 0 ==> Pos(g, done - 1) < i) && (done < |g| ==> i <= Pos(g, done)) &&
          (done == |g| ==> i == numBb)
      {
        PlaceOf(code, i, done);
        if bb[i].last < 0 {
          KeepArt(code, i, done);
        } else {
          CutBlock(i, done, code);
          done := done + 1;
        }
      }
      TotalIs(g);
      PosLast(g, done);
    }

    /** Whether place `i` is artificial can be told from its last instruction; if not it holds the next block. */
    lemma PlaceOf(code: Code, i: nat, done: nat)
      requires CodeOk(code) && GraphOk(GraphOf(code)) && i < Total(GraphOf(code)) <= bb.Length && CutTo(code, i, done)
      requires done <= |GraphOf(code)| && (done > 0 ==> Pos(GraphOf(code), done - 1) < i)
      requires (done < |GraphOf(code)| ==> i <= Pos(GraphOf(code), done)) &&
        (done == |GraphOf(code)| ==> i == Total(GraphOf(code)))
      ensures done < |GraphOf(code)|
      ensures bb[i].last >= 0 ==>
        i == Pos(GraphOf(code), done) &&
        Layout(GraphOf(code), |GraphOf(code)|)[i] == Real(done)
      ensures bb[i].last >= 0 ==> bb[i].last == Blocks(code)[done].last
      ensures bb[i].last >= 0 && done + 1 < |GraphOf(code)| ==> i + 1 <= Pos(GraphOf(code), done + 1)
      ensures bb[i].last >= 0 && done + 1 == |GraphOf(code)| ==> i + 1 == Total(GraphOf(code))
      ensures bb[i].last < 0 ==> i + 1 <= Pos(GraphOf(code), done) && Layout(GraphOf(code), |GraphOf(code)|)[i] == Art
    {
      hide Spans, GraphOf, Layout, Split, Pos, Final, CutInsn;
      var g := GraphOf(code);
      assert CutPlace(code, i, i);
      LayoutNodes(g, |g|);
      TotalIs(g);
      if done + 1 < |g| { PosIncreases(g, done, done + 1); }
      if Layout(g, |g|)[i].Real? {
        var j := Layout(g, |g|)[i].i;
        if j < done { if j < done - 1 { PosIncreases(g, j, done - 1); } } else if j > done { PosIncreases(g, done, j); }
      } else {
        assert i != Pos(g, done);
      }
    }

    lemma KeepArt(code: Code, i: nat, done: nat)
      requires CodeOk(code) && GraphOk(GraphOf(code)) && i < Total(GraphOf(code)) <= bb.Length && CutTo(code, i, done)
      requires Layout(GraphOf(code), |GraphOf(code)|)[i] == Art
      ensures CutTo(code, i + 1, done)
    {
      hide Spans, GraphOf, Layout, Split, Pos, CutInsn, Total;
      FinalAt(code, i);
      var i' := i + 1;
      forall q | 0 <= q < Total(GraphOf(code))
        ensures CutPlace(code, q, i')
      {
        assert CutPlace(code, q, i);
      }
    }

    method CutBlock(i: nat, ghost done: nat, ghost code: Code)
      requires CodeOk(code) && JumpsInside(code) && GraphOk(GraphOf(code)) && i < Total(GraphOf(code)) <= bb.Length &&
        CutTo(code, i, done)
      requires done < |GraphOf(code)| && Layout(GraphOf(code), |GraphOf(code)|)[i] == Real(done) &&
        bb[i].last == Blocks(code)[done].last
      modifies bb, insn
      ensures CutTo(code, i + 1, done + 1)
    {
      hide Spans, GraphOf, Layout, Split, Pos, CutInsn, Total, PlacedInsn;
      FinalAt(code, i);
      LastCut(code, done);
      assert CutPlace(code, i, i);
      var last := bb[i].last;
      if IsBranch(insn[last]) && insn[last].a1.Const? {
        insn[last] := ChangeType(insn[last], Nop);
        bb[i] := bb[i].(next1 := -1);
      }
      CutInsnStep(code, done);
      ghost var i' := i + 1;
      forall q | 0 <= q < Total(GraphOf(code))
        ensures CutPlace(code, q, i')
      {
        assert old(CutPlace(code, q, i));
      }
    }

    /** The predecessors of block `q` are these. */
    ghost predicate HasPrev(q: nat, s: seq<nat>)
      requires q < bb.Length
      reads bb
    {
      |s| <= 2 && bb[q].prev0 == (if |s| > 0 then s[0] else -1) && bb[q].prev1 == if |s| > 1 then s[1] else -1
    }

    ghost predicate AllPrev(lists: seq<seq<nat>>)
      requires |lists| <= bb.Length
      reads bb
    {
      forall q :: 0 <= q < |lists| ==> HasPrev(q, lists[q])
    }

    /** The blocks but for their backward links. */
    ghost predicate Forward(code: Code)
      requires CodeOk(code) && GraphOk(GraphOf(code)) && Total(GraphOf(code)) <= bb.Length
      reads bb
    {
      forall q :: 0 <= q < Total(GraphOf(code)) ==> CutPlace(code, q, Total(GraphOf(code)))
    }

    /** One more predecessor. */
    method AddPrev(t: nat, i: nat, ghost lists: seq<seq<nat>>, ghost code: Code)
      requires CodeOk(code) && GraphOk(GraphOf(code)) && Total(GraphOf(code)) <= bb.Length && Forward(code)
      requires t < |lists| <= bb.Length && |lists[t]| < 2 && AllPrev(lists)
      modifies bb
      ensures AllPrev(lists[t := lists[t] + [i]]) && Forward(code)
    {
      hide GraphOf, Layout, Final, Split, Total;
      assert HasPrev(t, lists[t]);
      if bb[t].prev0 < 0 {
        bb[t] := bb[t].(prev0 := i);
      } else {
        assert bb[t].prev1 < 0;
        bb[t] := bb[t].(prev1 := i);
      }
      ghost var lists' := lists[t := lists[t] + [i]];
      forall q | 0 <= q < |lists|
        ensures HasPrev(q, lists'[q])
      {
        assert old(HasPrev(q, lists[q]));
      }
      ghost var n := Total(GraphOf(code));
      forall q | 0 <= q < n
        ensures CutPlace(code, q, n)
      {
        assert old(CutPlace(code, q, n));
      }
    }

    /** No block has a predecessor yet. */
    method ClearPrev(ghost code: Code)
      requires CodeOk(code) && GraphOk(GraphOf(code)) && numBb == Total(GraphOf(code)) <= bb.Length && Forward(code)
      modifies bb
      ensures Forward(code) && AllPrev(NoLists(numBb))
    {
      hide GraphOf, Layout, Final, Split, Total;
      for i := 0 to numBb
        invariant forall q :: 0 <= q < i ==> bb[q].prev0 == bb[q].prev1 == -1
        invariant forall q :: 0 <= q < bb.Length ==> bb[q] == old(bb[q]).(prev0 := bb[q].prev0, prev1 := bb[q].prev1)
      {
        bb[i] := bb[i].(prev0 := -1, prev1 := -1);
      }
      ghost var n := Total(GraphOf(code));
      forall q | 0 <= q < n
        ensures CutPlace(code, q, n)
      {
        assert old(CutPlace(code, q, n));
      }
    }

    /** Backward links: every block lists the blocks that lead to it, once for each edge. */
    method BackLinks(ghost code: Code)
      requires CodeOk(code) && JumpsInside(code) && GraphOk(GraphOf(code)) &&
        numBb == Total(GraphOf(code)) <= bb.Length && Forward(code)
      modifies bb
      ensures Forward(code) && AllPrev(PredLists(Final(code), numBb, numBb))
    {
      hide GraphOf, Layout, Split, Total, AllPrev, Forward, Final;
      ghost var f := Final(code);
      ClearPrev(code);
      assert PredLists(f, numBb, 0) == NoLists(numBb);
      for i := 0 to numBb
        invariant Forward(code) && AllPrev(PredLists(f, numBb, i))
      {
        LinkFrom(i, code);
      }
    }

    method LinkFrom(i: nat, ghost code: Code)
      requires CodeOk(code) && JumpsInside(code) && GraphOk(GraphOf(code)) &&
        numBb == Total(GraphOf(code)) <= bb.Length && i < numBb
      requires Forward(code) && AllPrev(PredLists(Final(code), numBb, i))
      modifies bb
      ensures Forward(code) && AllPrev(PredLists(Final(code), numBb, i + 1))
    {
      hide GraphOf, Layout, Split, Total, AllPrev, Final, PredLists;
      ghost var f := Final(code);
      ghost var lists := PredLists(f, numBb, i);
      ListsStep(code, i);
      assert CutPlace(code, i, numBb);
      var next0, next1 := bb[i].next0, bb[i].next1;
      if next0 >= 0 {
        AddPrev(next0, i, lists, code);
        lists := lists[next0 := lists[next0] + [i]];
      }
      if next1 >= 0 {
        AddPrev(next1, i, lists, code);
        lists := lists[next1 := lists[next1] + [i]];
      }
    }

    /** A block and its links as they are in the end. */
    ghost predicate Finished(code: Code, p: nat)
      requires CodeOk(code) && GraphOk(GraphOf(code)) && p < Total(GraphOf(code)) <= bb.Length
      reads bb
    {
      var n := Total(GraphOf(code));
      LayoutNodes(GraphOf(code), |GraphOf(code)|);
      var node, s := Layout(GraphOf(code), |GraphOf(code)|)[p], Preds(Final(code), p, n);
      (if node.Real? then bb[p].first == Blocks(code)[node.i].first && bb[p].last == Blocks(code)[node.i].last
        else bb[p].last == -1) &&
      bb[p].next0 == (if p == n - 1 then BBID_END else Final(code)[p].next0) && bb[p].next1 == Final(code)[p].next1 &&
      |s| <= 2 && bb[p].prev0 == (if p == 0 then BBID_START else if |s| > 0 then s[0] else -1) &&
      bb[p].prev1 == if |s| > 1 then s[1] else -1
    }

    /** The markers of the first and the last block. */
    method MarkEnds(ghost code: Code)
      requires CodeOk(code) && JumpsInside(code) && GraphOk(GraphOf(code)) &&
        numBb == Total(GraphOf(code)) <= bb.Length && numBb > 0
      requires Forward(code) && AllPrev(PredLists(Final(code), numBb, numBb))
      modifies bb
      ensures forall p :: 0 <= p < numBb ==> Finished(code, p)
    {
      hide GraphOf, Layout, Split, Total, Final, Preds;
      ghost var lists := PredLists(Final(code), numBb, numBb);
      Ends(code);
      assert HasPrev(0, lists[0]) && CutPlace(code, numBb - 1, numBb);
      assert bb[0].prev0 < 0;
      bb[0] := bb[0].(prev0 := BBID_START);
      assert bb[numBb - 1].next0 < 0 && bb[numBb - 1].next1 < 0;
      bb[numBb - 1] := bb[numBb - 1].(next0 := BBID_END);
      forall p | 0 <= p < numBb
        ensures Finished(code, p)
      {
        assert old(HasPrev(p, lists[p])) && old(CutPlace(code, p, numBb));
      }
    }

    /** detect_bb. */
    method DetectBb(ghost code: Code) returns (ok: bool)
      requires CodeOk(code) && insn[..] == code
      requires |Blocks(code)| < bb.Length <= reloc.Length && (JumpsInside(code) ==> Total(GraphOf(code)) <= bb.Length)
      modifies this`numBb, insn, bb, reloc
      ensures ok <==> JumpsInside(code)
      ensures ok ==> GraphOk(GraphOf(code)) && numBb == Total(GraphOf(code)) && forall p :: 0 <= p < numBb ==>
        Finished(code, p)
      ensures ok ==> insn.Length == |code| && forall k :: 0 <= k < |code| ==>
        insn[k] == CutInsn(code, k, |Blocks(code)|)
    {
      hide GraphOf, Layout, Split, Total, Final, Preds, Spans, Pos, Edges, IsStart, IsEnd, CutInsn, LinkedInsn, Placed,
        LedTo, Finished, Forward, AllPrev, Excess;
      ok := MarkLimits(code);
      if !ok {
        return;
      }
      GraphShape(code);
      CollectBlocks(code);
      var eb := LinkBlocks(code);
      InsertBlocks(eb, code);
      RelocateJumps(code);
      LeadAll(code);
      StartCut(code);
      CutJumps(code);
      CutDone(code);
      BackLinks(code);
      TotalIs(GraphOf(code));
      MarkEnds(code);
    }

    lemma StartCut(code: Code)
      requires CodeOk(code) && JumpsInside(code) && GraphOk(GraphOf(code)) && numBb == Total(GraphOf(code)) <= bb.Length
      requires LedTo(code, numBb, EdgeCounts(GraphOf(code), |GraphOf(code)|))
      requires insn.Length == |code| && forall k :: 0 <= k < |code| ==> insn[k] == PlacedInsn(code, k)
      ensures CutTo(code, 0, 0)
    {
      hide GraphOf, Layout, Split, Total, Final, Spans, PlacedInsn, EdgeCounts;
      var c := EdgeCounts(GraphOf(code), |GraphOf(code)|);
      forall q | 0 <= q < numBb
        ensures CutPlace(code, q, 0)
      {
        assert LedAt(code, q, numBb, c);
      }
    }

    lemma CutDone(code: Code)
      requires CodeOk(code) && GraphOk(GraphOf(code)) && numBb == Total(GraphOf(code)) <= bb.Length &&
        CutTo(code, numBb, |GraphOf(code)|)
      ensures Forward(code) && insn.Length == |code| && |GraphOf(code)| == |Blocks(code)|
      ensures forall k :: 0 <= k < |code| ==> insn[k] == CutInsn(code, k, |Blocks(code)|)
    {
    }
  }

  ghost function NoLists(n: nat): (s: seq<seq<nat>>)
    ensures |s| == n && forall t :: 0 <= t < n ==> s[t] == []
  {
    seq(n, _ => [])
  }

  /** The lists of predecessors, counting the first `i` blocks. */
  ghost function PredLists(f: seq<Link>, n: nat, i: nat): (s: seq<seq<nat>>)
    requires i <= |f|
    ensures |s| == n && forall t :: 0 <= t < n ==> s[t] == Preds(f, t, i)
  {
    seq(n, t requires 0 <= t < n => Preds(f, t, i))
  }

  lemma {:induction false} PredsGrow(f: seq<Link>, t: int, i: nat, n: nat)
    requires i <= n <= |f|
    ensures |Preds(f, t, i)| <= |Preds(f, t, n)|
    decreases n
  {
    if i < n { PredsGrow(f, t, i, n - 1); }
  }

  /** The lists with the predecessor `i` added where the link `l` leads. */
  ghost function AddOnce(a: seq<seq<nat>>, next: int, i: nat): (r: seq<seq<nat>>)
    requires next < |a|
    ensures |r| == |a|
  {
    if next >= 0 then a[next := a[next] + [i]] else a
  }

  lemma PredListsStep(f: seq<Link>, n: nat, i: nat)
    requires i < |f| && f[i].next0 < n && f[i].next1 < n
    ensures AddOnce(AddOnce(PredLists(f, n, i), f[i].next0, i), f[i].next1, i) == PredLists(f, n, i + 1)
  {
    var a, b := PredLists(f, n, i), AddOnce(PredLists(f, n, i), f[i].next0, i);
    var c := AddOnce(b, f[i].next1, i);
    forall t | 0 <= t < n
      ensures c[t] == Preds(f, t, i + 1)
    {
      assert b[t] == a[t] + If(f[i].next0 == t, i);
      assert c[t] == b[t] + If(f[i].next1 == t, i);
    }
    assert c == PredLists(f, n, i + 1);
  }

  /** What the links of block `i` add to the lists. */
  lemma ListsStep(code: Code, i: nat)
    requires CodeOk(code) && JumpsInside(code) && GraphOk(GraphOf(code)) && i < Total(GraphOf(code))
    ensures
      var f, n := Final(code), Total(GraphOf(code));
      var l, a := f[i], PredLists(f, n, i);
      -1 <= l.next0 < n && -1 <= l.next1 < n && (l.next0 >= 0 ==> |a[l.next0]| < 2) &&
      (l.next1 >= 0 ==> |AddOnce(a, l.next0, i)[l.next1]| < 2) &&
      AddOnce(AddOnce(a, l.next0, i), l.next1, i) == PredLists(f, n, i + 1)
  {
    hide GraphOf, Layout, Split, Total, Final;
    var f, n := Final(code), Total(GraphOf(code));
    var l := f[i];
    FinalInside(code, i);
    PredListsStep(f, n, i);
    if l.next0 >= 0 { PredsRoom(code, i, l.next0); }
    if l.next1 >= 0 { PredsRoom(code, i, l.next1); }
  }

  /** There is room for another predecessor. */
  lemma PredsRoom(code: Code, i: nat, t: nat)
    requires CodeOk(code) && JumpsInside(code) && GraphOk(GraphOf(code)) && i < Total(GraphOf(code)) &&
      t < Total(GraphOf(code))
    ensures var f := Final(code);
      |Preds(f, t, i)| + Hits(f[i].next0, t) + Hits(f[i].next1, t) <= 2
  {
    hide GraphOf, Layout, Split, Total, Final;
    var f, n := Final(code), Total(GraphOf(code));
    FinalAtMostTwo(code, t);
    PredsGrow(f, t, i + 1, n);
  }

  lemma FinalInside(code: Code, i: nat)
    requires CodeOk(code) && JumpsInside(code) && GraphOk(GraphOf(code)) && i < Total(GraphOf(code))
    ensures var f, n := Final(code), Total(GraphOf(code)); -1 <= f[i].next0 < n && -1 <= f[i].next1 < n
  {
    hide GraphOf, Layout, Split, Rerouted;
    var g := GraphOf(code);
    FinalAt(code, i);
    SplitAt(g, i);
    LayoutNodes(g, |g|);
    TotalIs(g);
    if Layout(g, |g|)[i].Real? {
      Contracted(g, Layout(g, |g|)[i].i);
    } else {
      assert i != Pos(g, |g| - 1);
    }
  }

  /** Nothing leads to the first block and nothing goes on from the last. */
  lemma Ends(code: Code)
    requires CodeOk(code) && JumpsInside(code) && GraphOk(GraphOf(code))
    ensures Total(GraphOf(code)) > 0
    ensures Preds(Final(code), 0, Total(GraphOf(code))) == []
    ensures Final(code)[Total(GraphOf(code)) - 1] == Link(-1, -1)
  {
    hide GraphOf, Layout, Split, Pos, Final, Preds, Spans, Rerouted, Follow, Edges, IsStart, IsEnd;
    var g := GraphOf(code);
    GraphShape(code);
    FirstHasNone(code);
    TotalIs(g);
    FinalAt(code, Total(g) - 1);
    Contracted(g, |g| - 1);
  }

  /** Instruction `k` when the jumps of the first `done` blocks have been cut. */
  ghost function CutInsn(code: Code, k: nat, done: nat): Insn
    requires k < |code|
  {
    if IsJumpOnly(code[k]) && |Spans(code, k)| < done then NOP_INSN else PlacedInsn(code, k)
  }

  /** The link of a place is what the links of the graph say, unless it is cut. */
  lemma FinalAt(code: Code, p: nat)
    requires CodeOk(code) && p < Total(GraphOf(code))
    ensures |Layout(GraphOf(code), |GraphOf(code)|)| == Total(GraphOf(code))
    ensures Final(code)[p] == CutAt(code, Layout(GraphOf(code), |GraphOf(code)|)[p], Split(GraphOf(code))[p])
  {
  }

  /** The last instruction of block `j` before it is cut. */
  lemma LastCut(code: Code, j: nat)
    requires CodeOk(code) && j < |Blocks(code)|
    ensures Blocks(code)[j].last < |code|
    ensures CutInsn(code, Blocks(code)[j].last, j) == PlacedInsn(code, Blocks(code)[j].last)
    ensures var last := Blocks(code)[j].last;
      IsBranch(PlacedInsn(code, last)) == IsBranch(code[last]) && PlacedInsn(code, last).a1 == code[last].a1
  {
    hide IsStart, IsEnd, Pos;
    LastsInside(code);
    BlockOfLast(code, j);
  }

  /** Cutting the jump at the end of block `j` changes that instruction only. */
  lemma CutInsnStep(code: Code, j: nat)
    requires CodeOk(code) && j < |Blocks(code)| && Blocks(code)[j].last < |code|
    ensures forall k :: 0 <= k < |code| && k != Blocks(code)[j].last ==> CutInsn(code, k, j + 1) == CutInsn(code, k, j)
    ensures var last := Blocks(code)[j].last;
      CutInsn(code, last, j + 1) == if IsJumpOnly(code[last]) then NOP_INSN else PlacedInsn(code, last)
  {
    hide IsStart, IsEnd, PlacedInsn;
    BlockOfLast(code, j);
    forall k | 0 <= k < |code| && k != Blocks(code)[j].last
      ensures CutInsn(code, k, j + 1) == CutInsn(code, k, j)
    {
      if IsBranch(code[k]) && |Spans(code, k)| == j { BranchIsLast(code, k); }
    }
  }

  lemma PosLast(g: Graph, done: nat)
    requires g != [] && done <= |g| && (done > 0 ==> Pos(g, done - 1) < Total(g)) &&
      (done < |g| ==> Total(g) <= Pos(g, done))
    ensures done == |g|
  {
    hide Pos;
    if done < |g| { PosBelowTotal(g, done); }
  }

  /** The ranks of the edges of block `i` in terms of the counts so far. */
  lemma EdgeRanks(g: Graph, i: nat)
    requires GraphOk(g) && i < |g|
    ensures var c, l := EdgeCounts(g, i), g[i];
      |c| == |g| &&
      (l.next0 >= 0 ==> c[l.next0] < Edges(g, l.next0, |g|) && Rerouted(g, i).next0 == Entry(g, l.next0, c[l.next0])) &&
      (l.next0 < 0 ==> Rerouted(g, i).next0 == -1) &&
      (var d := if l.next0 >= 0 then c[l.next0 := c[l.next0] + 1] else c;
        (l.next1 >= 0 ==> (d[l.next1] < Edges(g, l.next1, |g|) &&
          Rerouted(g, i).next1 == Entry(g, l.next1, d[l.next1]) &&
          d[l.next1 := d[l.next1] + 1] == EdgeCounts(g, i + 1))) &&
        (l.next1 < 0 ==> Rerouted(g, i).next1 == -1 && d == EdgeCounts(g, i + 1)))
  {
    hide Pos, Offset, Entry;
    RanksBelow(g, i);
    var c, l := EdgeCounts(g, i), g[i];
    var d := if l.next0 >= 0 then c[l.next0 := c[l.next0] + 1] else c;
    var e := if l.next1 >= 0 then d[l.next1 := d[l.next1] + 1] else d;
    assert forall j :: 0 <= j < |g| ==> e[j] == EdgeCounts(g, i + 1)[j];
    assert e == EdgeCounts(g, i + 1);
  }

  /** The count after an edge was led, and how far in front of the block it was led. */
  function Led(tmp: int): (int, int) {
    if tmp < 0 then (0 - tmp, 0 - tmp - 2) else if tmp > 2 then (tmp - 1, tmp - 2) else (tmp, 0)
  }

  lemma LedStep(k: nat, c: nat)
    requires c < k
    ensures Led(TmpAfter(k, c)) == (TmpAfter(k, c + 1), Offset(k, c))
  {
  }

  /** Instruction `k` when jumps name places. */
  ghost function PlacedInsn(code: Code, k: nat): Insn
    requires k < |code|
  {
    var g := GraphOf(code);
    var ins := LinkedInsn(code, k, |g|);
    if ins.a0.Block? && 0 <= ins.a0.b < |g| then ins.(a0 := Block(Pos(g, ins.a0.b))) else ins
  }

  lemma JumpPlace(code: Code, k: nat)
    requires CodeOk(code) && JumpsInside(code) && k < |code|
    ensures var ins := LinkedInsn(code, k, |GraphOf(code)|); ins.a0.Block? ==> 0 <= ins.a0.b < |GraphOf(code)|
    ensures var ins := LinkedInsn(code, k, |GraphOf(code)|);
      PlacedInsn(code, k) == if ins.a0.Block? then ins.(a0 := Block(Pos(GraphOf(code), ins.a0.b))) else ins
  {
    hide IsStart, IsEnd, Pos;
    assert InsnOk(code[k]);
    if IsBranch(code[k]) {
      BranchIsLast(code, k);
      LinkCases(code, |Spans(code, k)|);
    }
  }

  /** The number of edges to every block from the first `i` blocks. */
  ghost function EdgeCounts(g: Graph, i: nat): (s: seq<nat>)
    requires i <= |g|
    ensures |s| == |g| && forall j :: 0 <= j < |g| ==> s[j] == Edges(g, j, i)
  {
    seq(|g|, j requires 0 <= j < |g| => Edges(g, j, i))
  }

  lemma CountsNone(g: Graph, i: nat)
    requires i < |g| && g[i] == Link(-1, -1)
    ensures EdgeCounts(g, i + 1) == EdgeCounts(g, i)
  {
  }

  lemma CountsOne(g: Graph, i: nat)
    requires i < |g| && g[i].next1 == -1 && 0 <= g[i].next0 < |g|
    ensures var cnt := EdgeCounts(g, i); EdgeCounts(g, i + 1) == cnt[g[i].next0 := cnt[g[i].next0] + 1]
  {
  }

  lemma CountsTwo(g: Graph, i: nat)
    requires i < |g| && 0 <= g[i].next0 < |g| && 0 <= g[i].next1 < |g|
    ensures var cnt := EdgeCounts(g, i);
      var once := cnt[g[i].next0 := cnt[g[i].next0] + 1];
      EdgeCounts(g, i + 1) == once[g[i].next1 := once[g[i].next1] + 1]
  {
  }

  lemma {:induction false} NoExcess(cnt: seq<nat>)
    requires forall j :: 0 <= j < |cnt| ==> cnt[j] == 0
    ensures Excess(cnt) == 0
  {
    if cnt != [] { NoExcess(cnt[..|cnt| - 1]); }
  }

  /** What block `i` links to. */
  lemma LinkCases(code: Code, i: nat)
    requires CodeOk(code) && JumpsInside(code) && i < |Blocks(code)|
    ensures GraphOk(GraphOf(code)) && Blocks(code)[i].last < |code|
    ensures var end, l := code[Blocks(code)[i].last], GraphOf(code)[i];
      if IsBranch(end) then end.a0.Jump? && l == Link(BlockAt(Blocks(code), end.a0.i, 0), i + 1) && l.next0 >= 0 &&
        i + 1 < |Blocks(code)|
      else if Blocks(code)[i].last == |code| - 1 then l == Link(-1, -1)
      else l == Link(i + 1, -1) && i + 1 < |Blocks(code)|
  {
    hide IsStart, IsEnd, Spans;
    GraphShape(code);
    LastsInside(code);
    LastOnlyLast(code, i);
    assert InsnOk(code[Blocks(code)[i].last]);
  }

  /** The block that ends with instruction `Blocks(code)[i].last` is block `i`. */
  lemma BlockOfLast(code: Code, i: nat)
    requires i < |Blocks(code)| && Blocks(code)[i].last < |code|
    ensures |Spans(code, Blocks(code)[i].last)| == i
  {
    SpansAt(code, |code|, i);
  }

  lemma {:induction false} SpansAt(code: Code, n: nat, i: nat)
    requires n <= |code| && i < |Spans(code, n)|
    ensures Spans(code, n)[i].last < n && |Spans(code, Spans(code, n)[i].last)| == i &&
      IsEnd(code, Spans(code, n)[i].last)
  {
    hide IsEnd;
    if i < |Spans(code, n - 1)| { SpansAt(code, n - 1, i); }
  }

  /** A branch is the last instruction of its block. */
  lemma BranchIsLast(code: Code, k: nat)
    requires k < |code| && IsBranch(code[k])
    ensures |Spans(code, k)| < |Blocks(code)| && Blocks(code)[|Spans(code, k)|].last == k
  {
    SpansPrefix(code, k + 1, |code|);
  }

  lemma {:induction false} SpansPrefix(code: Code, i: nat, n: nat)
    requires i <= n <= |code|
    ensures Spans(code, i) <= Spans(code, n)
    decreases n
  {
    hide IsEnd;
    if i < n { SpansPrefix(code, i, n - 1); }
  }

  /** Where the artificial blocks of block `i` start. */
  ghost function GroupStart(g: Graph, i: nat): nat { if i == 0 then 0 else Pos(g, i - 1) + 1 }

  lemma GroupPlaces(g: Graph, i: nat)
    requires i < |g|
    ensures GroupStart(g, i) == Pos(g, i) - Need(g, i) >= i && GroupStart(g, i + 1) == Pos(g, i) + 1 <= Total(g)
    ensures Need(g, i) == if Edges(g, i, |g|) > 2 then Edges(g, i, |g|) - 2 else 0
    ensures |Layout(g, |g|)| == Total(g) && Layout(g, |g|)[Pos(g, i)] == Real(i) && Edges(g, i, 0) == 0
  {
    hide Layout;
    FromHere(g, i);
    PosAbove(g, i);
    PosBelowTotal(g, i);
    LayoutNodes(g, |g|);
  }

  /** The count of a block after `c` of its `k` edges have been led to it; it starts out negative if there are too
      many. */
  ghost function TmpAfter(k: nat, c: nat): int {
    if k <= 2 then k else if c == 0 then 0 - k else if k - c + 1 > 2 then k - c + 1 else 2
  }

  lemma TmpStart(k: nat)
    ensures TmpAfter(k, 0) == if k > 2 then 0 - k else k
  {
  }

  lemma ExcessTotal(g: Graph)
    ensures Excess(EdgeCounts(g, |g|)) + |g| == Total(g) == GroupStart(g, |g|)
  {
    ExcessTo(g, |g|);
    assert EdgeCounts(g, |g|)[..|g|] == EdgeCounts(g, |g|);
  }

  lemma {:induction false} ExcessTo(g: Graph, n: nat)
    requires n <= |g|
    ensures Excess(EdgeCounts(g, |g|)[..n]) + n == GroupStart(g, n)
  {
    if n > 0 {
      ExcessTo(g, n - 1);
      assert EdgeCounts(g, |g|)[..n][..n - 1] == EdgeCounts(g, |g|)[..n - 1];
    }
  }

  /** The number of predecessors beyond the second, over all blocks. */
  ghost function Excess(cnt: seq<nat>): nat {
    if cnt == [] then 0 else Excess(cnt[..|cnt| - 1]) + if cnt[|cnt| - 1] > 2 then cnt[|cnt| - 1] - 2 else 0
  }

  lemma {:induction false} ExcessStep(cnt: seq<nat>, j: nat)
    requires j < |cnt|
    ensures Excess(cnt[j := cnt[j] + 1]) == Excess(cnt) + if cnt[j] + 1 > 2 then 1 else 0
  {
    var n := |cnt| - 1;
    var r := cnt[j := cnt[j] + 1];
    if j < n {
      assert r[..n] == cnt[..n][j := cnt[j] + 1];
      ExcessStep(cnt[..n], j);
    } else {
      assert r[..n] == cnt[..n];
    }
  }

  /** Instruction `k` when the branches of the first `i` blocks lead to blocks; it lies in block `|Spans(code, k)|`. */
  ghost function LinkedInsn(code: Code, k: nat, i: nat): Insn
    requires k < |code|
  {
    var m := Mark(code[k], IsStart(code, k), IsEnd(code, k));
    var b := |Spans(code, k)|;
    if IsBranch(code[k]) && b < i && b < |GraphOf(code)| then m.(a0 := Block(GraphOf(code)[b].next0)) else m
  }

  ghost predicate NewBlock(b: Bb, s: Span) { b.first == s.first && b.last == s.last && b.next0 == b.next1 == -1 &&
    b.tmp == 0 }

  lemma NoSpans(code: Code)
    ensures Spans(code, 0) == []
  {
  }

  /** What instruction `i` adds. */
  lemma SpanStep(code: Code, i: nat)
    requires CodeOk(code) && i < |code|
    ensures var s := Spans(code, i);
      Spans(code, i + 1) == (if IsEnd(code, i) then s + [Span(NextFirst(s), i)] else s) && NextFirst(s) <= i &&
      (IsStart(code, i) <==> NextFirst(s) == i) && |Spans(code, i + 1)| <= |Blocks(code)|
    ensures FBbStart !in code[i].ty && FBbEnd !in code[i].ty
  {
    hide IsStart, IsEnd;
    assert InsnOk(code[i]);
    SpansPartition(code, i);
    SpansPartition(code, i + 1);
    SpansGrow(code, i + 1, |code|);
    var s := Spans(code, i);
    var r := Spans(code, i + 1);
    if NextFirst(s) < i { assert !IsStart(code, i) by { NotStarted(code, i); } }
  }

  lemma NotStarted(code: Code, i: nat)
    requires i < |code| && NextFirst(Spans(code, i)) < i
    ensures !IsStart(code, i)
  {
  }

  lemma {:induction false} SpansGrow(code: Code, i: nat, n: nat)
    requires i <= n <= |code|
    ensures |Spans(code, i)| <= |Spans(code, n)|
    decreases n
  {
    if i < n { SpansGrow(code, i, n - 1); }
  }

  /** Branch `k` stays inside the function. */
  ghost predicate Inside(code: Code, k: nat)
    requires k < |code|
  {
    code[k].a0.Jump? ==> 0 <= code[k].a0.i < |code|
  }

  lemma NoMarks(code: Code)
    requires CodeOk(code)
    ensures forall k :: 0 <= k < |code| ==> !StartBy(code, k, 0) && !EndBy(code, k, 0)
  {
  }

  /** The start marks after instruction `i`. */
  ghost function NextStart(code: Code, i: nat, start: seq<bool>): (s: seq<bool>)
    requires i < |code| == |start|
  {
    var s := if i > 0 && IsBranch(code[i - 1]) then start[i := true] else start;
    if IsBranch(code[i]) && code[i].a0.Jump? && 0 <= code[i].a0.i < |s| then s[code[i].a0.i := true] else s
  }

  ghost function NextEnd(code: Code, i: nat, end: seq<bool>): (s: seq<bool>)
    requires i < |code| == |end|
  {
    if !IsBranch(code[i]) then end
    else
      var s := end[i := true];
      if code[i].a0.Jump? && 0 < code[i].a0.i < |s| then s[code[i].a0.i - 1 := true] else s
  }

  lemma MarksStep(code: Code, i: nat, start: seq<bool>, end: seq<bool>)
    requires CodeOk(code) && i < |code| == |start| == |end|
    requires forall k :: 0 <= k < |code| ==> start[k] == StartBy(code, k, i)
    requires forall k :: 0 <= k < |code| ==> end[k] == EndBy(code, k, i)
    ensures !IsBranch(code[i]) || Inside(code, i) ==>
      (forall k :: 0 <= k < |code| ==> NextStart(code, i, start)[k] == StartBy(code, k, i + 1)) &&
      (forall k :: 0 <= k < |code| ==> NextEnd(code, i, end)[k] == EndBy(code, k, i + 1))
  {
    hide TargetedBy;
    assert InsnOk(code[i]);
    if !IsBranch(code[i]) || Inside(code, i) {
      forall k | 0 <= k < |code|
        ensures NextStart(code, i, start)[k] == StartBy(code, k, i + 1)
        ensures NextEnd(code, i, end)[k] == EndBy(code, k, i + 1)
      {
        TargetNext(code, k, i);
        TargetNext(code, k + 1, i);
      }
    }
  }

  lemma MarksAll(code: Code)
    ensures forall k :: 0 <= k < |code| ==> (IsStart(code, k) <==> k == 0 || StartBy(code, k, |code|))
    ensures forall k :: 0 <= k < |code| ==> (IsEnd(code, k) <==> k == |code| - 1 || EndBy(code, k, |code|))
  {
  }

  /** Through the artificial blocks control goes where the instructions send it: a branch reaches the block that starts
      at its target and, if it has a condition, the block of the next instruction; any other block but the last reaches
      only the block of the next instruction. */
  lemma FlowKept(code: Code, i: nat)
    requires CodeOk(code) && JumpsInside(code) && i < |Blocks(code)| && Blocks(code)[i].last < |code|
    ensures
      var g := GraphOf(code);
      var s, nodes, end := Blocks(code), Layout(g, |g|), code[Blocks(code)[i].last];
      Pos(g, i) < Total(g) == |nodes| == |Final(code)| && nodes[Pos(g, i)] == Real(i) &&
      var l := Final(code)[Pos(g, i)];
      (IsBranch(end) ==> (l.next0 >= 0 && 0 <= Follow(nodes, l.next0) < |s| && end.a0.Jump? &&
        s[Follow(nodes, l.next0)].first == end.a0.i)) &&
      (i + 1 < |s| ==> s[i + 1].first == s[i].last + 1) &&
      (IsBranch(end) ==>
        i + 1 < |s| &&
        if IsJumpOnly(end) then l.next1 == -1 else l.next1 >= 0 && Follow(nodes, l.next1) == i + 1) &&
      (!IsBranch(end) && i + 1 < |s| ==> l.next0 >= 0 && Follow(nodes, l.next0) == i + 1 && l.next1 == -1) &&
      (i + 1 == |s| ==> l == Link(-1, -1))
  {
    hide IsStart, IsEnd, Spans, GraphOf, Layout, Split, Pos, Rerouted, Follow, NoStart;
    var g, s := GraphOf(code), Blocks(code);
    GraphShape(code);
    LinkCases(code, i);
    LastOnlyLast(code, i);
    SpansPartition(code, |code|);
    if i + 1 < |s| { assert SpanOk(code, s, i + 1, |code|); }
    Contracted(g, i);
    FinalAt(code, Pos(g, i));
  }
}
