/** Basic blocks of straight-line code with jumps: where they start and end, and how control goes between them. */
module CucBlocks {
  import opened CucInsn
  import opened CucGraph

  type Code = seq<Insn>

  predicate IsBranch(ins: Insn) { FBranch in ins.ty }

  /** An unconditional branch has a constant for its condition. */
  predicate IsJumpOnly(ins: Insn) { IsBranch(ins) && ins.a1.Const? }

  /** What loading leaves behind: branches have an instruction number as target, the first instruction is no target and
      the last one no branch; nothing is marked yet. */
  ghost predicate CodeOk(code: Code) {
    code != [] && !IsBranch(code[|code| - 1]) &&
    forall k :: 0 <= k < |code| ==> InsnOk(code[k])
  }

  ghost predicate InsnOk(ins: Insn) {
    FBbStart !in ins.ty && FBbEnd !in ins.ty && (IsBranch(ins) ==> ins.index.Bf? && ins.a0.Jump? && ins.a0.i != 0) &&
    !ins.a0.Block? && !ins.a1.Block? && !ins.a2.Block? && !ins.a3.Block?
  }

  ghost predicate JumpsInside(code: Code) {
    forall k :: 0 <= k < |code| && IsBranch(code[k]) && code[k].a0.Jump? ==> 0 <= code[k].a0.i < |code|
  }

  /** One of the first `n` instructions branches to `k`. */
  ghost predicate TargetedBy(code: Code, k: int, n: nat) {
    exists b :: 0 <= b < n && b < |code| && IsBranch(code[b]) && code[b].a0 == Jump(k)
  }

  ghost predicate IsStart(code: Code, k: int) {
    k == 0 || (0 < k <= |code| && IsBranch(code[k - 1])) || TargetedBy(code, k, |code|)
  }

  ghost predicate IsEnd(code: Code, k: int) {
    k == |code| - 1 || (0 <= k < |code| && IsBranch(code[k])) || TargetedBy(code, k + 1, |code|)
  }

  /** A block starts exactly behind the end of another. */
  lemma StartsFollowEnds(code: Code, k: nat)
    requires k + 1 < |code|
    ensures IsStart(code, k + 1) <==> IsEnd(code, k)
  {
  }

  datatype Span = Span(first: nat, last: nat)

  ghost function NextFirst(s: seq<Span>): nat { if s == [] then 0 else s[|s| - 1].last + 1 }

  /** The blocks that end among the first `n` instructions. */
  ghost function Spans(code: Code, n: nat): (s: seq<Span>)
    requires n <= |code|
  {
    if n == 0 then []
    else
      var s := Spans(code, n - 1);
      if IsEnd(code, n - 1) then s + [Span(NextFirst(s), n - 1)] else s
  }

  /** No block starts from `a` up to `b`. */
  ghost predicate NoStart(code: Code, a: int, b: int) { forall k :: a <= k < b ==> !IsStart(code, k) }

  /** Block `i` goes from a start, directly behind the block before it, to an end, with no start in between. */
  ghost predicate SpanOk(code: Code, s: seq<Span>, i: nat, n: nat)
    requires i < |s|
  {
    s[i].first <= s[i].last < n && s[i].first == (if i == 0 then 0 else s[i - 1].last + 1) &&
    IsStart(code, s[i].first) && IsEnd(code, s[i].last) && NoStart(code, s[i].first + 1, s[i].last + 1)
  }

  /** The blocks cover the first `n` instructions without gap or overlap, up to one that has not ended. */
  ghost predicate Partitions(code: Code, s: seq<Span>, n: nat)
    requires n <= |code|
  {
    (forall i {:trigger SpanOk(code, s, i, n)} :: 0 <= i < |s| ==> SpanOk(code, s, i, n)) &&
    NextFirst(s) <= n && NoStart(code, NextFirst(s) + 1, n) && (NextFirst(s) < |code| ==> IsStart(code, NextFirst(s)))
  }

  lemma {:induction false} SpansPartition(code: Code, n: nat)
    requires n <= |code|
    ensures Partitions(code, Spans(code, n), n)
    ensures n > 0 && IsEnd(code, n - 1) ==> NextFirst(Spans(code, n)) == n
    ensures n > 0 && !IsEnd(code, n - 1) ==> NextFirst(Spans(code, n)) < n
  {
    hide IsStart, IsEnd;
    if n > 0 {
      SpansPartition(code, n - 1);
      var s := Spans(code, n - 1);
      StartZero(code);
      if n < |code| { StartsFollowEnds(code, n - 1); }
      if n - 1 > 0 { StartsFollowEnds(code, n - 2); }
      var s' := Spans(code, n);
      assert NextFirst(s) == n - 1 || !IsStart(code, n - 1);
      forall i | 0 <= i < |s'|
        ensures SpanOk(code, s', i, n)
      {
        if i < |s| { assert SpanOk(code, s, i, n - 1); }
      }
    } else {
      StartZero(code);
    }
  }

  lemma StartZero(code: Code)
    ensures IsStart(code, 0) && IsEnd(code, |code| - 1)
  {
  }

  ghost function Blocks(code: Code): seq<Span> { Spans(code, |code|) }

  /** The block that starts at instruction `k`. */
  lemma {:induction false} BlockStarting(s: seq<Span>, code: Code, k: nat, n: nat) returns (j: nat)
    requires n <= |code| && s == Spans(code, n) && k < NextFirst(s) && IsStart(code, k)
    ensures j < |s| && s[j].first == k
    decreases n
  {
    hide IsStart, IsEnd;
    SpansPartition(code, n);
    if n > 0 {
      SpansPartition(code, n - 1);
      var r := Spans(code, n - 1);
      if k < NextFirst(r) {
        j := BlockStarting(r, code, k, n - 1);
      } else {
        j := |s| - 1;
        assert SpanOk(code, s, j, n);
        assert k > s[j].first ==> !IsStart(code, k);
      }
    }
  }

  /** The number of the first block from `i` on that starts at instruction `k`. */
  ghost function BlockAt(s: seq<Span>, k: int, i: nat): (j: nat)
    requires i <= |s|
    ensures i <= j <= |s| && (j < |s| ==> s[j].first == k) && forall h :: i <= h < j ==> s[h].first != k
    decreases |s| - i
  {
    if i == |s| || s[i].first == k then i else BlockAt(s, k, i + 1)
  }

  /** Where control goes from block `i`: a branch goes to its target or on to the next block, other blocks go on to the
      next, and the last one nowhere. */
  ghost function LinkAt(code: Code, s: seq<Span>, i: nat): Link
    requires i < |s| && s[i].last < |code|
  {
    var end := code[s[i].last];
    if IsBranch(end) && end.a0.Jump? then Link(BlockAt(s, end.a0.i, 0), i + 1)
    else if s[i].last == |code| - 1 then Link(-1, -1)
    else Link(i + 1, -1)
  }

  lemma LastsInside(code: Code)
    ensures forall i :: 0 <= i < |Blocks(code)| ==> Blocks(code)[i].last < |code|
  {
    hide IsStart, IsEnd, Spans;
    SpansPartition(code, |code|);
    forall i | 0 <= i < |Blocks(code)|
      ensures Blocks(code)[i].last < |code|
    {
      assert SpanOk(code, Blocks(code), i, |code|);
    }
  }

  ghost function GraphOf(code: Code): (g: Graph)
    ensures |g| == |Blocks(code)|
  {
    LastsInside(code);
    var s := Blocks(code);
    seq(|s|, i requires 0 <= i < |s| => LinkAt(code, s, i))
  }

  /** The graph stays inside the blocks, nothing leads to the first block and nothing goes on from the last. */
  lemma GraphShape(code: Code)
    requires CodeOk(code) && JumpsInside(code)
    ensures var g := GraphOf(code); GraphOk(g) && g != [] && g[|g| - 1] == Link(-1, -1)
    ensures forall i :: 0 <= i < |GraphOf(code)| ==> GraphOf(code)[i].next0 != 0 && GraphOf(code)[i].next1 != 0
  {
    hide IsStart, IsEnd, Spans, NoStart;
    SpansPartition(code, |code|);
    StartZero(code);
    var s, g := Blocks(code), GraphOf(code);
    forall i | 0 <= i < |g|
      ensures -1 <= g[i].next0 < |g| && -1 <= g[i].next1 < |g| && g[i].next0 != 0 && g[i].next1 != 0
    {
      LastOnlyLast(code, i);
      assert SpanOk(code, s, 0, |code|);
      var end := code[s[i].last];
      assert InsnOk(end);
      if IsBranch(end) {
        assert code[s[i].last].a0 == Jump(end.a0.i);
        assert TargetedBy(code, end.a0.i, |code|);
        Target(code, end.a0.i);
        var j := BlockStarting(s, code, end.a0.i, |code|);
      }
    }
  }

  lemma Target(code: Code, k: int)
    requires TargetedBy(code, k, |code|)
    ensures IsStart(code, k)
  {
  }

  /** Only the last block ends with the last instruction. */
  lemma LastOnlyLast(code: Code, i: nat)
    requires code != [] && i < |Blocks(code)|
    ensures Blocks(code)[i].last == |code| - 1 <==> i == |Blocks(code)| - 1
    ensures Blocks(code)[i].last < |code|
  {
    hide IsStart, IsEnd;
    SpansPartition(code, |code|);
    StartZero(code);
    var s := Blocks(code);
    assert SpanOk(code, s, i, |code|) && SpanOk(code, s, |s| - 1, |code|);
    if i < |s| - 1 { SpansOrdered(s, i, |s| - 1, code); }
  }

  lemma {:induction false} SpansOrdered(s: seq<Span>, i: nat, j: nat, code: Code)
    requires Partitions(code, s, |code|) && i < j < |s|
    ensures s[i].last < s[j].first
    decreases j
  {
    hide IsStart, IsEnd;
    assert SpanOk(code, s, j, |code|);
    if i < j - 1 {
      SpansOrdered(s, i, j - 1, code);
      assert SpanOk(code, s, j - 1, |code|);
    }
  }

  /** The links after unconditional branches have lost their way to the next block. */
  ghost function Final(code: Code): (f: seq<Link>)
    requires CodeOk(code)
    ensures |f| == Total(GraphOf(code))
  {
    var g := GraphOf(code);
    SpansPartition(code, |code|);
    LayoutNodes(g, |g|);
    var nodes := Layout(g, |g|);
    seq(|nodes|, p requires 0 <= p < |nodes| => CutAt(code, nodes[p], Split(g)[p]))
  }

  ghost predicate Cut(code: Code, node: Node) {
    node.Real? && node.i < |Blocks(code)| && Blocks(code)[node.i].last < |code| &&
      IsJumpOnly(code[Blocks(code)[node.i].last])
  }

  ghost function CutAt(code: Code, node: Node, l: Link): Link { if Cut(code, node) then Link(l.next0, -1) else l }

  /** Taking edges away leaves no more predecessors. */
  lemma {:induction false} CutPreds(a: seq<Link>, b: seq<Link>, t: nat, p: nat)
    requires p <= |a| == |b| && forall k :: 0 <= k < |a| ==> b[k] == a[k] || b[k] == Link(a[k].next0, -1)
    ensures |Preds(b, t, p)| <= |Preds(a, t, p)|
  {
    if p > 0 { CutPreds(a, b, t, p - 1); }
  }

  lemma FinalAtMostTwo(code: Code, t: nat)
    requires CodeOk(code) && JumpsInside(code) && t < Total(GraphOf(code))
    ensures |Preds(Final(code), t, Total(GraphOf(code)))| <= 2
  {
    hide Total, Split, Layout, GraphOf, Cut;
    GraphShape(code);
    AtMostTwo(GraphOf(code), t);
    CutPreds(Split(GraphOf(code)), Final(code), t, Total(GraphOf(code)));
  }

  /** The first block keeps its place and has no predecessor. */
  lemma FirstHasNone(code: Code)
    requires CodeOk(code) && JumpsInside(code)
    ensures Preds(Final(code), 0, Total(GraphOf(code))) == [] && Pos(GraphOf(code), 0) == 0
  {
    hide Split, Layout, Cut, Pos, GraphOf;
    var g := GraphOf(code);
    GraphShape(code);
    NoEdges(g, 0, |g|);
    NeedIs(g, 0);
    FromHere(g, 0);
    PredsCount(g, 0, |g|);
    ArrivalsCount(g, 0, 0, |g|);
    TotalIs(g);
    CutPreds(Split(g), Final(code), 0, Total(g));
  }

  lemma {:induction false} NoEdges(g: Graph, j: int, i: nat)
    requires i <= |g| && forall k :: 0 <= k < |g| ==> g[k].next0 != j && g[k].next1 != j
    ensures Edges(g, j, i) == 0
  {
    if i > 0 { NoEdges(g, j, i - 1); }
  }

  /** Blocks are no smaller than they have to be: one other than the first starts behind a branch or where a branch
      leads. */
  lemma BlocksMaximal(code: Code, i: nat)
    requires 0 < i < |Blocks(code)|
    ensures var k := Blocks(code)[i].first;
      0 < k < |code| &&
      (FBranch in code[k - 1].ty || exists b :: 0 <= b < |code| && FBranch in code[b].ty && code[b].a0 == Jump(k))
  {
    hide IsEnd;
    SpansPartition(code, |code|);
    assert SpanOk(code, Blocks(code), i, |code|);
    assert SpanOk(code, Blocks(code), i - 1, |code|);
  }
}
