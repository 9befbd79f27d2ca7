/** Limiting the number of predecessors of a block: artificial blocks in front of it take up all but two of the edges
    that lead to it. */
module CucGraph {

  /** Where control goes on from a block; -1 for nowhere. */
  datatype Link = Link(next0: int, next1: int)

  type Graph = seq<Link>

  ghost predicate GraphOk(g: Graph) {
    forall i :: 0 <= i < |g| ==> -1 <= g[i].next0 < |g| && -1 <= g[i].next1 < |g|
  }

  function Hits(next: int, j: int): nat { if next == j then 1 else 0 }

  /** The number of edges from the first `i` blocks to block `j`. */
  function Edges(g: Graph, j: int, i: nat): (n: nat)
    requires i <= |g|
  {
    if i == 0 then 0 else Edges(g, j, i - 1) + Hits(g[i - 1].next0, j) + Hits(g[i - 1].next1, j)
  }

  /** The number of artificial blocks in front of block `j`. */
  function Need(g: Graph, j: int): nat { var k := Edges(g, j, |g|); if k > 2 then k - 2 else 0 }

  /** Where block `i` ends up. */
  function Pos(g: Graph, i: nat): nat { (if i == 0 then 0 else Pos(g, i - 1) + 1) + Need(g, i) }

  function Total(g: Graph): nat { if g == [] then 0 else Pos(g, |g| - 1) + 1 }

  lemma {:induction false} PosIncreases(g: Graph, i: nat, j: nat)
    requires i < j
    ensures Pos(g, i) < Pos(g, j) - Need(g, j)
    decreases j
  {
    if i < j - 1 { PosIncreases(g, i, j - 1); }
  }

  lemma {:induction false} PosAbove(g: Graph, i: nat)
    ensures Pos(g, i) >= i + Need(g, i)
  {
    if i > 0 { PosAbove(g, i - 1); }
  }

  /** How far in front of a block with `k` edges the edge number `r` leads: the first two share the first artificial
      block, every other has a block of its own, the last one the block itself. */
  function Offset(k: nat, r: nat): (q: int) { if k <= 2 then 0 else k - 1 - (if r == 0 then 1 else r) }

  function Entry(g: Graph, j: nat, r: nat): int { Pos(g, j) - Offset(Edges(g, j, |g|), r) }

  lemma OffsetRange(k: nat, r: nat)
    requires r < k
    ensures 0 <= Offset(k, r) <= if k > 2 then k - 2 else 0
  {
  }

  /** The number of the first `c` edges that lead `q` places in front of the block. */
  function Landed(k: nat, q: int, c: nat): nat {
    if c == 0 then 0 else Landed(k, q, c - 1) + Hits(Offset(k, c - 1), q)
  }

  /** No place takes more than two edges, and one that has an artificial block in front of it takes at most one. */
  lemma {:induction false} LandedBound(k: nat, q: int, c: nat)
    requires c <= k
    ensures k <= 2 ==> Landed(k, q, c) == if q == 0 then c else 0
    ensures k > 2 && q < k - 2 ==> Landed(k, q, c) == if 0 <= q && c >= k - q then 1 else 0
    ensures k > 2 && q == k - 2 ==> Landed(k, q, c) == if c <= 2 then c else 2
  {
    if c > 0 { LandedBound(k, q, c - 1); }
  }

  // ---- The graph with the artificial blocks ----

  datatype Node = Art | Real(i: nat)

  /** The blocks in order: in front of each of the first `n` blocks its artificial ones. */
  function Layout(g: Graph, n: nat): (s: seq<Node>)
    ensures |s| == if n == 0 then 0 else Pos(g, n - 1) + 1
  {
    if n == 0 then [] else Layout(g, n - 1) + seq(Need(g, n - 1), _ => Art) + [Real(n - 1)]
  }

  /** Rank of the edge in slot 0 or 1 of block `i` among the edges to its target. */
  function Rank0(g: Graph, i: nat): nat requires i < |g| { Edges(g, g[i].next0, i) }

  function Rank1(g: Graph, i: nat): nat requires i < |g| { Edges(g, g[i].next1, i) + Hits(g[i].next0, g[i].next1) }

  /** The links of block `i` after the artificial blocks have been put in. */
  function Rerouted(g: Graph, i: nat): (l: Link)
    requires i < |g|
  {
    Link(if g[i].next0 < 0 then -1 else Entry(g, g[i].next0, Rank0(g, i)),
         if g[i].next1 < 0 then -1 else Entry(g, g[i].next1, Rank1(g, i)))
  }

  function LinkOf(g: Graph, node: Node, p: nat): Link
    requires node.Real? ==> node.i < |g|
  {
    if node.Art? then Link(p + 1, -1) else Rerouted(g, node.i)
  }

  lemma {:induction false} LayoutNodes(g: Graph, n: nat)
    requires n <= |g|
    ensures forall p :: 0 <= p < |Layout(g, n)| && Layout(g, n)[p].Real? ==>
      Layout(g, n)[p].i < n && Pos(g, Layout(g, n)[p].i) == p
    ensures forall i :: 0 <= i < n ==> Pos(g, i) < |Layout(g, n)| && Layout(g, n)[Pos(g, i)] == Real(i)
  {
    hide Pos, Need;
    if n > 0 {
      LayoutNodes(g, n - 1);
      var a, s := Layout(g, n - 1), Layout(g, n);
      assert forall p :: 0 <= p < |a| ==> s[p] == a[p];
      assert forall p :: |a| <= p < |s| - 1 ==> s[p] == Art;
      assert s[|s| - 1] == Real(n - 1);
    }
  }

  /** The places up to `Need` in front of a block are artificial. */
  lemma {:induction false} LayoutArt(g: Graph, n: nat, i: nat, q: nat)
    requires i < n && 0 < q <= Need(g, i)
    ensures Pos(g, i) - q >= 0 && Pos(g, i) < |Layout(g, n)| && Layout(g, n)[Pos(g, i) - q] == Art
    decreases n
  {
    if i < n - 1 { LayoutArt(g, n - 1, i, q); }
  }

  /** Every place belongs to one block. */
  lemma {:induction false} OwnerOf(g: Graph, n: nat, t: nat) returns (j: nat)
    requires t < |Layout(g, n)|
    ensures j < n && Pos(g, j) - Need(g, j) <= t <= Pos(g, j)
  {
    if t < |Layout(g, n - 1)| { j := OwnerOf(g, n - 1, t); } else { j := n - 1; }
  }

  /** The edges of the first `i` blocks that lead to place `t`. */
  function Arrivals(g: Graph, t: int, i: nat): nat
    requires i <= |g|
  {
    if i == 0 then 0
    else Arrivals(g, t, i - 1) + Hits(Rerouted(g, i - 1).next0, t) + Hits(Rerouted(g, i - 1).next1, t)
  }

  /** Edges that lead near block `j` were edges to block `j`. */
  lemma EntryNear(g: Graph, j: nat, q: nat, k: nat, r: nat)
    requires k < |g| && r < Edges(g, k, |g|) && q <= Need(g, j)
    ensures Entry(g, k, r) == Pos(g, j) - q <==> k == j && Offset(Edges(g, j, |g|), r) == q
  {
    hide Pos, Edges, Offset;
    OffsetRange(Edges(g, k, |g|), r);
    if k < j { PosIncreases(g, k, j); } else if j < k { PosIncreases(g, j, k); }
  }

  lemma {:induction false} EdgesGrow(g: Graph, j: int, i: nat, i': nat)
    requires i <= i' <= |g|
    ensures Edges(g, j, i) <= Edges(g, j, i')
    decreases i'
  {
    if i < i' { EdgesGrow(g, j, i, i' - 1); }
  }

  /** The ranks of the edges of a block are below the number of edges. */
  lemma RanksBelow(g: Graph, i: nat)
    requires i < |g|
    ensures Rank0(g, i) < Edges(g, g[i].next0, |g|) && Rank1(g, i) < Edges(g, g[i].next1, |g|)
  {
    EdgesGrow(g, g[i].next0, i + 1, |g|);
    EdgesGrow(g, g[i].next1, i + 1, |g|);
  }

  lemma {:induction false} ArrivalsCount(g: Graph, j: nat, q: nat, i: nat)
    requires GraphOk(g) && i <= |g| && j < |g| && q <= Need(g, j)
    ensures Arrivals(g, Pos(g, j) - q, i) == Landed(Edges(g, j, |g|), q, Edges(g, j, i))
  {
    hide Pos, Need, Entry, Offset;
    if i > 0 {
      var b := i - 1;
      ArrivalsCount(g, j, q, b);
      RanksBelow(g, b);
      PosAbove(g, j);
      if g[b].next0 >= 0 { EntryNear(g, j, q, g[b].next0, Rank0(g, b)); }
      if g[b].next1 >= 0 { EntryNear(g, j, q, g[b].next1, Rank1(g, b)); }
    }
  }

  // ---- Predecessors ----

  function If(c: bool, x: nat): (s: seq<nat>) { if c then [x] else [] }

  /** The first `p` blocks that lead to `t`, once for each edge. */
  function Preds(links: seq<Link>, t: int, p: nat): (s: seq<nat>)
    requires p <= |links|
    ensures forall k :: 0 <= k < |s| ==> s[k] < p
  {
    if p == 0 then []
    else Preds(links, t, p - 1) + If(links[p - 1].next0 == t, p - 1) + If(links[p - 1].next1 == t, p - 1)
  }

  /** The links of the graph with its artificial blocks. */
  function Split(g: Graph): (links: seq<Link>)
    ensures |links| == Total(g)
  {
    LayoutNodes(g, |g|);
    var s := Layout(g, |g|);
    seq(|s|, p requires 0 <= p < |s| => LinkOf(g, s[p], p))
  }

  /** From one block to the next there are only artificial blocks, each of which leads to the one behind it. */
  lemma {:induction false} PredsOverArt(g: Graph, t: nat, i: nat, c: nat)
    requires GraphOk(g) && i < |g| && c <= Need(g, i)
    ensures var from := Pos(g, i) - Need(g, i);
      from >= 0 && from + c <= Total(g) &&
      |Preds(Split(g), t, from + c)| == |Preds(Split(g), t, from)| + if from < t <= from + c then 1 else 0
  {
    hide Need, Split, Layout, Pos, Preds, Total;
    var from := Pos(g, i) - Need(g, i);
    PosAbove(g, i);
    if i < |g| - 1 { PosIncreases(g, i, |g| - 1); }
    TotalIs(g);
    if c > 0 {
      PredsOverArt(g, t, i, c - 1);
      LayoutArt(g, |g|, i, Need(g, i) - (c - 1));
      PredsArt(g, t, from + c - 1);
    }
  }

  lemma PredsArt(g: Graph, t: nat, p: nat)
    requires p < Total(g) && Layout(g, |g|)[p] == Art
    ensures |Preds(Split(g), t, p + 1)| == |Preds(Split(g), t, p)| + Hits(p + 1, t)
  {
    hide Split, Layout;
    SplitAt(g, p);
  }

  lemma SplitAt(g: Graph, p: nat)
    requires p < Total(g)
    ensures Layout(g, |g|)[p].Real? ==> Layout(g, |g|)[p].i < |g|
    ensures Split(g)[p] == LinkOf(g, Layout(g, |g|)[p], p)
  {
    LayoutNodes(g, |g|);
  }

  /** Is place `t` directly behind an artificial block? */
  predicate BehindArt(g: Graph, t: nat) { 0 < t <= Total(g) && Layout(g, |g|)[t - 1].Art? }

  lemma {:induction false} PredsCount(g: Graph, t: nat, n: nat)
    requires GraphOk(g) && 0 < n <= |g|
    ensures Pos(g, n - 1) < Total(g)
    ensures |Preds(Split(g), t, Pos(g, n - 1) + 1)| == Arrivals(g, t, n) + if t <= Pos(g, n - 1) &&
      BehindArt(g, t) then 1 else 0
  {
    hide Need, Split, Layout, Rerouted, Pos, Preds, BehindArt;
    var i := n - 1;
    var from := Pos(g, i) - Need(g, i);
    if i < |g| - 1 { PosIncreases(g, i, |g| - 1); }
    TotalIs(g);
    FromHere(g, i);
    PosAbove(g, i);
    PredsOverArt(g, t, i, Need(g, i));
    PredsReal(g, t, i);
    Behind(g, t, i);
    if i > 0 { PredsCount(g, t, i); } else { NoPreds(g, t); }
  }

  lemma TotalIs(g: Graph)
    requires g != []
    ensures Total(g) == Pos(g, |g| - 1) + 1
  {
  }

  lemma NoPreds(g: Graph, t: nat)
    ensures Preds(Split(g), t, 0) == []
  {
  }

  lemma PredsReal(g: Graph, t: nat, i: nat)
    requires GraphOk(g) && i < |g|
    ensures Pos(g, i) < Total(g)
    ensures |Preds(Split(g), t, Pos(g, i) + 1)| ==
      |Preds(Split(g), t, Pos(g, i))| + Hits(Rerouted(g, i).next0, t) + Hits(Rerouted(g, i).next1, t)
  {
    hide Need, Split, Layout, Rerouted, Pos;
    TotalIs(g);
    if i < |g| - 1 { PosIncreases(g, i, |g| - 1); }
    LayoutNodes(g, |g|);
    SplitAt(g, Pos(g, i));
  }

  /** Which of the places of block `i` and its artificial blocks are behind an artificial block. */
  lemma Behind(g: Graph, t: nat, i: nat)
    requires GraphOk(g) && i < |g| && Pos(g, i) < Total(g)
    ensures Pos(g, i) - Need(g, i) < t <= Pos(g, i) ==> BehindArt(g, t)
    ensures t == Pos(g, i) - Need(g, i) ==> !BehindArt(g, t)
  {
    hide Need, Layout, Pos;
    if Pos(g, i) - Need(g, i) < t <= Pos(g, i) { LayoutArt(g, |g|, i, Pos(g, i) - (t - 1)); }
    if t == Pos(g, i) - Need(g, i) && i > 0 {
      FromHere(g, i);
      LayoutNodes(g, |g|);
      assert Layout(g, |g|)[t - 1] == Real(i - 1);
    }
    if i == 0 { FromHere(g, i); }
  }

  lemma FromHere(g: Graph, i: nat)
    ensures Pos(g, i) - Need(g, i) == if i == 0 then 0 else Pos(g, i - 1) + 1
  {
  }

  /** No block has more than two predecessors. */
  lemma AtMostTwo(g: Graph, t: nat)
    requires GraphOk(g) && t < Total(g)
    ensures |Preds(Split(g), t, Total(g))| <= 2
  {
    hide Need, Split, Layout, Rerouted, Pos, Landed;
    var j := OwnerOf(g, |g|, t);
    var q := Pos(g, j) - t;
    var k := Edges(g, j, |g|);
    PredsCount(g, t, |g|);
    ArrivalsCount(g, j, q, |g|);
    NeedIs(g, j);
    LandedBound(k, q, k);
    PosBelowTotal(g, j);
    Behind(g, t, j);
    TotalIs(g);
  }

  lemma PosBelowTotal(g: Graph, i: nat)
    requires i < |g|
    ensures Pos(g, i) < Total(g)
  {
    if i < |g| - 1 { PosIncreases(g, i, |g| - 1); }
  }

  lemma NeedIs(g: Graph, j: int)
    ensures Need(g, j) == if Edges(g, j, |g|) > 2 then Edges(g, j, |g|) - 2 else 0
  {
  }

  // ---- Contraction ----

  /** The block that control reaches from place `t` through artificial blocks only. */
  function Follow(nodes: seq<Node>, t: nat): int
    decreases |nodes| - t
  {
    if t >= |nodes| then -1
    else match nodes[t]
         case Real(i) => i
         case Art => Follow(nodes, t + 1)
  }

  lemma {:induction false} FollowTo(g: Graph, j: nat, q: nat)
    requires j < |g| && q <= Need(g, j)
    ensures Pos(g, j) - q >= 0 && Follow(Layout(g, |g|), Pos(g, j) - q) == j
    decreases q
  {
    hide Need, Layout, Pos;
    LayoutNodes(g, |g|);
    if q > 0 {
      LayoutArt(g, |g|, j, q);
      FollowTo(g, j, q - 1);
    }
  }

  /** With the artificial blocks taken out again the graph is what it was. */
  lemma Contracted(g: Graph, i: nat)
    requires GraphOk(g) && i < |g|
    ensures Pos(g, i) < Total(g) && Layout(g, |g|)[Pos(g, i)] == Real(i) && Split(g)[Pos(g, i)] == Rerouted(g, i)
    ensures g[i].next0 < 0 ==> Rerouted(g, i).next0 == -1
    ensures g[i].next1 < 0 ==> Rerouted(g, i).next1 == -1
    ensures g[i].next0 >= 0 ==>
      0 <= Rerouted(g, i).next0 < Total(g) &&
      Follow(Layout(g, |g|), Rerouted(g, i).next0) == g[i].next0
    ensures g[i].next1 >= 0 ==>
      0 <= Rerouted(g, i).next1 < Total(g) &&
      Follow(Layout(g, |g|), Rerouted(g, i).next1) == g[i].next1
  {
    hide Need, Layout, Pos, Split, Edges, Offset;
    PosBelowTotal(g, i);
    LayoutNodes(g, |g|);
    SplitAt(g, Pos(g, i));
    RanksBelow(g, i);
    if g[i].next0 >= 0 { EntryFollows(g, g[i].next0, Rank0(g, i)); }
    if g[i].next1 >= 0 { EntryFollows(g, g[i].next1, Rank1(g, i)); }
  }

  lemma EntryFollows(g: Graph, j: nat, r: nat)
    requires j < |g| && r < Edges(g, j, |g|)
    ensures 0 <= Entry(g, j, r) < Total(g) && Follow(Layout(g, |g|), Entry(g, j, r)) == j
  {
    hide Need, Layout, Pos, Edges, Offset;
    OffsetRange(Edges(g, j, |g|), r);
    NeedIs(g, j);
    FollowTo(g, j, Offset(Edges(g, j, |g|), r));
    PosBelowTotal(g, j);
  }
}
