/** One set of the instruction cache as a pure state machine, and why its usage
    counters are an exact least-recently-used order when there are enough of them. */
module IcacheLru {

  const EMPTY := -1

  /** Tag and usage counter of every way. */
  datatype CacheSet = CacheSet(tags: seq<int>, lrus: seq<nat>)

  ghost predicate Shaped(c: CacheSet, nways: nat) { |c.tags| == nways && |c.lrus| == nways }

  /** Before the first fetch. */
  function Fresh(nways: nat): (c: CacheSet)
    ensures |c.tags| == |c.lrus| == nways
  {
    CacheSet(seq(nways, _ => EMPTY), seq(nways, _ => 0))
  }

  /** The first way from `j` on that holds `tag`; the number of ways if there is none. */
  function Find(tags: seq<int>, tag: int, j: nat): (w: nat)
    requires j <= |tags|
    ensures j <= w <= |tags| && (w < |tags| ==> tags[w] == tag) && forall k :: j <= k < w ==> tags[k] != tag
    decreases |tags| - j
  {
    if j == |tags| || tags[j] == tag then j else Find(tags, tag, j + 1)
  }

  predicate Hits(c: CacheSet, tag: int) { Find(c.tags, tag, 0) < |c.tags| }

  /** Ways used more recently than `way` move down one state; `way` moves to the top. */
  function Promote(lrus: seq<nat>, way: nat, ustates: nat): (r: seq<nat>)
    requires way < |lrus| && ustates > 0
    ensures |r| == |lrus|
  {
    seq(|lrus|, j requires 0 <= j < |lrus| =>
      if j == way then ustates - 1 else if lrus[j] > lrus[way] then lrus[j] - 1 else lrus[j])
  }

  /** The victim scan: the first way with the smallest counter below the current minimum. */
  function Scan(lrus: seq<nat>, j: nat, way: nat, min: nat): nat
    requires j <= |lrus|
    decreases |lrus| - j
  {
    if j == |lrus| then way
    else if lrus[j] < min then Scan(lrus, j + 1, j, lrus[j])
    else Scan(lrus, j + 1, way, min)
  }

  function Victim(lrus: seq<nat>, ustates: nat): nat
    requires ustates > 0
  {
    Scan(lrus, 0, 0, ustates - 1)
  }

  /** The scan ends at the first of the smallest counters, if any is below the current minimum. */
  lemma {:induction false} ScanMinimal(lrus: seq<nat>, j: nat, way: nat, min: nat)
    requires j <= |lrus|
    ensures
      var v := Scan(lrus, j, way, min);
      (v == way && forall k :: j <= k < |lrus| ==> lrus[k] >= min) ||
      (j <= v < |lrus| && lrus[v] < min && (forall k :: j <= k < v ==> lrus[v] < lrus[k]) &&
       forall k :: j <= k < |lrus| ==> lrus[v] <= lrus[k])
    decreases |lrus| - j
  {
    if j < |lrus| {
      if lrus[j] < min {
        ScanMinimal(lrus, j + 1, j, lrus[j]);
      } else {
        ScanMinimal(lrus, j + 1, way, min);
      }
    }
  }

  /** Every counter moves down one state, except at zero; the new way moves to the top. */
  function Replace(c: CacheSet, way: nat, tag: int, ustates: nat): (r: CacheSet)
    requires way < |c.tags| == |c.lrus| && ustates > 0
    ensures |r.tags| == |r.lrus| == |c.tags|
  {
    CacheSet(c.tags[way := tag],
             seq(|c.lrus|, j requires 0 <= j < |c.lrus| =>
               if j == way then ustates - 1 else if c.lrus[j] > 0 then c.lrus[j] - 1 else 0))
  }

  /** A way is given up. */
  function Emptied(c: CacheSet, way: nat): (r: CacheSet)
    requires way < |c.tags| == |c.lrus|
    ensures |r.tags| == |r.lrus| == |c.tags|
  {
    CacheSet(c.tags[way := EMPTY], c.lrus[way := 0])
  }

  /** A set is `was` with its counters replaced by those of `next` below way `n`. */
  ghost predicate Aging(now: CacheSet, n: nat, next: seq<nat>, was: CacheSet)
    requires |now.lrus| == |was.lrus| == |next|
  {
    now.tags == was.tags && forall k :: 0 <= k < |next| ==> now.lrus[k] == if k < n then next[k] else was.lrus[k]
  }

  /** A fetch of a mapped block. */
  function Fetch(c: CacheSet, tag: int, ustates: nat): (r: CacheSet)
    requires 0 < |c.tags| == |c.lrus| && ustates > 0
    ensures |r.tags| == |r.lrus| == |c.tags|
  {
    var w := Find(c.tags, tag, 0);
    if w < |c.tags| then CacheSet(c.tags, Promote(c.lrus, w, ustates))
    else
      VictimInRange(c.lrus, ustates);
      Replace(c, Victim(c.lrus, ustates), tag, ustates)
  }

  lemma VictimInRange(lrus: seq<nat>, ustates: nat)
    requires |lrus| > 0 && ustates > 0
    ensures Victim(lrus, ustates) < |lrus|
  {
    ScanInRange(lrus, 0, 0, ustates - 1);
  }

  lemma {:induction false} ScanInRange(lrus: seq<nat>, j: nat, way: nat, min: nat)
    requires j <= |lrus| && way < |lrus|
    ensures Scan(lrus, j, way, min) < |lrus|
    decreases |lrus| - j
  {
    if j < |lrus| {
      if lrus[j] < min { ScanInRange(lrus, j + 1, j, lrus[j]); } else { ScanInRange(lrus, j + 1, way, min); }
    }
  }

  function FetchAll(c: CacheSet, history: seq<int>, ustates: nat): (r: CacheSet)
    requires 0 < |c.tags| == |c.lrus| && ustates > 0
    ensures |r.tags| == |r.lrus| == |c.tags|
  {
    if history == [] then c else Fetch(FetchAll(c, history[..|history| - 1], ustates), history[|history| - 1], ustates)
  }

  // ---- The order of last use ----

  function Without(s: seq<int>, x: int): (r: seq<int>)
    ensures x !in r && |r| <= |s| && (forall y :: y in r ==> y in s) && (forall y :: y in s && y != x ==> y in r)
  {
    if s == [] then [] else if s[0] == x then Without(s[1..], x) else [s[0]] + Without(s[1..], x)
  }

  /** The distinct tags of a history, most recently fetched first. */
  function Recency(history: seq<int>): (r: seq<int>)
    ensures forall y :: y in r <==> y in history
  {
    if history == [] then []
    else
      var last := history[|history| - 1];
      assert history == history[..|history| - 1] + [last];
      [last] + Without(Recency(history[..|history| - 1]), last)
  }

  ghost predicate Distinct<T>(s: seq<T>) { forall i, j :: 0 <= i < j < |s| ==> s[i] != s[j] }

  lemma {:induction false} WithoutAt(s: seq<int>, i: nat)
    requires i < |s| && Distinct(s)
    ensures Without(s, s[i]) == s[..i] + s[i + 1..]
  {
    if i == 0 {
      WithoutAbsent(s[1..], s[0]);
    } else {
      WithoutAt(s[1..], i - 1);
      assert s[1..][..i - 1] == s[1..i] && s[1..][i..] == s[i + 1..];
    }
  }

  lemma {:induction false} WithoutAbsent(s: seq<int>, x: int)
    requires x !in s
    ensures Without(s, x) == s
  {
    if s != [] {
      WithoutAbsent(s[1..], x);
    }
  }

  lemma {:induction false} RecencyDistinct(history: seq<int>)
    ensures Distinct(Recency(history))
  {
    if history != [] {
      var h, x := history[..|history| - 1], history[|history| - 1];
      RecencyDistinct(h);
      var r := Recency(h);
      if x in r {
        var i :| 0 <= i < |r| && r[i] == x;
        WithoutAt(r, i);
      } else {
        WithoutAbsent(r, x);
      }
    }
  }

  function Min(a: nat, b: nat): nat { if a < b then a else b }

  /** `order[i]` is the way that holds the `i`-th most recently used tag, and its counter says so. */
  ghost predicate Ordered(c: CacheSet, order: seq<nat>, recent: seq<int>, nways: nat, ustates: nat) {
    Shaped(c, nways) && |order| == Min(|recent|, nways) <= ustates && Distinct(order) &&
    (forall i :: 0 <= i < |order| ==>
      order[i] < nways && c.tags[order[i]] == recent[i] && c.lrus[order[i]] == ustates - 1 - i) &&
    (forall w :: 0 <= w < nways && w !in order ==> c.tags[w] == EMPTY && c.lrus[w] == 0)
  }

  /** A fetch hits exactly when its tag is among the `nways` most recent ones. */
  lemma OrderedHits(c: CacheSet, order: seq<nat>, recent: seq<int>, nways: nat, ustates: nat, tag: int)
    requires Ordered(c, order, recent, nways, ustates) && tag != EMPTY
    ensures Hits(c, tag) <==> tag in recent[..|order|]
  {
    if tag in recent[..|order|] {
      var i :| 0 <= i < |order| && recent[i] == tag;
      assert c.tags[order[i]] == tag;
    }
  }

  /** Moving the `i`-th way to the front keeps the ways distinct, and the same ones. */
  lemma MovedToFront(order: seq<nat>, i: nat) returns (order': seq<nat>)
    requires Distinct(order) && i < |order|
    ensures order' == [order[i]] + order[..i] + order[i + 1..] && Distinct(order')
    ensures forall w :: w in order ==> w in order'
  {
    order' := [order[i]] + order[..i] + order[i + 1..];
    forall w | w in order
      ensures w in order'
    {
      var k :| 0 <= k < |order| && order[k] == w;
      assert order'[if k == i then 0 else if k < i then k + 1 else k] == w;
    }
  }

  /** A hit on the `i`-th most recent tag moves it to the front. */
  lemma OrderedAfterHit(c: CacheSet, order: seq<nat>, recent: seq<int>, nways: nat, ustates: nat, i: nat)
    returns (order': seq<nat>)
    requires Ordered(c, order, recent, nways, ustates) && Distinct(recent) && i < |order| && recent[i] != EMPTY
    ensures Ordered(Fetch(c, recent[i], ustates), order', [recent[i]] + Without(recent, recent[i]), nways, ustates)
  {
    hide Without, Find, Victim, Scan, Replace;
    var w := Find(c.tags, recent[i], 0);
    assert w == order[i] by { HitWay(c, order, recent, nways, ustates, i, w); }
    order' := MovedToFront(order, i);
    WithoutAt(recent, i);
    var d := Fetch(c, recent[i], ustates);
    var recent' := [recent[i]] + Without(recent, recent[i]);
    forall k | 0 <= k < |order'|
      ensures order'[k] < nways && d.tags[order'[k]] == recent'[k] && d.lrus[order'[k]] == ustates - 1 - k
    {
      var from := if k == 0 then i else if k <= i then k - 1 else k;
      assert order'[k] == order[from] && recent'[k] == recent[from];
    }
  }

  /** A victim is an empty way while there is one, and the least recently used way afterwards. */
  lemma VictimChoice(c: CacheSet, order: seq<nat>, recent: seq<int>, nways: nat, ustates: nat)
    requires Ordered(c, order, recent, nways, ustates) && 0 < nways <= ustates && 2 <= ustates
    ensures Victim(c.lrus, ustates) < nways
    ensures if |order| < nways then Victim(c.lrus, ustates) !in order
            else Victim(c.lrus, ustates) == order[nways - 1]
  {
    var v := Victim(c.lrus, ustates);
    ScanMinimal(c.lrus, 0, 0, ustates - 1);
    if |order| < nways {
      var e := UnusedWay(order, nways);
      assert c.lrus[e] == 0;
      assert c.lrus[v] == 0;
      assert forall i :: 0 <= i < |order| ==> c.lrus[order[i]] == ustates - 1 - i > 0;
    } else {
      AllWaysUsed(order, v, nways);
      var i :| 0 <= i < nways && order[i] == v;
      assert c.lrus[order[nways - 1]] == ustates - nways;
      assert c.lrus[v] == ustates - 1 - i;
    }
  }

  /** Fewer than `nways` distinct numbers leave one out. */
  lemma {:induction false} UnusedWay(order: seq<nat>, nways: nat) returns (w: nat)
    requires |order| < nways
    ensures w < nways && w !in order
    decreases nways
  {
    if order == [] {
      w := 0;
    } else {
      var smaller := WithoutWay(order, nways - 1);
      if nways - 1 in order {
        w := UnusedWay(smaller, nways - 1);
      } else {
        w := nways - 1;
      }
    }
  }

  function WithoutWay(s: seq<nat>, x: nat): (r: seq<nat>)
    ensures |r| <= |s| && (x in s ==> |r| < |s|) && (forall y :: y in s && y != x ==> y in r)
  {
    if s == [] then [] else if s[0] == x then WithoutWay(s[1..], x) else [s[0]] + WithoutWay(s[1..], x)
  }

  /** `nways` distinct numbers below `nways` are all of them. */
  lemma {:induction false} AllWaysUsed(order: seq<nat>, w: nat, nways: nat)
    requires |order| == nways && Distinct(order) && w < nways && forall i :: 0 <= i < nways ==> order[i] < nways
    ensures w in order
    decreases nways
  {
    if w !in order {
      // Rename the largest way to w and drop the largest number.
      var last := nways - 1;
      var renamed := seq(nways, i requires 0 <= i < nways => if order[i] == last then w else order[i]);
      if w == last {
        assert forall i :: 0 <= i < nways ==> order[i] < last;
        Pigeonhole(order, last);
      } else {
        assert forall i :: 0 <= i < nways ==> renamed[i] < last;
        Pigeonhole(renamed, last);
      }
    }
  }

  /** More numbers than there are values cannot be distinct. */
  lemma {:induction false} Pigeonhole(s: seq<nat>, n: nat)
    requires |s| > n && forall i :: 0 <= i < |s| ==> s[i] < n
    ensures !Distinct(s)
    decreases n
  {
    var first := s[0];
    if Distinct(s) && n > 0 {
      var last := n - 1;
      if last in s {
        var k :| 0 <= k < |s| && s[k] == last;
        var t := s[..k] + s[k + 1..];
        forall i | 0 <= i < |t|
          ensures t[i] < last
        {
          assert t[i] == s[if i < k then i else i + 1];
        }
        Pigeonhole(t, last);
      } else {
        assert forall i :: 0 <= i < |s| ==> s[i] in s;
        Pigeonhole(s, last);
      }
    }
  }

  /** A miss puts the new tag in front and, in a full set, drops the least recent one. */
  lemma OrderedAfterMiss(c: CacheSet, order: seq<nat>, recent: seq<int>, nways: nat, ustates: nat, tag: int)
    returns (order': seq<nat>)
    requires Ordered(c, order, recent, nways, ustates) && Distinct(recent) && 0 < nways <= ustates && 2 <= ustates
    requires tag !in recent[..|order|] && tag != EMPTY
    ensures Ordered(Fetch(c, tag, ustates), order', [tag] + Without(recent, tag), nways, ustates)
  {
    OrderedHits(c, order, recent, nways, ustates, tag);
    VictimChoice(c, order, recent, nways, ustates);
    if |order| < nways {
      order' := OrderedAfterFill(c, order, recent, nways, ustates, tag);
    } else {
      order' := OrderedAfterEvict(c, order, recent, nways, ustates, tag);
    }
  }

  lemma OrderedAfterFill(c: CacheSet, order: seq<nat>, recent: seq<int>, nways: nat, ustates: nat, tag: int)
    returns (order': seq<nat>)
    requires Ordered(c, order, recent, nways, ustates) && |order| < nways <= ustates && 2 <= ustates
    requires tag !in recent && tag != EMPTY && !Hits(c, tag)
    requires Victim(c.lrus, ustates) < nways && Victim(c.lrus, ustates) !in order
    ensures Ordered(Fetch(c, tag, ustates), order', [tag] + Without(recent, tag), nways, ustates)
  {
    hide Without, Victim, Find;
    var v := Victim(c.lrus, ustates);
    order' := [v] + order;
    WithoutAbsent(recent, tag);
    assert Fetch(c, tag, ustates) == Replace(c, v, tag, ustates);
  }

  lemma OrderedAfterEvict(c: CacheSet, order: seq<nat>, recent: seq<int>, nways: nat, ustates: nat, tag: int)
    returns (order': seq<nat>)
    requires Ordered(c, order, recent, nways, ustates) && |order| == nways && 0 < nways <= ustates && 2 <= ustates
    requires tag !in recent[..nways] && tag != EMPTY && !Hits(c, tag)
    requires Victim(c.lrus, ustates) == order[nways - 1]
    ensures Ordered(Fetch(c, tag, ustates), order', [tag] + Without(recent, tag), nways, ustates)
  {
    hide Without, Victim, Find;
    var v := Victim(c.lrus, ustates);
    order' := [v] + order[..nways - 1];
    WithoutLater(recent, tag, nways);
    AllUsed(order, nways);
    assert Fetch(c, tag, ustates) == Replace(c, v, tag, ustates);
    forall w | 0 <= w < nways
      ensures w in order'
    {
      assert w in order;
      assert order == order[..nways - 1] + [v];
    }
  }

  lemma AllUsed(order: seq<nat>, nways: nat)
    requires |order| == nways && Distinct(order) && forall i :: 0 <= i < nways ==> order[i] < nways
    ensures forall w :: 0 <= w < nways ==> w in order
  {
    forall w | 0 <= w < nways
      ensures w in order
    {
      AllWaysUsed(order, w, nways);
    }
  }

  /** Removing something that only occurs later leaves the beginning alone. */
  lemma {:induction false} WithoutLater(s: seq<int>, x: int, n: nat)
    requires n <= |s| && x !in s[..n]
    ensures n <= |Without(s, x)| && Without(s, x)[..n] == s[..n]
  {
    if n > 0 {
      assert s[0] == s[..n][0] && s[1..][..n - 1] == s[..n][1..];
      WithoutLater(s[1..], x, n - 1);
    }
  }

  lemma {:induction false} RunOrdered(history: seq<int>, nways: nat, ustates: nat) returns (order: seq<nat>)
    requires 0 < nways <= ustates && 2 <= ustates && EMPTY !in history
    ensures Ordered(FetchAll(Fresh(nways), history, ustates), order, Recency(history), nways, ustates)
  {
    if history == [] {
      order := [];
    } else {
      var h, x := history[..|history| - 1], history[|history| - 1];
      var before := RunOrdered(h, nways, ustates);
      RecencyDistinct(h);
      var c := FetchAll(Fresh(nways), h, ustates);
      if x in Recency(h)[..|before|] {
        var i :| 0 <= i < |before| && Recency(h)[i] == x;
        order := OrderedAfterHit(c, before, Recency(h), nways, ustates, i);
      } else {
        order := OrderedAfterMiss(c, before, Recency(h), nways, ustates, x);
      }
    }
  }

  /** With at least as many usage states as ways, replacement is exactly least recently used: after any fetches, a
      block is in the set exactly when it is among the `nways` most recently fetched distinct ones, and the way a
      miss would take is empty or holds the least recent of those. */
  lemma LruExact(history: seq<int>, tag: int, nways: nat, ustates: nat)
    requires 0 < nways <= ustates && 2 <= ustates && EMPTY !in history && tag != EMPTY
    ensures
      var c := FetchAll(Fresh(nways), history, ustates);
      var recent := Recency(history);
      var resident := recent[..Min(|recent|, nways)];
      var v := Victim(c.lrus, ustates);
      (Hits(c, tag) <==> tag in resident) &&
      v < nways && c.tags[v] == if |recent| < nways then EMPTY else recent[nways - 1]
  {
    var order := RunOrdered(history, nways, ustates);
    var c := FetchAll(Fresh(nways), history, ustates);
    OrderedHits(c, order, Recency(history), nways, ustates, tag);
    VictimChoice(c, order, Recency(history), nways, ustates);
  }

  // ---- Too few usage states ----

  /** The tags 0, 1, ..., n - 1. */
  function Upto(n: nat): (r: seq<int>)
    ensures |r| == n && forall i :: 0 <= i < n ==> r[i] == i
  {
    seq(n, i => i)
  }

  /** Tag `i` sits in way `i` for the first `n` ways, the last one on top; the others are empty. */
  ghost predicate FilledTo(c: CacheSet, n: nat, nways: nat, ustates: nat) {
    Shaped(c, nways) && n <= ustates &&
    (forall w :: 0 <= w < nways ==> c.tags[w] == if w < n then w else EMPTY) &&
    (forall w :: 0 <= w < nways ==> c.lrus[w] == if w < n then ustates - n + w else 0)
  }

  /** While at most `ustates` different tags have been fetched, they fill the ways in turn. */
  lemma {:induction false} Filling(n: nat, nways: nat, ustates: nat)
    requires n <= ustates < nways && 2 <= ustates
    ensures FilledTo(FetchAll(Fresh(nways), Upto(n), ustates), n, nways, ustates)
  {
    if n > 0 {
      Filling(n - 1, nways, ustates);
      assert Upto(n)[..n - 1] == Upto(n - 1);
      FillOne(FetchAll(Fresh(nways), Upto(n - 1), ustates), n - 1, nways, ustates);
    }
  }

  lemma FillOne(c: CacheSet, n: nat, nways: nat, ustates: nat)
    requires FilledTo(c, n, nways, ustates) && n < ustates < nways && 2 <= ustates
    ensures FilledTo(Fetch(c, n, ustates), n + 1, nways, ustates)
  {
    hide Find, Victim;
    assert Find(c.tags, n, 0) == nways;
    assert Victim(c.lrus, ustates) == n by { FirstEmpty(c, n, nways, ustates); }
    assert Fetch(c, n, ustates) == Replace(c, n, n, ustates);
  }

  lemma FirstEmpty(c: CacheSet, n: nat, nways: nat, ustates: nat)
    requires FilledTo(c, n, nways, ustates) && n < ustates < nways && 2 <= ustates
    ensures Victim(c.lrus, ustates) == n
  {
    ScanMinimal(c.lrus, 0, 0, ustates - 1);
    assert c.lrus[n] == 0;
  }

  lemma {:induction false} RecencyUpto(n: nat)
    ensures |Recency(Upto(n))| == n
  {
    if n > 0 {
      assert Upto(n)[..n - 1] == Upto(n - 1);
      RecencyUpto(n - 1);
      WithoutAbsent(Recency(Upto(n - 1)), n - 1);
    }
  }

  /** With fewer usage states than ways the order is lost: after `ustates` + 1 different blocks the first one is gone,
      although the set has room for all of them. */
  lemma TooFewStates(nways: nat, ustates: nat)
    requires 2 <= ustates < nways
    ensures
      var history := Upto(ustates + 1);
      var c := FetchAll(Fresh(nways), history, ustates);
      !Hits(c, 0) && 0 in Recency(history) && |Recency(history)| <= nways
  {
    var n := ustates + 1;
    Filling(ustates, nways, ustates);
    assert Upto(n)[..ustates] == Upto(ustates);
    var c := FetchAll(Fresh(nways), Upto(ustates), ustates);
    assert FetchAll(Fresh(nways), Upto(n), ustates) == Fetch(c, ustates, ustates);
    ScanMinimal(c.lrus, 0, 0, ustates - 1);
    assert c.lrus[0] == 0;
    RecencyUpto(n);
    assert Upto(n)[0] == 0;
  }

  lemma HitWay(c: CacheSet, order: seq<nat>, recent: seq<int>, nways: nat, ustates: nat, i: nat, w: nat)
    requires Ordered(c, order, recent, nways, ustates) && Distinct(recent) && i < |order| && recent[i] != EMPTY
    requires w == Find(c.tags, recent[i], 0)
    ensures w == order[i]
  {
    assert c.tags[order[i]] == recent[i];
    assert w in order;
    var k :| 0 <= k < |order| && order[k] == w;
    assert recent[k] == recent[i];
  }
}
