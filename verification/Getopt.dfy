/** The scanner of getopt in its permuting mode: options move in front of non-options, a call at a time. */
module Getopt {

  /** An element of the argument vector. */
  datatype Arg = Arg(text: string)

  /** Does not start with a dash, or is a dash alone. */
  predicate IsNonOption(a: Arg) { a.text == "" || a.text[0] != '-' || |a.text| == 1 }

  predicate IsDashes(a: Arg) { a.text == "--" }

  /** How the option tables decode an option element: the number of calls it takes, and whether it has the next element
      for its argument. */
  datatype Decoder = Decoder(calls: Arg -> nat, takesNext: Arg -> bool)

  /** An element that is decoded as options. */
  predicate IsOption(a: Arg) { !IsNonOption(a) && !IsDashes(a) }

  // ---- What a whole scan should do ----

  datatype Parts = Parts(options: seq<Arg>, others: seq<Arg>)

  /** Options with their arguments and a "--" on one side, everything else on the other, each in the order given. */
  function Parse(args: seq<Arg>, d: Decoder): Parts
    decreases |args|
  {
    if args == [] then Parts([], [])
    else if IsNonOption(args[0]) then
      var rest := Parse(args[1..], d);
      Parts(rest.options, [args[0]] + rest.others)
    else if IsDashes(args[0]) then Parts(args[..1], args[1..])
    else
      var n := if d.takesNext(args[0]) && |args| > 1 then 2 else 1;
      var rest := Parse(args[n..], d);
      Parts(args[..n] + rest.options, rest.others)
  }

  /** Nothing is lost: the two sides together are a permutation of the arguments. */
  lemma {:induction false} ParsePermutes(args: seq<Arg>, d: Decoder)
    ensures multiset(Parse(args, d).options + Parse(args, d).others) == multiset(args)
    decreases |args|, 1
  {
    hide Parse, IsNonOption, IsDashes;
    ParseHead(args, d);
    if args == [] {
    } else if IsDashes(args[0]) {
      assert args[..1] + args[1..] == args;
    } else {
      PermutesBehind(args, if IsOption(args[0]) && d.takesNext(args[0]) && |args| > 1 then 2 else 1, d);
    }
  }

  lemma {:induction false} PermutesBehind(args: seq<Arg>, n: nat, d: Decoder)
    requires 0 < n <= |args|
    requires var rest := Parse(args[n..], d);
      Parse(args, d) == Parts(args[..n] + rest.options, rest.others) ||
        Parse(args, d) == Parts(rest.options, args[..n] + rest.others)
    ensures multiset(Parse(args, d).options + Parse(args, d).others) == multiset(args)
    decreases |args|, 0
  {
    hide Parse;
    ParsePermutes(args[n..], d);
    Together(args[..n], args[n..], Parse(args[n..], d), Parse(args, d));
    assert args[..n] + args[n..] == args;
  }

  /** Elements that go in front of either part. */
  lemma Together(x: seq<Arg>, tail: seq<Arg>, rest: Parts, p: Parts)
    requires p == Parts(x + rest.options, rest.others) || p == Parts(rest.options, x + rest.others)
    requires multiset(rest.options + rest.others) == multiset(tail)
    ensures multiset(p.options + p.others) == multiset(x + tail)
  {
  }

  /** `s` is made by taking the next element of `a` or of `b` in turn, so both keep their order in it. */
  ghost predicate Interleaves(s: seq<Arg>, a: seq<Arg>, b: seq<Arg>) {
    if s == [] then a == [] && b == []
    else
      (a != [] && a[0] == s[0] && Interleaves(s[1..], a[1..], b)) ||
      (b != [] && b[0] == s[0] && Interleaves(s[1..], a, b[1..]))
  }

  lemma {:induction false} InterleavesAhead(x: seq<Arg>, s: seq<Arg>, a: seq<Arg>, b: seq<Arg>)
    requires Interleaves(s, a, b)
    ensures Interleaves(x + s, x + a, b)
  {
    if x == [] {
      assert x + s == s && x + a == a;
    } else {
      InterleavesAhead(x[1..], s, a, b);
      assert (x + s)[1..] == x[1..] + s && (x + a)[1..] == x[1..] + a;
    }
  }

  lemma {:induction false} InterleavesOne(s: seq<Arg>)
    ensures Interleaves(s, [], s)
  {
    if s != [] {
      InterleavesOne(s[1..]);
    }
  }

  /** Neither side changes its order. */
  lemma {:induction false} ParseInterleaves(args: seq<Arg>, d: Decoder)
    ensures Interleaves(args, Parse(args, d).options, Parse(args, d).others)
    decreases |args|
  {
    hide Parse, IsNonOption, IsDashes;
    ParseHead(args, d);
    if args == [] {
    } else if IsNonOption(args[0]) {
      ParseInterleaves(args[1..], d);
    } else if IsDashes(args[0]) {
      InterleavesOne(args[1..]);
      InterleavesAhead(args[..1], args[1..], [], args[1..]);
      assert args == args[..1] + args[1..] && args[..1] + [] == args[..1];
    } else {
      var n := if d.takesNext(args[0]) && |args| > 1 then 2 else 1;
      var rest := Parse(args[n..], d);
      ParseInterleaves(args[n..], d);
      InterleavesAhead(args[..n], args[n..], rest.options, rest.others);
      assert args == args[..n] + args[n..];
    }
  }

  // ---- The same said of texts and places ----

  /** Element `k` is the argument of the option in front of it, which is itself no argument. */
  predicate Taken(args: seq<Arg>, d: Decoder, k: nat)
    requires k < |args|
  {
    k > 0 && !Taken(args, d, k - 1) && d.takesNext(args[k - 1]) &&
    |args[k - 1].text| >= 2 && args[k - 1].text[0] == '-' && args[k - 1].text != "--"
  }

  /** The options end at `s`: there is the first "--" that is no argument, or the end. */
  predicate EndsAt(args: seq<Arg>, d: Decoder, s: nat) {
    s <= |args| && (s < |args| ==> args[s].text == "--" && !Taken(args, d, s)) &&
    forall k :: 0 <= k < s && args[k].text == "--" ==> Taken(args, d, k)
  }

  /** Which elements go to the front: those before the end that are arguments, or start with a dash and go on, and the
      "--". */
  function Sides(args: seq<Arg>, d: Decoder, s: nat): (r: seq<bool>)
    ensures |r| == |args|
  {
    seq(|args|, k requires 0 <= k < |args| =>
      k == s || (k < s && (Taken(args, d, k) || (|args[k].text| >= 2 && args[k].text[0] == '-'))))
  }

  /** The elements that are on one side, in order. */
  function Picked(args: seq<Arg>, sides: seq<bool>, side: bool): (r: seq<Arg>)
    requires |sides| == |args|
  {
    if args == [] then [] else (if sides[0] == side then args[..1] else []) + Picked(args[1..], sides[1..], side)
  }

  lemma {:induction false} TakenBehind(args: seq<Arg>, d: Decoder, n: nat, k: nat)
    requires n + k < |args| && !Taken(args, d, n)
    ensures Taken(args, d, n + k) == Taken(args[n..], d, k)
  {
    if k > 0 { TakenBehind(args, d, n, k - 1); }
  }

  /** Behind the first elements the rest is divided as it would be alone. */
  lemma SidesBehind(args: seq<Arg>, d: Decoder, n: nat, s: nat)
    requires 0 < n <= s <= |args| && (n < |args| ==> !Taken(args, d, n)) && EndsAt(args, d, s)
    ensures EndsAt(args[n..], d, s - n) && Sides(args, d, s)[n..] == Sides(args[n..], d, s - n)
  {
    forall k | 0 <= k < |args| - n
      ensures Taken(args, d, n + k) == Taken(args[n..], d, k)
    {
      TakenBehind(args, d, n, k);
    }
    forall k | 0 <= k < |args| - n
      ensures Sides(args, d, s)[n..][k] == Sides(args[n..], d, s - n)[k]
    {
      assert args[n..][k] == args[n + k];
    }
    forall k | 0 <= k < s - n && args[n..][k].text == "--"
      ensures Taken(args[n..], d, k)
    {
      assert args[n + k].text == "--";
    }
  }

  lemma {:induction false} PickedAll(args: seq<Arg>, sides: seq<bool>, side: bool)
    requires |sides| == |args| && forall k :: 0 <= k < |sides| ==> sides[k] == side
    ensures Picked(args, sides, side) == args && Picked(args, sides, !side) == []
  {
    if args != [] {
      PickedAll(args[1..], sides[1..], side);
      assert args == args[..1] + args[1..];
    }
  }

  /** What the texts say is where the parse puts every element. */
  lemma {:induction false} ParseByTexts(args: seq<Arg>, d: Decoder, s: nat)
    requires EndsAt(args, d, s)
    ensures Parse(args, d) == Parts(Picked(args, Sides(args, d, s), true), Picked(args, Sides(args, d, s), false))
    decreases |args|
  {
    hide Parse, IsDashes, IsNonOption, EndsAt, Sides, Taken;
    ParseHead(args, d);
    if args != [] {
      HeadSide(args, d, s);
      var sides := Sides(args, d, s);
      if IsDashes(args[0]) {
        PickedAll(args[1..], sides[1..], false);
      } else if IsOption(args[0]) && d.takesNext(args[0]) && |args| > 1 {
        SidesBehind(args, d, 2, s);
        ParseByTexts(args[2..], d, s - 2);
        PickedTwo(args, sides);
      } else {
        SidesBehind(args, d, 1, s);
        ParseByTexts(args[1..], d, s - 1);
      }
    }
  }

  lemma PickedOne(args: seq<Arg>, sides: seq<bool>, side: bool)
    requires |args| == |sides| > 0
    ensures Picked(args, sides, side) ==
      (if sides[0] == side then args[..1] else []) + Picked(args[1..], sides[1..], side)
  {
  }

  lemma PickedTwo(args: seq<Arg>, sides: seq<bool>)
    requires |args| == |sides| >= 2 && sides[0] && sides[1]
    ensures Picked(args, sides, true) == args[..2] + Picked(args[2..], sides[2..], true)
    ensures Picked(args, sides, false) == Picked(args[2..], sides[2..], false)
  {
    hide Picked;
    assert args[1..][1..] == args[2..] && sides[1..][1..] == sides[2..];
    assert args[..2] == args[..1] + args[1..][..1];
    PickedOne(args, sides, true);
    PickedOne(args, sides, false);
    PickedOne(args[1..], sides[1..], true);
    PickedOne(args[1..], sides[1..], false);
  }

  lemma HeadSide(args: seq<Arg>, d: Decoder, s: nat)
    requires args != [] && EndsAt(args, d, s)
    ensures s <= |args|
    ensures IsDashes(args[0]) ==>
      s == 0 && Sides(args, d, s)[0] && forall k :: 0 < k < |args| ==> !Sides(args, d, s)[k]
    ensures !IsDashes(args[0]) ==> 0 < s && Sides(args, d, s)[0] == IsOption(args[0])
    ensures IsOption(args[0]) && d.takesNext(args[0]) && |args| > 1 ==>
      2 <= s && Sides(args, d, s)[1] && (|args| > 2 ==> !Taken(args, d, 2))
    ensures (IsNonOption(args[0]) || !d.takesNext(args[0])) && |args| > 1 ==> !Taken(args, d, 1)
  {
    assert !Taken(args, d, 0);
    if |args| > 1 {
      assert Taken(args, d, 1) == (d.takesNext(args[0]) && IsOption(args[0]));
    }
  }

  /** What lies behind the end. */
  function Behind(args: seq<Arg>, s: nat): seq<Arg>
    requires s <= |args|
  {
    if s < |args| then args[s + 1..] else []
  }

  /** What stands on either side: in front options, which start with a dash and go on, and their arguments, with a "--"
      at the end if there is one; behind elements that are empty, a lone dash or start with something else, and then
      unchanged whatever followed the "--". */
  ghost predicate Standing(options: seq<Arg>, others: seq<Arg>, args: seq<Arg>, d: Decoder, s: nat)
    requires s <= |args|
  {
    (forall k :: 0 <= k < |options| ==> Dashed(options, k) || FollowsTaker(options, d, k)) &&
    (s < |args| ==> options != [] && options[|options| - 1].text == "--") &&
    var n := |others| - |Behind(args, s)|;
    n >= 0 && others[n..] == Behind(args, s) &&
    forall k :: 0 <= k < n ==> others[k].text == "" || others[k].text == "-" || others[k].text[0] != '-'
  }

  predicate Dashed(s: seq<Arg>, k: nat)
    requires k < |s|
  {
    |s[k].text| >= 2 && s[k].text[0] == '-'
  }

  predicate FollowsTaker(s: seq<Arg>, d: Decoder, k: nat)
    requires k < |s|
  {
    k > 0 && Dashed(s, k - 1) && d.takesNext(s[k - 1])
  }

  lemma {:induction false} ParseStanding(args: seq<Arg>, d: Decoder, s: nat)
    requires EndsAt(args, d, s)
    ensures Standing(Parse(args, d).options, Parse(args, d).others, args, d, s)
    decreases |args|
  {
    hide Parse, EndsAt, Sides, Taken;
    ParseHead(args, d);
    if args == [] {
      NoEnd(args, d, s);
    } else {
      HeadSide(args, d, s);
      if IsDashes(args[0]) {
      } else {
        var n := if IsOption(args[0]) && d.takesNext(args[0]) && |args| > 1 then 2 else 1;
        SidesBehind(args, d, n, s);
        ParseStanding(args[n..], d, s - n);
        assert Behind(args[n..], s - n) == Behind(args, s);
        HeadStands(args, d, s, n, Parse(args[n..], d));
      }
    }
  }

  lemma NoEnd(args: seq<Arg>, d: Decoder, s: nat)
    requires args == [] && EndsAt(args, d, s)
    ensures s == 0
  {
  }

  lemma HeadStands(args: seq<Arg>, d: Decoder, s: nat, n: nat, rest: Parts)
    requires args != [] && !IsDashes(args[0]) && s <= |args|
    requires n == (if IsOption(args[0]) && d.takesNext(args[0]) && |args| > 1 then 2 else 1) && n <= s
    requires Standing(rest.options, rest.others, args[n..], d, s - n) && Behind(args[n..], s - n) == Behind(args, s)
    ensures IsOption(args[0]) ==> Standing(args[..n] + rest.options, rest.others, args, d, s)
    ensures IsNonOption(args[0]) ==> Standing(rest.options, args[..1] + rest.others, args, d, s)
  {
    hide Behind;
    if IsOption(args[0]) {
      var options := args[..n] + rest.options;
      forall k | 0 <= k < |options|
        ensures Dashed(options, k) || FollowsTaker(options, d, k)
      {
        if k >= n {
          assert Dashed(rest.options, k - n) || FollowsTaker(rest.options, d, k - n);
          assert k > n ==> options[k - 1] == rest.options[k - n - 1];
        }
      }
    } else {
      var others := args[..1] + rest.others;
      var m := |rest.others| - |Behind(args, s)|;
      assert others[m + 1..] == rest.others[m..];
    }
  }

  /** There is an end. */
  lemma {:induction false} EndFrom(args: seq<Arg>, d: Decoder, s: nat) returns (e: nat)
    requires s <= |args| && forall k :: 0 <= k < s && args[k].text == "--" ==> Taken(args, d, k)
    ensures EndsAt(args, d, e)
    decreases |args| - s
  {
    if s < |args| && (args[s].text != "--" || Taken(args, d, s)) { e := EndFrom(args, d, s + 1); } else { e := s; }
  }

  /** One step of the parse. */
  lemma ParseHead(s: seq<Arg>, d: Decoder)
    ensures s == [] ==> Parse(s, d) == Parts([], [])
    ensures s != [] && IsNonOption(s[0]) ==>
      Parse(s, d) == Parts(Parse(s[1..], d).options, s[..1] + Parse(s[1..], d).others)
    ensures s != [] && IsDashes(s[0]) ==> Parse(s, d) == Parts(s[..1], s[1..]) && !IsNonOption(s[0])
    ensures s != [] && IsOption(s[0]) ==> var n := if d.takesNext(s[0]) && |s| > 1 then 2 else 1;
      Parse(s, d) == Parts(s[..n] + Parse(s[n..], d).options, Parse(s[n..], d).others)
  {
  }

  // ---- exchange ----

  /** The segments from `b` to `m` and from `m` to `t` change places. */
  function Rotated(s: seq<Arg>, b: nat, m: nat, t: nat): (r: seq<Arg>)
    requires b <= m <= t <= |s|
    ensures |r| == |s|
  {
    s[..b] + s[m..t] + s[b..m] + s[t..]
  }

  /** Which element ends up at place `k`. */
  function Source(b: nat, m: nat, t: nat, k: nat): (j: nat)
    requires b <= m <= t
    ensures k < t ==> j < t
    ensures k >= t ==> j == k
  {
    if k < b || k >= t then k else if k < b + (t - m) then k - b + m else k - (t - m)
  }

  lemma RotatedAt(s: seq<Arg>, b: nat, m: nat, t: nat, k: nat)
    requires b <= m <= t <= |s| && k < |s|
    ensures Rotated(s, b, m, t)[k] == s[Source(b, m, t, k)]
  {
  }

  /** The segments of length `n` at `i` and at `j` are swapped. */
  ghost predicate Swapped(r: seq<Arg>, s: seq<Arg>, i: nat, j: nat, n: nat)
    requires i + n <= j && j + n <= |s|
  {
    |r| == |s| && forall k :: 0 <= k < |s| ==> r[k] == s[SwapIndex(i, j, n, k)]
  }

  /** Where the element at `k` comes from. */
  function SwapIndex(i: nat, j: nat, n: nat, k: nat): (h: nat)
    requires i + n <= j
    ensures k < j + n ==> h < j + n
    ensures k >= j + n ==> h == k
  {
    if i <= k < i + n then k - i + j else if j <= k < j + n then k - j + i else k
  }

  /** Swapping a short first segment with the far end of the second leaves a smaller exchange. */
  lemma RotateShortFirst(r: seq<Arg>, s: seq<Arg>, b: nat, m: nat, t: nat)
    requires b <= m <= t <= |s| && m - b <= t - m && Swapped(r, s, b, t - (m - b), m - b)
    ensures Rotated(r, b, m, t - (m - b)) == Rotated(s, b, m, t)
  {
    hide Rotated;
    var x, y := Rotated(r, b, m, t - (m - b)), Rotated(s, b, m, t);
    forall k | 0 <= k < |s|
      ensures x[k] == y[k]
    {
      RotatedAt(s, b, m, t, k);
      RotatedAt(r, b, m, t - (m - b), k);
      var i := Source(b, m, t - (m - b), k);
      assert r[i] == s[SwapIndex(b, t - (m - b), m - b, i)];
    }
  }

  lemma RotateShortSecond(r: seq<Arg>, s: seq<Arg>, b: nat, m: nat, t: nat)
    requires b <= m <= t <= |s| && t - m <= m - b && Swapped(r, s, b, m, t - m)
    ensures Rotated(r, b + (t - m), m, t) == Rotated(s, b, m, t)
  {
    hide Rotated;
    var x, y := Rotated(r, b + (t - m), m, t), Rotated(s, b, m, t);
    forall k | 0 <= k < |s|
      ensures x[k] == y[k]
    {
      RotatedAt(s, b, m, t, k);
      RotatedAt(r, b + (t - m), m, t, k);
      var i := Source(b + (t - m), m, t, k);
      assert r[i] == s[SwapIndex(b, m, t - m, i)];
    }
  }

  lemma NothingToRotate(s: seq<Arg>, b: nat, m: nat, t: nat)
    requires b <= m <= t <= |s| && (t == m || m == b)
    ensures Rotated(s, b, m, t) == s
  {
  }

  // ---- What has been scanned so far ----

  /** Up to `o` the vector `a` holds options up to `f`, non-options up to `l` and options again up to `o`; these and the
      parts of the rest are the parts of `args`. */
  ghost predicate ProgressAt(a: seq<Arg>, args: seq<Arg>, d: Decoder, f: nat, l: nat, o: nat) {
    1 <= f <= l <= o <= |a| &&
    var rest := Parse(a[o..], d);
    Parse(args, d) == Parts(a[1..f] + a[l..o] + rest.options, a[f..l] + rest.others)
  }

  /** An option element, and the argument it may have, go with the options. */
  lemma OptionParsed(a: seq<Arg>, args: seq<Arg>, d: Decoder, f: nat, l: nat, o: nat)
    requires ProgressAt(a, args, d, f, l, o) && o < |a| && IsOption(a[o])
    ensures ProgressAt(a, args, d, f, l, if d.takesNext(a[o]) && o + 1 < |a| then o + 2 else o + 1)
  {
    hide Parse, IsNonOption, IsDashes;
    var n := if d.takesNext(a[o]) && o + 1 < |a| then 2 else 1;
    var next := Parse(a[o + n..], d);
    ParseHead(a[o..], d);
    assert a[o..][n..] == a[o + n..] && a[o..][..n] == a[o..o + n];
    assert a[1..f] + a[l..o] + (a[o..o + n] + next.options) == a[1..f] + a[l..o + n] + next.options;
  }

  /** A "--" goes with the options and everything behind it with the non-options. */
  lemma DashesParsed(a: seq<Arg>, args: seq<Arg>, d: Decoder, f: nat, o: nat)
    requires ProgressAt(a, args, d, f, o, o) && o < |a| && IsDashes(a[o])
    ensures ProgressAt(Rotated(a, f, o, o + 1), args, d, f + 1, |a|, |a|) && Rotated(a, f, o, o + 1)[0] == a[0]
  {
    hide Rotated, Parse, IsDashes, IsNonOption;
    var r := Rotated(a, f, o, o + 1);
    ParseHead(a[o..], d);
    assert a[o..][1..] == a[o + 1..] && a[o..][..1] == [a[o]];
    Exchanged(a, r, f, o, o + 1);
    assert r[1..f + 1] == a[1..f] + a[o..o] + [a[o]];
    assert r[f + 1..o + 1] == a[f..o] && r[o + 1..] == a[o + 1..];
    Tail(r, f + 1, o + 1);
    NothingLeft(r, d);
  }

  lemma Tail(r: seq<Arg>, i: nat, j: nat)
    requires i <= j <= |r|
    ensures r[i..] == r[i..j] + r[j..]
  {
  }

  lemma NothingLeft(r: seq<Arg>, d: Decoder)
    ensures Parse(r[|r|..], d) == Parts([], []) && r[|r|..] == []
  {
  }

  /** A non-option extends the non-options. */
  lemma OtherParsed(a: seq<Arg>, args: seq<Arg>, d: Decoder, f: nat, o: nat)
    requires ProgressAt(a, args, d, f, o, o) && o < |a| && IsNonOption(a[o])
    ensures ProgressAt(a, args, d, f, o + 1, o + 1)
  {
  }

  /** The options go in front of the non-options. */
  lemma ExchangedProgress(a: seq<Arg>, args: seq<Arg>, d: Decoder, f: nat, l: nat, o: nat)
    requires ProgressAt(a, args, d, f, l, o)
    ensures ProgressAt(Rotated(a, f, l, o), args, d, f + (o - l), o, o) && Rotated(a, f, l, o)[0] == a[0]
  {
    hide Rotated, Parse;
    var r := Rotated(a, f, l, o);
    Exchanged(a, r, f, l, o);
    assert r[o..o] == [];
  }

  class Scanner {
    const argv: array<Arg>
    const decoder: Decoder
    var optind: nat
    var firstNonopt: nat
    var lastNonopt: nat
    /** How many more calls the option element at `optind` takes; 0 when `nextchar` is at an end. */
    var left: nat

    /** The state that the first call sets up. */
    constructor (argv: array<Arg>, decoder: Decoder)
      requires argv.Length > 0
      ensures this.argv == argv && this.decoder == decoder && optind == firstNonopt == lastNonopt == 1 && left == 0
    {
      this.argv, this.decoder := argv, decoder;
      optind, firstNonopt, lastNonopt, left := 1, 1, 1, 0;
    }

    ghost predicate InOrder()
      reads this
    {
      1 <= firstNonopt <= lastNonopt <= optind <= argv.Length
    }

    /** What has been scanned so far, and what is still to come, are the parts of `args`. */
    ghost predicate Progress(args: seq<Arg>)
      reads this, argv
    {
      ProgressAt(argv[..], args, decoder, firstNonopt, lastNonopt, optind)
    }

    method SwapSegments(i: nat, j: nat, n: nat)
      requires i + n <= j && j + n <= argv.Length
      modifies argv
      ensures Swapped(argv[..], old(argv[..]), i, j, n)
    {
      ghost var was := argv[..];
      for k := 0 to n
        invariant forall h :: 0 <= h < argv.Length ==> argv[h] == was[SwapIndex(i, j, k, h)]
      {
        argv[i + k], argv[j + k] := argv[j + k], argv[i + k];
      }
    }

    /** exchange. */
    method Exchange()
      requires InOrder()
      modifies argv, this`firstNonopt, this`lastNonopt
      ensures argv[..] == Rotated(old(argv[..]), old(firstNonopt), old(lastNonopt), optind)
      ensures firstNonopt == old(firstNonopt) + (optind - old(lastNonopt)) && lastNonopt == optind
    {
      hide Rotated, Swapped, Source, SwapIndex;
      var bottom: nat, middle: nat, top: nat := firstNonopt, lastNonopt, optind;
      ghost var want := Rotated(argv[..], bottom, middle, top);
      while top > middle && middle > bottom
        modifies argv
        invariant bottom <= middle <= top <= argv.Length && Rotated(argv[..], bottom, middle, top) == want
        decreases top - bottom
      {
        ghost var was := argv[..];
        if top - middle > middle - bottom {
          var len := middle - bottom;
          SwapSegments(bottom, top - (middle - bottom), len);
          RotateShortFirst(argv[..], was, bottom, middle, top);
          top := top - len;
        } else {
          var len := top - middle;
          SwapSegments(bottom, middle, len);
          RotateShortSecond(argv[..], was, bottom, middle, top);
          bottom := bottom + len;
        }
      }
      NothingToRotate(argv[..], bottom, middle, top);
      firstNonopt := firstNonopt + (optind - lastNonopt);
      lastNonopt := optind;
    }

    /** Options that follow non-options move in front of them; the non-options now lie directly before `optind`. */
    method MoveOptions(ghost args: seq<Arg>)
      requires Progress(args)
      modifies argv, this`firstNonopt, this`lastNonopt
      ensures ProgressAt(argv[..], args, decoder, firstNonopt, optind, optind) &&
        argv[..] == Rotated(old(argv[..]), old(firstNonopt), old(lastNonopt), optind)
    {
      hide Rotated, Parse, Source, ProgressAt;
      Bounds(args);
      ExchangedProgress(argv[..], args, decoder, firstNonopt, lastNonopt, optind);
      if firstNonopt != lastNonopt && lastNonopt != optind {
        Exchange();
      } else {
        NothingToRotate(argv[..], firstNonopt, lastNonopt, optind);
        if lastNonopt != optind {
          firstNonopt := optind;
        }
      }
    }

    /** Any further non-options are skipped. */
    method SkipNonOptions(ghost args: seq<Arg>)
      requires ProgressAt(argv[..], args, decoder, firstNonopt, optind, optind)
      modifies this`lastNonopt, this`optind
      ensures Progress(args) && lastNonopt == optind >= old(optind)
      ensures optind < argv.Length ==> !IsNonOption(argv[optind])
    {
      hide Parse, ProgressAt, IsNonOption;
      while optind < argv.Length && IsNonOption(argv[optind])
        modifies this`optind
        invariant optind >= old(optind) && ProgressAt(argv[..], args, decoder, firstNonopt, optind, optind)
      {
        OtherParsed(argv[..], args, decoder, firstNonopt, optind);
        optind := optind + 1;
      }
      lastNonopt := optind;
    }

    lemma FirstStays(a: seq<Arg>, f: nat, l: nat, o: nat, args: seq<Arg>)
      requires ProgressAt(a, args, decoder, f, l, o)
      ensures f <= l <= o <= |a| && Rotated(a, f, l, o)[0] == a[0]
    {
    }

    lemma Bounds(args: seq<Arg>)
      requires Progress(args)
      ensures 1 <= firstNonopt <= lastNonopt <= optind <= argv.Length
    {
    }

    /** A "--" goes with the options, everything behind it with the non-options. */
    method EndOptions(ghost args: seq<Arg>)
      requires Progress(args) && lastNonopt == optind < argv.Length && IsDashes(argv[optind])
      modifies argv, this`optind, this`firstNonopt, this`lastNonopt
      ensures Progress(args) && lastNonopt == optind == argv.Length && argv[0] == old(argv[0])
    {
      hide Rotated, Source, ProgressAt, Parse, IsDashes, IsNonOption;
      Bounds(args);
      DashesParsed(argv[..], args, decoder, firstNonopt, optind);
      optind := optind + 1;
      if firstNonopt != lastNonopt && lastNonopt != optind {
        Exchange();
      } else if firstNonopt == lastNonopt {
        NothingToRotate(argv[..], firstNonopt, lastNonopt, optind);
        firstNonopt := optind;
      }
      lastNonopt := argv.Length;
      optind := argv.Length;
    }

    /** One call of _getopt_internal: false when the options are at an end. `args` is what the first call was given. */
    method GetOpt(ghost args: seq<Arg>) returns (more: bool)
      requires Progress(args) && (left > 0 ==> optind < argv.Length && IsOption(argv[optind]))
      modifies this, argv
      ensures argv[0] == old(argv[0])
      ensures more ==> Progress(args) && (left > 0 ==> optind < argv.Length && IsOption(argv[optind]))
      ensures more ==> optind <= argv.Length
      ensures more ==>
        optind > old(optind) ||
        (optind == old(optind) && 0 < left && (old(left) > 0 ==> left < old(left)))
      ensures !more ==> 1 <= optind <= argv.Length && left == 0
      ensures !more ==> Parse(args, decoder) == Parts(argv[1..optind], argv[optind..])
    {
      hide ProgressAt, Parse, Rotated, IsNonOption, IsDashes;
      if left == 0 {
        FirstStays(argv[..], firstNonopt, lastNonopt, optind, args);
        MoveOptions(args);
        SkipNonOptions(args);
        Bounds(args);
        if optind != argv.Length && IsDashes(argv[optind]) {
          EndOptions(args);
        }
        if optind == argv.Length {
          Finish(args);
          if firstNonopt != lastNonopt {
            optind := firstNonopt;
          }
          return false;
        }
        left := if decoder.calls(argv[optind]) > 0 then decoder.calls(argv[optind]) else 1;
      }
      Bounds(args);
      Decode(args);
      Bounds(args);
      more := true;
    }

    /** One option of the element at `optind`; with the last one the scan moves past it, and past its argument if it has
        the next element for that. */
    method Decode(ghost args: seq<Arg>)
      requires Progress(args) && left > 0 && optind < argv.Length && IsOption(argv[optind])
      modifies this`optind, this`left
      ensures Progress(args) && (left > 0 ==> optind < argv.Length && IsOption(argv[optind]))
      ensures left == old(left) - 1 && (if left > 0 then optind == old(optind) else optind > old(optind))
    {
      hide ProgressAt;
      left := left - 1;
      if left == 0 {
        OptionParsed(argv[..], args, decoder, firstNonopt, lastNonopt, optind);
        var takes := decoder.takesNext(argv[optind]);
        optind := optind + 1;
        if takes && optind != argv.Length {
          optind := optind + 1;
        }
      }
    }

    lemma Starts(args: seq<Arg>)
      requires firstNonopt == lastNonopt == optind == 1 <= argv.Length && args == argv[1..]
      ensures Progress(args)
    {
    }

    lemma Finish(args: seq<Arg>)
      requires Progress(args) && lastNonopt == optind == argv.Length
      ensures 1 <= firstNonopt <= argv.Length &&
        Parse(args, decoder) == Parts(argv[1..firstNonopt], argv[firstNonopt..])
    {
    }
  }

  /** A whole parse: the first call and as many more as return an option. At the end the options with their arguments
      and any "--" come first and the non-options follow from `optind`, each in the order given. */
  method ParseAll(argv: array<Arg>, decoder: Decoder) returns (optind: nat)
    requires argv.Length > 0
    modifies argv
    ensures 1 <= optind <= argv.Length && argv[0] == old(argv[0]) && multiset(argv[..]) == multiset(old(argv[..]))
    ensures argv[1..optind] == Parse(old(argv[1..]), decoder).options &&
      argv[optind..] == Parse(old(argv[1..]), decoder).others
    ensures Interleaves(old(argv[1..]), argv[1..optind], argv[optind..])
    ensures Divided(old(argv[1..]), decoder, argv[1..optind], argv[optind..])
  {
    hide Parse, ProgressAt, IsNonOption, IsDashes, Interleaves, Divided;
    ghost var args := argv[1..];
    var scanner := new Scanner(argv, decoder);
    scanner.Starts(args);
    var more := true;
    while more
      modifies argv, scanner
      invariant argv[0] == old(argv[0]) && (more ==> scanner.optind <= argv.Length)
      invariant more ==>
        scanner.Progress(args) &&
        (scanner.left > 0 ==> scanner.optind < argv.Length && IsOption(argv[scanner.optind]))
      invariant !more ==>
        1 <= scanner.optind <= argv.Length &&
        Parse(args, decoder) == Parts(argv[1..scanner.optind], argv[scanner.optind..])
      decreases more, argv.Length - scanner.optind, scanner.left == 0, scanner.left
    {
      more := scanner.GetOpt(args);
    }
    optind := scanner.optind;
    Parsed(old(argv[..]), argv[..], optind, decoder);
    assert argv[..][1..optind] == argv[1..optind] && argv[..][optind..] == argv[optind..] && old(argv[..])[1..] == args;
  }

  /** The sides are made of the elements of `args` that their texts and places put there. */
  ghost predicate Divided(args: seq<Arg>, d: Decoder, options: seq<Arg>, others: seq<Arg>) {
    exists s :: EndsAt(args, d, s) && Standing(options, others, args, d, s) &&
      options == Picked(args, Sides(args, d, s), true) && others == Picked(args, Sides(args, d, s), false)
  }

  lemma ParseDivides(args: seq<Arg>, d: Decoder)
    ensures Divided(args, d, Parse(args, d).options, Parse(args, d).others)
  {
    hide Parse, EndsAt, Standing, Picked, Sides;
    var s := EndFrom(args, d, 0);
    ParseByTexts(args, d, s);
    ParseStanding(args, d, s);
  }

  /** A vector that is in the parts of another one is a permutation of it, with both parts in the order given. */
  lemma Parsed(was: seq<Arg>, now: seq<Arg>, optind: nat, d: Decoder)
    requires 1 <= optind <= |now| && was != [] && now[0] == was[0]
    requires Parse(was[1..], d) == Parts(now[1..optind], now[optind..])
    ensures multiset(now) == multiset(was) && Interleaves(was[1..], now[1..optind], now[optind..])
    ensures Divided(was[1..], d, now[1..optind], now[optind..])
  {
    hide Parse, Interleaves, Divided;
    ParsePermutes(was[1..], d);
    ParseInterleaves(was[1..], d);
    ParseDivides(was[1..], d);
    assert now == [now[0]] + (now[1..optind] + now[optind..]);
    assert was == [was[0]] + was[1..];
  }

  /** The pieces of the argument vector after an exchange. */
  lemma Exchanged(a: seq<Arg>, r: seq<Arg>, f: nat, l: nat, o: nat)
    requires 1 <= f <= l <= o <= |a| && r == Rotated(a, f, l, o)
    ensures r[0] == a[0] && r[o..] == a[o..] && r[f + (o - l)..o] == a[f..l] && r[1..f + (o - l)] == a[1..f] + a[l..o]
  {
  }
}
