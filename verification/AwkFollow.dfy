/**
  `first`, `follow` and `cfoll`: the walks over the parse tree that fill the follow lists,
  and what the filled table means for the whole expression.
*/
module AwkFollow {
  import opened AwkRegex

  // ---------------------------------------------------------------------
  // The shared bit vector setvec and its listings
  // ---------------------------------------------------------------------

  function Marked(v: seq<bool>): set<nat> {
    set i | 0 <= i < |v| && v[i]
  }

  /** The marked indices, greatest first: the order of every position list. */
  function Listing(v: seq<bool>): seq<nat> {
    if v == [] then [] else
    var n := |v| - 1;
    (if v[n] then [n] else []) + Listing(v[..n])
  }

  predicate Descending(s: seq<nat>) {
    forall i, j :: 0 <= i < j < |s| ==> s[i] > s[j]
  }

  lemma {:induction false} ListingIsMarked(v: seq<bool>)
    ensures Elems(Listing(v)) == Marked(v)
    ensures Descending(Listing(v))
    ensures forall i :: 0 <= i < |Listing(v)| ==> Listing(v)[i] < |v|
  {
    if v == [] {
    } else {
      var n := |v| - 1;
      var u := v[..n];
      ListingIsMarked(u);
      var L := Listing(v);
      forall i
        ensures i in Elems(L) <==> i in Marked(v)
      {
        if i == n {
          assert i !in Elems(Listing(u));
          assert v[n] ==> L[0] == n;
        } else {
          assert i in Elems(L) <==> i in Elems(Listing(u));
          assert i in Marked(u) <==> i in Marked(v);
        }
      }
    }
  }

  /** Every leaf index is below n. */
  predicate Fits(r: Re, n: nat) {
    match r
    case Leaf(_, p) => p < n
    case Star(x) => Fits(x, n)
    case Plus(x) => Fits(x, n)
    case Quest(x) => Fits(x, n)
    case Cat(a, b) => Fits(a, n) && Fits(b, n)
    case Or(a, b) => Fits(a, n) && Fits(b, n)
  }

  predicate PathFits(path: Path, n: nat) {
    match path
    case Root => true
    case InStar(up) => PathFits(up, n)
    case InPlus(up) => PathFits(up, n)
    case InQuest(up) => PathFits(up, n)
    case CatLeft(b, up) => Fits(b, n) && PathFits(up, n)
    case CatRight(a, up) => Fits(a, n) && PathFits(up, n)
    case OrLeft(b, up) => Fits(b, n) && PathFits(up, n)
    case OrRight(a, up) => Fits(a, n) && PathFits(up, n)
  }

  lemma {:induction false} NumberedFits(r: Re, lo: nat, n: nat)
    requires Numbered(r, lo) && lo + Leaves(r) <= n
    ensures Fits(r, n)
  {
    match r
    case Leaf(_, _) =>
    case Star(x) => NumberedFits(x, lo, n);
    case Plus(x) => NumberedFits(x, lo, n);
    case Quest(x) => NumberedFits(x, lo, n);
    case Cat(a, b) => NumberedFits(a, lo, n); NumberedFits(b, lo + Leaves(a), n);
    case Or(a, b) => NumberedFits(a, lo, n); NumberedFits(b, lo + Leaves(a), n);
  }

  // ---------------------------------------------------------------------
  // The walks
  // ---------------------------------------------------------------------

  /** `first`: adds the initial leaves of `p` to setvec; false when `p` matches the empty string. */
  method First(p: Re, setvec: array<bool>, ghost n: nat) returns (b: bool)
    requires n <= setvec.Length && Fits(p, n)
    modifies setvec
    ensures b <==> !Nullable(p)
    ensures Marked(setvec[..n]) == old(Marked(setvec[..n])) + FirstSet(p)
    decreases p
  {
    match p {
      case Leaf(s, i) =>
        setvec[i] := true;
        b := !EmptyClass(s);
      case Plus(x) =>
        b := First(x, setvec, n);
      case Star(x) =>
        b := First(x, setvec, n);
        b := false;
      case Quest(x) =>
        b := First(x, setvec, n);
        b := false;
      case Cat(l, r) =>
        b := First(l, setvec, n);
        if !b {
          b := First(r, setvec, n);
        }
      case Or(l, r) =>
        b := First(r, setvec, n);
        var b' := First(l, setvec, n);
        b := b && b';
    }
  }

  /** `follow`: adds the leaves that can follow `v`, climbing the parent chain. */
  method Follow(v: Re, path: Path, setvec: array<bool>, ghost n: nat)
    requires n <= setvec.Length && Fits(v, n) && PathFits(path, n)
    modifies setvec
    ensures Marked(setvec[..n]) == old(Marked(setvec[..n])) + FollowSet(v, path)
    decreases path
  {
    if v.Leaf? && v.sym.Final? {
      return;
    }
    match path {
      case Root =>
      case InStar(up) =>
        var _ := First(v, setvec, n);
        Follow(Star(v), up, setvec, n);
      case InPlus(up) =>
        var _ := First(v, setvec, n);
        Follow(Plus(v), up, setvec, n);
      case InQuest(up) =>
        Follow(Quest(v), up, setvec, n);
      case OrLeft(b, up) =>
        Follow(Or(v, b), up, setvec, n);
      case OrRight(a, up) =>
        Follow(Or(a, v), up, setvec, n);
      case CatLeft(b, up) =>
        var consumes := First(b, setvec, n);
        if !consumes {
          Follow(Cat(v, b), up, setvec, n);
        }
      case CatRight(a, up) =>
        Follow(Cat(a, v), up, setvec, n);
    }
  }

  /** The loop that writes out setvec[0..n], greatest index first. */
  method Scan(setvec: array<bool>, n: nat) returns (p: seq<nat>)
    requires n <= setvec.Length
    ensures p == Listing(setvec[..n])
  {
    p := [];
    for i := n downto 0
      invariant p + Listing(setvec[..i]) == Listing(setvec[..n])
    {
      assert setvec[..i + 1][..i] == setvec[..i];
      if setvec[i] {
        p := p + [i];
      }
    }
  }

  method ClearVec(setvec: array<bool>, n: nat)
    requires n <= setvec.Length
    modifies setvec
    ensures Marked(setvec[..n]) == {}
  {
    for i := 0 to n
      invariant forall j :: 0 <= j < i ==> !setvec[j]
    {
      setvec[i] := false;
    }
  }

  /** `cfoll`: fills in the row of every leaf below `v`. */
  method Cfoll(v: Re, path: Path, re: array<Row>, setvec: array<bool>, ghost lo: nat)
    requires re.Length <= setvec.Length
    requires Numbered(v, lo) && lo + Leaves(v) <= re.Length && PathFits(path, re.Length)
    modifies re, setvec
    ensures Filled(v, path, re[..]) && Sorted(v, re[..])
    ensures forall q :: 0 <= q < re.Length && !(lo <= q < lo + Leaves(v)) ==> re[q] == old(re[q])
    decreases v
  {
    match v {
      case Leaf(s, i) =>
        ClearVec(setvec, re.Length);
        Follow(v, path, setvec, re.Length);
        var p := Scan(setvec, re.Length);
        ListingIsMarked(setvec[..re.Length]);
        re[i] := Row(s, p);
      case Star(x) => Cfoll(x, InStar(path), re, setvec, lo);
      case Plus(x) => Cfoll(x, InPlus(path), re, setvec, lo);
      case Quest(x) => Cfoll(x, InQuest(path), re, setvec, lo);
      case Cat(a, b) =>
        NumberedFits(a, lo, re.Length);
        NumberedFits(b, lo + Leaves(a), re.Length);
        Cfoll(a, CatLeft(b, path), re, setvec, lo);
        ghost var mid := re[..];
        Cfoll(b, CatRight(a, path), re, setvec, lo + Leaves(a));
        FilledFrame(a, CatLeft(b, path), lo, mid, re[..]);
      case Or(a, b) =>
        NumberedFits(a, lo, re.Length);
        NumberedFits(b, lo + Leaves(a), re.Length);
        Cfoll(a, OrLeft(b, path), re, setvec, lo);
        ghost var mid := re[..];
        Cfoll(b, OrRight(a, path), re, setvec, lo + Leaves(a));
        FilledFrame(a, OrLeft(b, path), lo, mid, re[..]);
    }
  }

  predicate RowOk(re: seq<Row>, p: nat) {
    p < |re| && Descending(re[p].lfollow) && forall q :: q in re[p].lfollow ==> q < |re|
  }

  /** The follow lists of the leaves below `v` are descending lists of positions. */
  ghost predicate Sorted(v: Re, re: seq<Row>) {
    match v
    case Leaf(_, p) => RowOk(re, p)
    case Star(x) => Sorted(x, re)
    case Plus(x) => Sorted(x, re)
    case Quest(x) => Sorted(x, re)
    case Cat(a, b) => Sorted(a, re) && Sorted(b, re)
    case Or(a, b) => Sorted(a, re) && Sorted(b, re)
  }

  /** Rows outside the leaves of `v` do not matter to it. */
  lemma {:induction false} FilledFrame(v: Re, path: Path, lo: nat, re: seq<Row>, re': seq<Row>)
    requires Numbered(v, lo) && Filled(v, path, re) && Sorted(v, re) && |re'| == |re|
    requires forall q :: lo <= q < lo + Leaves(v) && q < |re| ==> re'[q] == re[q]
    ensures Filled(v, path, re') && Sorted(v, re')
  {
    match v
    case Leaf(_, _) =>
    case Star(x) => FilledFrame(x, InStar(path), lo, re, re');
    case Plus(x) => FilledFrame(x, InPlus(path), lo, re, re');
    case Quest(x) => FilledFrame(x, InQuest(path), lo, re, re');
    case Cat(a, b) =>
      FilledFrame(a, CatLeft(b, path), lo, re, re');
      FilledFrame(b, CatRight(a, path), lo + Leaves(a), re, re');
    case Or(a, b) =>
      FilledFrame(a, OrLeft(b, path), lo, re, re');
      FilledFrame(b, OrRight(a, path), lo + Leaves(a), re, re');
  }

  // ---------------------------------------------------------------------
  // Stepping sets of positions
  // ---------------------------------------------------------------------

  /** The positions reached from `S` by the symbol `c`. */
  ghost function Succ(re: seq<Row>, S: set<nat>, c: nat): set<nat> {
    set q, t | q in S && q < |re| && Accepts(re[q].sym, c) && t in re[q].lfollow :: t
  }

  /** The positions reached from `S` by w[i..j]. */
  ghost function Steps(re: seq<Row>, S: set<nat>, w: seq<nat>, i: nat, j: nat): set<nat>
    requires i <= j <= |w|
    decreases j - i
  {
    if i == j then S else Succ(re, Steps(re, S, w, i, j - 1), w[j - 1])
  }

  lemma {:induction false} StepsFromLeft(re: seq<Row>, S: set<nat>, w: seq<nat>, i: nat, j: nat)
    requires i < j <= |w|
    ensures Steps(re, S, w, i, j) == Steps(re, Succ(re, S, w[i]), w, i + 1, j)
    decreases j - i
  {
    if i + 1 < j {
      StepsFromLeft(re, S, w, i, j - 1);
    }
  }

  lemma {:induction false} StepsStayEmpty(re: seq<Row>, S: set<nat>, w: seq<nat>, i: nat, j: nat, k: nat)
    requires i <= j <= k <= |w| && Steps(re, S, w, i, j) == {}
    ensures Steps(re, S, w, i, k) == {}
    decreases k - j
  {
    if j < k {
      StepsStayEmpty(re, S, w, i, j, k - 1);
    }
  }

  lemma RunFromSucc(re: seq<Row>, S: set<nat>, w: seq<nat>, i: nat, n: nat)
    requires i < n <= |w|
    ensures RunFrom(re, S, w, i, n) <==> RunFrom(re, Succ(re, S, w[i]), w, i + 1, n)
  {
    if RunFrom(re, S, w, i, n) {
      var q :| q in S && Run(re, q, w, i, n);
      assert RunFrom(re, Elems(re[q].lfollow), w, i + 1, n);
      var t :| t in Elems(re[q].lfollow) && Run(re, t, w, i + 1, n);
      assert t in Succ(re, S, w[i]);
    }
    if RunFrom(re, Succ(re, S, w[i]), w, i + 1, n) {
      var t :| t in Succ(re, S, w[i]) && Run(re, t, w, i + 1, n);
      var q :| q in S && q < |re| && Accepts(re[q].sym, w[i]) && t in re[q].lfollow;
      assert t in Elems(re[q].lfollow);
      assert Run(re, q, w, i, n);
    }
  }

  /** Stepping the set and asking for the accepting position is the same as asking for a run. */
  lemma {:induction false} StepsAccept(re: seq<Row>, S: set<nat>, w: seq<nat>, i: nat, n: nat)
    requires i <= n <= |w| && |re| > 0
    ensures |re| - 1 in Steps(re, S, w, i, n) <==> RunFrom(re, S, w, i, n)
    decreases n - i
  {
    if i < n {
      StepsFromLeft(re, S, w, i, n);
      RunFromSucc(re, S, w, i, n);
      StepsAccept(re, Succ(re, S, w[i]), w, i + 1, n);
    } else if |re| - 1 in S {
      assert Run(re, |re| - 1, w, i, n);
    }
  }

  // ---------------------------------------------------------------------
  // The whole expression: ALL* p FINAL
  // ---------------------------------------------------------------------

  const AnyPrefix: Re := Star(Leaf(All, 0))

  /** `makedfa` puts ALL STAR in front of the expression and FINAL behind it. */
  function Whole(p: Re): Re {
    Cat(Cat(AnyPrefix, p), Leaf(Final, 0))
  }

  /** The table that `penter` and `cfoll` make of the expression `p`. */
  ghost predicate Compiled(p: Re, re: seq<Row>) {
    Plain(p) && Tabled(Penter(p, 1), 1 + Leaves(p), re)
  }

  ghost predicate Tabled(q: Re, acc: nat, re: seq<Row>) {
    var t := Cat(Cat(AnyPrefix, q), Leaf(Final, acc));
    |re| == acc + 1 && Filled(t, Root, re) && Sorted(t, re)
  }

  /** The start set before `^` has been offered, and what is left of it in anchored mode. */
  ghost function FreeStart(re: seq<Row>): set<nat>
    requires |re| > 0
  {
    Elems(re[0].lfollow)
  }

  ghost function AnchoredStart(re: seq<Row>): set<nat>
    requires |re| > 0
  {
    FreeStart(re) - {0}
  }

  /** Where the three parts of the whole tree hang. */
  function BodyPath(acc: nat): Path {
    CatLeft(Leaf(Final, acc), Root)
  }

  function PatternPath(acc: nat): Path {
    CatRight(AnyPrefix, BodyPath(acc))
  }

  lemma WholeFollow(q: Re, acc: nat)
    requires Plain(q)
    ensures FollowSet(Cat(AnyPrefix, q), BodyPath(acc)) == {acc}
    ensures FollowSet(q, PatternPath(acc)) == {acc}
    ensures FollowSet(AnyPrefix, CatLeft(q, BodyPath(acc))) == Entry(q, {acc})
    ensures FollowSet(Leaf(All, 0), InStar(CatLeft(q, BodyPath(acc)))) == {0} + Entry(q, {acc})
  {
    assert FollowSet(Cat(AnyPrefix, q), BodyPath(acc)) == {acc};
  }

  lemma WholeFilled(q: Re, acc: nat, re: seq<Row>)
    requires Filled(Cat(Cat(AnyPrefix, q), Leaf(Final, acc)), Root, re)
    ensures Filled(Cat(AnyPrefix, q), BodyPath(acc), re)
    ensures Filled(q, PatternPath(acc), re)
    ensures Filled(Leaf(All, 0), InStar(CatLeft(q, BodyPath(acc))), re)
    ensures acc < |re| && re[acc].sym == Final
  {
    assert Filled(Cat(AnyPrefix, q), BodyPath(acc), re);
    assert Filled(AnyPrefix, CatLeft(q, BodyPath(acc)), re);
  }

  lemma WholeEntry(q: Re, acc: nat)
    requires Numbered(q, 1)
    ensures Entry(Cat(AnyPrefix, q), {acc}) == {0} + Entry(q, {acc})
    ensures acc != 0 ==> 0 !in Entry(q, {acc})
  {
    FirstSetRange(q, 1);
    assert FirstSet(AnyPrefix) == {0};
    assert FirstSet(Cat(AnyPrefix, q)) == {0} + FirstSet(q);
  }

  /** Facts about the table that the later lemmas share. */
  ghost predicate Shaped(q: Re, acc: nat, re: seq<Row>) {
    && |re| == acc + 1 && acc > 0 && re[acc].sym == Final && re[0].sym == All
    && Plain(q) && Numbered(q, 1) && Leaves(q) + 1 == acc
    && Filled(q, PatternPath(acc), re) && FollowSet(q, PatternPath(acc)) == {acc}
    && Filled(Cat(AnyPrefix, q), BodyPath(acc), re) && FollowSet(Cat(AnyPrefix, q), BodyPath(acc)) == {acc}
    && FreeStart(re) == Entry(Cat(AnyPrefix, q), {acc}) == {0} + Entry(q, {acc})
    && 0 !in Entry(q, {acc})
  }

  lemma CompiledShape(p: Re, re: seq<Row>)
    requires Compiled(p, re)
    ensures Shaped(Penter(p, 1), 1 + Leaves(p), re)
  {
    PenterKeepsPlain(p, 1);
    TableShape(Penter(p, 1), 1 + Leaves(p), re);
  }

  lemma TableShape(q: Re, acc: nat, re: seq<Row>)
    requires Tabled(q, acc, re) && Plain(q) && Numbered(q, 1) && Leaves(q) + 1 == acc
    ensures Shaped(q, acc, re)
  {
    WholeFollow(q, acc);
    WholeFilled(q, acc, re);
    WholeEntry(q, acc);
  }

  lemma WholeTree(p: Re)
    ensures Penter(Whole(p), 0) == Cat(Cat(AnyPrefix, Penter(p, 1)), Leaf(Final, 1 + Leaves(p)))
    ensures Leaves(Penter(Whole(p), 0)) == Leaves(p) + 2
  {
    assert Penter(AnyPrefix, 0) == AnyPrefix && Leaves(AnyPrefix) == 1;
    assert Penter(Cat(AnyPrefix, p), 0) == Cat(AnyPrefix, Penter(p, 1));
  }

  lemma {:induction false} PenterKeepsPlain(r: Re, n: nat)
    requires Plain(r)
    ensures Plain(Penter(r, n))
  {
    match r
    case Leaf(_, _) =>
    case Star(x) => PenterKeepsPlain(x, n);
    case Plus(x) => PenterKeepsPlain(x, n);
    case Quest(x) => PenterKeepsPlain(x, n);
    case Cat(a, b) => PenterKeepsPlain(a, n); PenterKeepsPlain(b, n + Leaves(a));
    case Or(a, b) => PenterKeepsPlain(a, n); PenterKeepsPlain(b, n + Leaves(a));
  }

  lemma {:induction false} FirstSetRange(r: Re, lo: nat)
    requires Numbered(r, lo)
    ensures forall q :: q in FirstSet(r) ==> lo <= q < lo + Leaves(r)
  {
    match r
    case Leaf(_, _) =>
    case Star(x) => FirstSetRange(x, lo);
    case Plus(x) => FirstSetRange(x, lo);
    case Quest(x) => FirstSetRange(x, lo);
    case Cat(a, b) => FirstSetRange(a, lo); FirstSetRange(b, lo + Leaves(a));
    case Or(a, b) => FirstSetRange(a, lo); FirstSetRange(b, lo + Leaves(a));
  }

  /** Only the ALL in front leads back to itself: no other leaf is followed by position 0. */
  lemma {:induction false} FollowAvoidsZero(v: Re, path: Path, lo: nat, re: seq<Row>)
    requires Filled(v, path, re) && Plain(v) && Numbered(v, lo) && lo >= 1 && 0 !in FollowSet(v, path)
    ensures forall q :: lo <= q < lo + Leaves(v) && q < |re| ==> 0 !in Elems(re[q].lfollow)
  {
    match v
    case Leaf(_, _) =>
    case Star(x) =>
      FirstSetRange(x, lo);
      FollowAvoidsZero(x, InStar(path), lo, re);
    case Plus(x) =>
      FirstSetRange(x, lo);
      FollowAvoidsZero(x, InPlus(path), lo, re);
    case Quest(x) => FollowAvoidsZero(x, InQuest(path), lo, re);
    case Cat(a, b) =>
      FirstSetRange(b, lo + Leaves(a));
      FollowAvoidsZero(a, CatLeft(b, path), lo, re);
      FollowAvoidsZero(b, CatRight(a, path), lo + Leaves(a), re);
    case Or(a, b) =>
      FollowAvoidsZero(a, OrLeft(b, path), lo, re);
      FollowAvoidsZero(b, OrRight(a, path), lo + Leaves(a), re);
  }

  /** FINAL consumes nothing: only the empty rest leads from it to acceptance. */
  lemma RunFromFinal(re: seq<Row>, acc: nat, w: seq<nat>, k: nat, n: nat)
    requires k <= n <= |w| && |re| == acc + 1 && re[acc].sym == Final
    ensures RunFrom(re, {acc}, w, k, n) <==> k == n
  {
    assert RunFrom(re, {acc}, w, k, n) <==> Run(re, acc, w, k, n);
  }

  lemma {:induction false} AnyPrefixMeans(w: seq<nat>, k: nat)
    requires k <= |w|
    ensures Matches(AnyPrefix, w, 0, k) <==> 0 !in w[..k]
  {
    IterateAll(w, 0, k);
    assert w[0..k] == w[..k];
  }

  lemma {:induction false} IterateAll(w: seq<nat>, i: nat, k: nat)
    requires i <= k <= |w|
    ensures Iterates(Leaf(All, 0), w, i, k) <==> 0 !in w[i..k]
    decreases k - i
  {
    if i < k {
      IterateAll(w, i + 1, k);
      assert w[i..k] == [w[i]] + w[i + 1..k];
      if Iterates(Leaf(All, 0), w, i, k) {
        assert Iterates(Leaf(All, 0), w, i, k);
        var m: nat :| i < m <= k && Matches(Leaf(All, 0), w, i, m) && Iterates(Leaf(All, 0), w, m, k);
      }
      if 0 !in w[i..k] {
        assert Matches(Leaf(All, 0), w, i, i + 1);
      }
    }
  }

  // ---------------------------------------------------------------------
  // What the two start sets recognise
  // ---------------------------------------------------------------------

  /** In anchored mode the runs over w[i..n] are exactly the words of the expression. */
  lemma AnchoredMeans(p: Re, re: seq<Row>, w: seq<nat>, i: nat, n: nat)
    requires Compiled(p, re) && i <= n <= |w|
    ensures RunFrom(re, AnchoredStart(re), w, i, n) <==> Matches(p, w, i, n)
  {
    CompiledShape(p, re);
    var q, acc := Penter(p, 1), 1 + Leaves(p);
    var path := PatternPath(acc);
    assert AnchoredStart(re) == Entry(q, {acc});
    EntryMeans(q, path, 1, re, w, i, n);
    RunFromFinal(re, acc, w, n, n);
    if Enters(q, re, {acc}, w, i, n) {
      var k: nat :| i <= k <= n && Matches(q, w, i, k) && RunFrom(re, {acc}, w, k, n);
      RunFromFinal(re, acc, w, k, n);
    }
    PenterKeepsLanguage(p, 1, w, i, n);
  }

  /** Some substring of `w` that ends at n, after a prefix free of the terminator, is a word of `p`. */
  ghost predicate EndsWord(p: Re, w: seq<nat>, n: nat)
    requires n <= |w|
  {
    exists k :: 0 <= k <= n && 0 !in w[..k] && Matches(p, w, k, n)
  }

  /** The unanchored automaton accepts after w[..n] exactly when a word of `p` ends there. */
  lemma FreeMeans(p: Re, re: seq<Row>, w: seq<nat>, n: nat)
    requires Compiled(p, re) && n <= |w|
    ensures RunFrom(re, FreeStart(re), w, 0, n) <==> EndsWord(p, w, n)
  {
    CompiledShape(p, re);
    var q, acc := Penter(p, 1), 1 + Leaves(p);
    var path := BodyPath(acc);
    var body := Cat(AnyPrefix, q);
    EntryMeans(body, path, 0, re, w, 0, n);
    RunFromFinal(re, acc, w, n, n);
    forall k | 0 <= k <= n
      ensures Matches(AnyPrefix, w, 0, k) <==> 0 !in w[..k]
      ensures Matches(q, w, k, n) <==> Matches(p, w, k, n)
    {
      AnyPrefixMeans(w, k);
      PenterKeepsLanguage(p, 1, w, k, n);
    }
    if Enters(body, re, {acc}, w, 0, n) {
      var m: nat :| 0 <= m <= n && Matches(body, w, 0, m) && RunFrom(re, {acc}, w, m, n);
      RunFromFinal(re, acc, w, m, n);
      assert Matches(Cat(AnyPrefix, q), w, 0, n);
      var k: nat :| 0 <= k <= n && Matches(AnyPrefix, w, 0, k) && Matches(q, w, k, n);
      assert EndsWord(p, w, n);
    }
    if EndsWord(p, w, n) {
      var k: nat :| 0 <= k <= n && 0 !in w[..k] && Matches(p, w, k, n);
      assert Matches(AnyPrefix, w, 0, k) && Matches(q, w, k, n);
      assert Matches(body, w, 0, n);
    }
  }

  /** The subject as the automaton sees it: HAT, the bytes, the terminator. */
  function Subject(s: seq<nat>): seq<nat> {
    [HAT] + s + [0]
  }

  /** Some substring of HAT s NUL is a word of `p`. */
  ghost predicate Contains(p: Re, s: seq<nat>) {
    var w := Subject(s);
    exists k, n :: 0 <= k <= n <= |w| && Matches(p, w, k, n)
  }

  /** Stepping the unanchored start set over HAT s NUL accepts after some prefix that includes HAT. */
  ghost predicate SomePrefixAccepts(re: seq<Row>, s: seq<nat>)
    requires |re| > 0
  {
    exists n :: 1 <= n <= |s| + 2 && AcceptsAfter(re, s, n)
  }

  ghost predicate AcceptsAfter(re: seq<Row>, s: seq<nat>, n: nat)
    requires |re| > 0 && n <= |s| + 2
  {
    |re| - 1 in Steps(re, FreeStart(re), Subject(s), 0, n)
  }

  lemma PrefixAccepts(p: Re, re: seq<Row>, s: seq<nat>, n: nat)
    requires Compiled(p, re) && n <= |s| + 2
    ensures AcceptsAfter(re, s, n) <==> EndsWord(p, Subject(s), n)
  {
    StepsAccept(re, FreeStart(re), Subject(s), 0, n);
    FreeMeans(p, re, Subject(s), n);
  }

  /** ... exactly when a substring of HAT s NUL is a word of `p`. */
  lemma UnanchoredCorrect(p: Re, re: seq<Row>, s: seq<nat>)
    requires Compiled(p, re) && 0 !in s
    ensures SomePrefixAccepts(re, s) <==> Contains(p, s)
  {
    var w := Subject(s);
    if SomePrefixAccepts(re, s) {
      var n: nat :| 1 <= n <= |s| + 2 && AcceptsAfter(re, s, n);
      PrefixAccepts(p, re, s, n);
      var k: nat :| 0 <= k <= n && 0 !in w[..k] && Matches(p, w, k, n);
    }
    if Contains(p, s) {
      var k: nat, n: nat :| 0 <= k <= n <= |w| && Matches(p, w, k, n);
      if k == n {
        NullableMeans(p, w, n);
        NullableMeans(p, w, 1);
        assert EndsWord(p, w, 1);
        PrefixAccepts(p, re, s, 1);
      } else {
        assert 0 !in w[..k];
        assert EndsWord(p, w, n);
        PrefixAccepts(p, re, s, n);
      }
    }
  }

  /** Where a match of length n - (j + 1) may be reported for start j: `^` may precede byte 0. */
  ghost predicate MatchAt(p: Re, s: seq<nat>, j: nat, len: nat)
    requires j + len <= |s| + 1
  {
    var w := Subject(s);
    Matches(p, w, j + 1, j + 1 + len) || (j == 0 && Matches(p, w, 0, 1 + len))
  }

  // ---------------------------------------------------------------------
  // What expressions of one leaf find
  // ---------------------------------------------------------------------

  ghost predicate Bytes(s: seq<nat>) {
    forall i :: 0 <= i < |s| ==> 1 <= s[i] <= 255
  }

  /** A leaf takes one symbol: the one in front of the subject, a byte, or the one behind it. */
  lemma LeafTakes(x: Sym, n: nat, s: seq<nat>)
    requires !EmptyClass(x) && !Accepts(x, HAT) && !Accepts(x, 0)
    ensures Contains(Leaf(x, n), s) <==> exists i :: 0 <= i < |s| && Accepts(x, s[i])
    ensures forall j: nat, len: nat :: j + len <= |s| + 1 ==> (MatchAt(Leaf(x, n), s, j, len) <==> len == 1 && j < |s| && Accepts(x, s[j]))
  {
    var w := Subject(s);
    if i :| 0 <= i < |s| && Accepts(x, s[i]) { assert w[i + 1] == s[i] && Matches(Leaf(x, n), w, i + 1, i + 2); }
    if k: nat, m: nat :| k <= m <= |w| && Matches(Leaf(x, n), w, k, m) { assert w[k] == s[k - 1]; }
  }

  /** A class matches at each of its characters, alone. */
  lemma ClassFinds(cs: seq<ClassChar>, n: nat, s: seq<nat>)
    requires Bytes(s) && cs != []
    ensures Contains(Leaf(Ccl(cs), n), s) <==> exists i :: 0 <= i < |s| && s[i] in cs
    ensures forall j: nat, len: nat :: j + len <= |s| + 1 ==> (MatchAt(Leaf(Ccl(cs), n), s, j, len) <==> len == 1 && j < |s| && s[j] in cs)
  {
    LeafTakes(Ccl(cs), n, s);
    assert forall i :: 0 <= i < |s| ==> (Accepts(Ccl(cs), s[i]) <==> s[i] in cs);
  }

  /** A class with ^ matches at each other byte, and neither in front of the subject nor behind it. */
  lemma OthersFind(cs: seq<ClassChar>, n: nat, s: seq<nat>)
    requires Bytes(s)
    ensures Contains(Leaf(Nccl(cs), n), s) <==> exists i :: 0 <= i < |s| && s[i] !in cs
    ensures forall j: nat, len: nat :: j + len <= |s| + 1 ==> (MatchAt(Leaf(Nccl(cs), n), s, j, len) <==> len == 1 && j < |s| && s[j] !in cs)
  {
    LeafTakes(Nccl(cs), n, s);
    assert forall i :: 0 <= i < |s| ==> (Accepts(Nccl(cs), s[i]) <==> s[i] !in cs);
  }

  /** A dot matches at each byte. */
  lemma DotFinds(n: nat, s: seq<nat>)
    requires Bytes(s)
    ensures Contains(Leaf(Dot, n), s) <==> s != []
    ensures forall j: nat, len: nat :: j + len <= |s| + 1 ==> (MatchAt(Leaf(Dot, n), s, j, len) <==> len == 1 && j < |s|)
  {
    LeafTakes(Dot, n, s);
    assert forall i :: 0 <= i < |s| ==> Accepts(Dot, s[i]);
    assert s != [] ==> Accepts(Dot, s[0]);
  }

  /** A character matches where it is. */
  lemma CharFinds(c: nat, n: nat, s: seq<nat>)
    requires Bytes(s) && 1 <= c <= 255
    ensures Contains(Leaf(Chr(c), n), s) <==> c in s
    ensures forall j: nat, len: nat :: j + len <= |s| + 1 ==> (MatchAt(Leaf(Chr(c), n), s, j, len) <==> len == 1 && j < |s| && s[j] == c)
  {
    LeafTakes(Chr(c), n, s);
    assert forall i :: 0 <= i < |s| ==> (Accepts(Chr(c), s[i]) <==> s[i] == c);
  }

  /** `^` and `$` match in front of the first byte and behind the last one, and `[]` matches the empty text everywhere. */
  lemma EndsFind(n: nat, s: seq<nat>, j: nat, len: nat)
    requires Bytes(s) && j + len <= |s| + 1
    ensures MatchAt(Leaf(Chr(HAT), n), s, j, len) <==> j == 0 && len == 0
    ensures MatchAt(Leaf(Chr(0), n), s, j, len) <==> j == |s| && len == 1
    ensures MatchAt(Leaf(Ccl([]), n), s, j, len) <==> len == 0
  {
    var w := Subject(s);
    assert w[0] == HAT && w[|s| + 1] == 0 && forall k :: 1 <= k <= |s| ==> w[k] == s[k - 1];
  }

  /** The set in which anchored scanning starts at byte j. */
  ghost function ScanStart(re: seq<Row>, j: nat): set<nat>
    requires |re| > 0
  {
    if j == 0 then AnchoredStart(re) + (Succ(re, AnchoredStart(re), HAT) - {0}) else AnchoredStart(re)
  }

  /** Stepping from the anchored start set at byte j accepts exactly the matches at j. */
  lemma AnchoredCorrect(p: Re, re: seq<Row>, s: seq<nat>, j: nat, len: nat)
    requires Compiled(p, re) && j + len <= |s| + 1
    ensures |re| - 1 in Steps(re, ScanStart(re, j), Subject(s), j + 1, j + 1 + len) <==> MatchAt(p, s, j, len)
  {
    var w, n := Subject(s), j + 1 + len;
    var S := AnchoredStart(re);
    StepsAccept(re, ScanStart(re, j), w, j + 1, n);
    AnchoredMeans(p, re, w, j + 1, n);
    if j == 0 {
      SuccAvoidsZero(p, re, HAT);
      RunFromUnion(re, S, Succ(re, S, HAT), w, 1, n);
      RunFromSucc(re, S, w, 0, n);
      AnchoredMeans(p, re, w, 0, n);
      assert Succ(re, S, HAT) - {0} == Succ(re, S, HAT);
    }
  }

  lemma SuccAvoidsZero(p: Re, re: seq<Row>, c: nat)
    requires Compiled(p, re)
    ensures 0 !in Succ(re, AnchoredStart(re), c)
  {
    CompiledShape(p, re);
    var q, acc := Penter(p, 1), 1 + Leaves(p);
    FirstSetRange(q, 1);
    FollowAvoidsZero(q, PatternPath(acc), 1, re);
  }

  /** makeinit in anchored mode: the HAT successor of the free start set, without position 0,
      is the set in which scanning starts at byte 0. */
  lemma HatStart(p: Re, re: seq<Row>)
    requires Compiled(p, re)
    ensures 0 in FreeStart(re) && 0 in Succ(re, FreeStart(re), HAT)
    ensures Succ(re, FreeStart(re), HAT) - {0} == ScanStart(re, 0)
  {
    CompiledShape(p, re);
    SuccAvoidsZero(p, re, HAT);
    var S, F := AnchoredStart(re), FreeStart(re);
    assert Accepts(re[0].sym, HAT);
    forall t
      ensures t in Succ(re, F, HAT) <==> t in F || t in Succ(re, S, HAT)
    {
      if t in F { assert t in re[0].lfollow; }
      if t in Succ(re, F, HAT) {
        var q :| q in F && q < |re| && Accepts(re[q].sym, HAT) && t in re[q].lfollow;
        if q == 0 { assert t in F; } else { assert q in S; }
      }
    }
  }
}
