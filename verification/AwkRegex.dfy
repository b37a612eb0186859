/**
  Regular expressions of awk: the parse tree, its language, and the position
  automaton (follow sets) that `makedfa` builds from it.

  Symbols are numbers: 0 is the terminator of the subject string (what `$`
  matches), 1..255 are the bytes of the subject, and HAT (256) is the extra
  symbol that is fed in before the first byte (what `^` matches).
*/
module AwkRegex {

  const HAT: nat := 256
  const MAXLIN: nat := 256

  type ClassChar = c: nat | 1 <= c <= 255 witness 1

  datatype Sym =
    | Chr(c: nat)
    | Dot
    | All
    | Ccl(cs: seq<ClassChar>)
    | Nccl(cs: seq<ClassChar>)
    | Final

  /** A parse tree.  `pos` is the slot in which `penter` stores the index of a leaf. */
  datatype Re =
    | Leaf(sym: Sym, pos: nat)
    | Star(x: Re)
    | Plus(x: Re)
    | Quest(x: Re)
    | Cat(l: Re, r: Re)
    | Or(l: Re, r: Re)

  /** `member`: its first parameter is an unsigned char, so HAT arrives as 0. */
  predicate Member(c: nat, cs: seq<ClassChar>) {
    c % 256 in cs
  }

  /** Does a leaf consume the symbol `c`?  (The long condition inside `cgoto`.) */
  predicate Accepts(s: Sym, c: nat) {
    match s
    case Chr(d) => c == d
    case Dot => c != 0 && c != HAT
    case All => c != 0
    case Ccl(cs) => Member(c, cs)
    case Nccl(cs) => !Member(c, cs) && c != 0 && c != HAT
    case Final => false
  }

  /** The class `[]`, which is also how the parser writes `()`. */
  predicate EmptyClass(s: Sym) {
    s.Ccl? && s.cs == []
  }

  // ---------------------------------------------------------------------
  // The language of a tree
  // ---------------------------------------------------------------------

  /** w[i..j] is in the language of `r`. */
  ghost predicate Matches(r: Re, w: seq<nat>, i: nat, j: nat)
    requires i <= j <= |w|
    decreases r, 0, 0
  {
    match r
    case Leaf(s, _) => if EmptyClass(s) then i == j else j == i + 1 && Accepts(s, w[i])
    case Star(x) => Iterates(x, w, i, j)
    case Plus(x) => exists k :: i <= k <= j && Matches(x, w, i, k) && Iterates(x, w, k, j)
    case Quest(x) => i == j || Matches(x, w, i, j)
    case Cat(a, b) => exists k :: i <= k <= j && Matches(a, w, i, k) && Matches(b, w, k, j)
    case Or(a, b) => Matches(a, w, i, j) || Matches(b, w, i, j)
  }

  /** w[i..j] is a concatenation of zero or more words of `x`. */
  ghost predicate Iterates(x: Re, w: seq<nat>, i: nat, j: nat)
    requires i <= j <= |w|
    decreases x, 1, j - i
  {
    i == j || exists k :: i < k <= j && Matches(x, w, i, k) && Iterates(x, w, k, j)
  }

  /** Ascending places from i to j, with a word of x between each and the next. */
  ghost predicate IsCut(x: Re, w: seq<nat>, i: nat, j: nat, cut: seq<nat>) {
    && cut != [] && cut[0] == i && cut[|cut| - 1] == j <= |w|
    && (forall a, b :: 0 <= a && b == a + 1 < |cut| ==> cut[a] <= cut[b])
    && (forall a :: 0 <= a < |cut| ==> cut[a] <= j)
    && forall a, b :: 0 <= a && b == a + 1 < |cut| ==> Matches(x, w, cut[a], cut[b])
  }

  lemma {:induction false} CutIterates(x: Re, w: seq<nat>, i: nat, j: nat, cut: seq<nat>)
    requires i <= j <= |w| && IsCut(x, w, i, j, cut)
    ensures Iterates(x, w, i, j)
    decreases |cut|
  {
    if |cut| > 1 {
      CutIterates(x, w, cut[1], j, cut[1..]);
    }
  }

  lemma {:induction false} IteratesCut(x: Re, w: seq<nat>, i: nat, j: nat) returns (cut: seq<nat>)
    requires i <= j <= |w| && Iterates(x, w, i, j)
    ensures IsCut(x, w, i, j, cut)
    decreases j - i
  {
    cut := [i];
    if i < j {
      var k: nat :| i < k <= j && Matches(x, w, i, k) && Iterates(x, w, k, j);
      var rest := IteratesCut(x, w, k, j);
      cut := [i] + rest;
    }
  }

  /** A star stands for any number of words one after the other. */
  lemma StarMeans(x: Re, w: seq<nat>, i: nat, j: nat)
    requires i <= j <= |w|
    ensures Matches(Star(x), w, i, j) <==> exists cut :: IsCut(x, w, i, j, cut)
  {
    if cut :| IsCut(x, w, i, j, cut) { CutIterates(x, w, i, j, cut); }
    if Iterates(x, w, i, j) { var cut := IteratesCut(x, w, i, j); }
  }

  /** A word in front of a cut. */
  lemma CutMore(x: Re, w: seq<nat>, i: nat, k: nat, j: nat, cut: seq<nat>)
    requires i <= k <= j <= |w| && IsCut(x, w, k, j, cut) && Matches(x, w, i, k)
    ensures IsCut(x, w, i, j, [i] + cut)
  {
  }

  lemma CutLess(x: Re, w: seq<nat>, i: nat, j: nat, cut: seq<nat>)
    requires IsCut(x, w, i, j, cut) && |cut| > 1
    ensures i <= cut[1] <= j && Matches(x, w, i, cut[1]) && Iterates(x, w, cut[1], j)
  {
    CutIterates(x, w, cut[1], j, cut[1..]);
  }

  /** A plus stands for one word or more. */
  lemma PlusMeans(x: Re, w: seq<nat>, i: nat, j: nat)
    requires i <= j <= |w|
    ensures Matches(Plus(x), w, i, j) <==> exists cut :: IsCut(x, w, i, j, cut) && |cut| > 1
  {
    if cut :| IsCut(x, w, i, j, cut) && |cut| > 1 { CutLess(x, w, i, j, cut); }
    if k: nat :| i <= k <= j && Matches(x, w, i, k) && Iterates(x, w, k, j) {
      var rest := IteratesCut(x, w, k, j);
      CutMore(x, w, i, k, j, rest);
    }
  }

  // ---------------------------------------------------------------------
  // Leaf numbering (penter)
  // ---------------------------------------------------------------------

  function Leaves(r: Re): nat {
    match r
    case Leaf(_, _) => 1
    case Star(x) => Leaves(x)
    case Plus(x) => Leaves(x)
    case Quest(x) => Leaves(x)
    case Cat(a, b) => Leaves(a) + Leaves(b)
    case Or(a, b) => Leaves(a) + Leaves(b)
  }

  /** `penter`: number the leaves from `poscnt` on, left to right. */
  function Penter(r: Re, poscnt: nat): (t: Re)
    ensures Leaves(t) == Leaves(r) >= 1
    ensures Numbered(t, poscnt)
  {
    match r
    case Leaf(s, _) => Leaf(s, poscnt)
    case Star(x) => Star(Penter(x, poscnt))
    case Plus(x) => Plus(Penter(x, poscnt))
    case Quest(x) => Quest(Penter(x, poscnt))
    case Cat(a, b) => Cat(Penter(a, poscnt), Penter(b, poscnt + Leaves(a)))
    case Or(a, b) => Or(Penter(a, poscnt), Penter(b, poscnt + Leaves(a)))
  }

  /** The leaves of `r` carry lo, lo+1, ... from left to right. */
  predicate Numbered(r: Re, lo: nat) {
    match r
    case Leaf(_, p) => p == lo
    case Star(x) => Numbered(x, lo)
    case Plus(x) => Numbered(x, lo)
    case Quest(x) => Numbered(x, lo)
    case Cat(a, b) => Numbered(a, lo) && Numbered(b, lo + Leaves(a))
    case Or(a, b) => Numbered(a, lo) && Numbered(b, lo + Leaves(a))
  }

  /** Numbering the leaves does not change the language. */
  lemma {:induction false} PenterKeepsLanguage(r: Re, n: nat, w: seq<nat>, i: nat, j: nat)
    requires i <= j <= |w|
    ensures Matches(Penter(r, n), w, i, j) <==> Matches(r, w, i, j)
    decreases r, 0, 0
  {
    match r
    case Leaf(_, _) =>
    case Star(x) => PenterKeepsIterates(x, n, w, i, j);
    case Quest(x) => PenterKeepsLanguage(x, n, w, i, j);
    case Plus(x) =>
      forall k | i <= k <= j
        ensures Matches(Penter(x, n), w, i, k) <==> Matches(x, w, i, k)
        ensures Iterates(Penter(x, n), w, k, j) <==> Iterates(x, w, k, j)
      {
        PenterKeepsLanguage(x, n, w, i, k);
        PenterKeepsIterates(x, n, w, k, j);
      }
    case Cat(a, b) =>
      forall k | i <= k <= j
        ensures Matches(Penter(a, n), w, i, k) <==> Matches(a, w, i, k)
        ensures Matches(Penter(b, n + Leaves(a)), w, k, j) <==> Matches(b, w, k, j)
      {
        PenterKeepsLanguage(a, n, w, i, k);
        PenterKeepsLanguage(b, n + Leaves(a), w, k, j);
      }
    case Or(a, b) =>
      PenterKeepsLanguage(a, n, w, i, j);
      PenterKeepsLanguage(b, n + Leaves(a), w, i, j);
  }

  lemma {:induction false} PenterKeepsIterates(x: Re, n: nat, w: seq<nat>, i: nat, j: nat)
    requires i <= j <= |w|
    ensures Iterates(Penter(x, n), w, i, j) <==> Iterates(x, w, i, j)
    decreases x, 1, j - i
  {
    forall k | i < k <= j
      ensures Matches(Penter(x, n), w, i, k) <==> Matches(x, w, i, k)
      ensures Iterates(Penter(x, n), w, k, j) <==> Iterates(x, w, k, j)
    {
      PenterKeepsLanguage(x, n, w, i, k);
      PenterKeepsIterates(x, n, w, k, j);
    }
  }

  // ---------------------------------------------------------------------
  // first and follow
  // ---------------------------------------------------------------------

  /** What `first` returns 0 for: the empty word is in the language. */
  predicate Nullable(r: Re) {
    match r
    case Leaf(s, _) => EmptyClass(s)
    case Star(_) => true
    case Quest(_) => true
    case Plus(x) => Nullable(x)
    case Cat(a, b) => Nullable(a) && Nullable(b)
    case Or(a, b) => Nullable(a) || Nullable(b)
  }

  /** What `first` collects into setvec: the leaves a word of `r` can start in. */
  function FirstSet(r: Re): set<nat> {
    match r
    case Leaf(_, p) => {p}
    case Star(x) => FirstSet(x)
    case Plus(x) => FirstSet(x)
    case Quest(x) => FirstSet(x)
    case Cat(a, b) => if Nullable(a) then FirstSet(a) + FirstSet(b) else FirstSet(a)
    case Or(a, b) => FirstSet(a) + FirstSet(b)
  }

  /** The chain of parent pointers above a node, innermost parent first. */
  datatype Path =
    | Root
    | InStar(up: Path)
    | InPlus(up: Path)
    | InQuest(up: Path)
    | CatLeft(sibling: Re, up: Path)
    | CatRight(sibling: Re, up: Path)
    | OrLeft(sibling: Re, up: Path)
    | OrRight(sibling: Re, up: Path)

  /** What `follow` collects: the leaves that can come right after node `v`. */
  function FollowSet(v: Re, path: Path): set<nat>
    decreases path
  {
    if v.Leaf? && v.sym.Final? then {} else
    match path
    case Root => {}
    case InStar(up) => FirstSet(v) + FollowSet(Star(v), up)
    case InPlus(up) => FirstSet(v) + FollowSet(Plus(v), up)
    case InQuest(up) => FollowSet(Quest(v), up)
    case OrLeft(b, up) => FollowSet(Or(v, b), up)
    case OrRight(a, up) => FollowSet(Or(a, v), up)
    case CatLeft(b, up) =>
      if Nullable(b) then FirstSet(b) + FollowSet(Cat(v, b), up) else FirstSet(b)
    case CatRight(a, up) => FollowSet(Cat(a, v), up)
  }

  // ---------------------------------------------------------------------
  // The position automaton
  // ---------------------------------------------------------------------

  /** One row of the `re` table of an fa: a leaf and its follow list. */
  datatype Row = Row(sym: Sym, lfollow: seq<nat>)

  function Elems(s: seq<nat>): set<nat> {
    set x | x in s
  }

  /** Every leaf below `v` has its row filled in. */
  ghost predicate Filled(v: Re, path: Path, re: seq<Row>) {
    match v
    case Leaf(s, p) => p < |re| && re[p].sym == s && Elems(re[p].lfollow) == FollowSet(v, path)
    case Star(x) => Filled(x, InStar(path), re)
    case Plus(x) => Filled(x, InPlus(path), re)
    case Quest(x) => Filled(x, InQuest(path), re)
    case Cat(a, b) => Filled(a, CatLeft(b, path), re) && Filled(b, CatRight(a, path), re)
    case Or(a, b) => Filled(a, OrLeft(b, path), re) && Filled(b, OrRight(a, path), re)
  }

  /** From position `q`, the symbols w[i..n] lead to the accepting position. */
  ghost predicate Run(re: seq<Row>, q: nat, w: seq<nat>, i: nat, n: nat)
    requires i <= n <= |w|
    decreases n - i, 0
  {
    q < |re| &&
    if i == n then q == |re| - 1
    else Accepts(re[q].sym, w[i]) && RunFrom(re, Elems(re[q].lfollow), w, i + 1, n)
  }

  ghost predicate RunFrom(re: seq<Row>, S: set<nat>, w: seq<nat>, i: nat, n: nat)
    requires i <= n <= |w|
    decreases n - i, 1
  {
    exists q :: q in S && Run(re, q, w, i, n)
  }

  /** No FINAL leaf below `r`: true of every tree the parser hands to makedfa. */
  predicate Plain(r: Re) {
    match r
    case Leaf(s, _) => !s.Final?
    case Star(x) => Plain(x)
    case Plus(x) => Plain(x)
    case Quest(x) => Plain(x)
    case Cat(a, b) => Plain(a) && Plain(b)
    case Or(a, b) => Plain(a) && Plain(b)
  }

  lemma {:induction false} NullableMeans(r: Re, w: seq<nat>, i: nat)
    requires i <= |w|
    ensures Nullable(r) <==> Matches(r, w, i, i)
  {
    match r
    case Leaf(_, _) =>
    case Star(_) =>
    case Quest(_) =>
    case Plus(x) => NullableMeans(x, w, i);
    case Cat(a, b) => NullableMeans(a, w, i); NullableMeans(b, w, i);
    case Or(a, b) => NullableMeans(a, w, i); NullableMeans(b, w, i);
  }

  /** After a nonempty word of `r` starting at i, a run continues from `K`. */
  ghost predicate Passes(r: Re, re: seq<Row>, K: set<nat>, w: seq<nat>, i: nat, n: nat)
    requires i <= n <= |w|
  {
    exists k :: i < k <= n && Matches(r, w, i, k) && RunFrom(re, K, w, k, n)
  }

  lemma RunFromUnion(re: seq<Row>, S: set<nat>, T: set<nat>, w: seq<nat>, i: nat, n: nat)
    requires i <= n <= |w|
    ensures RunFrom(re, S + T, w, i, n) <==> RunFrom(re, S, w, i, n) || RunFrom(re, T, w, i, n)
  {
    if RunFrom(re, S, w, i, n) {
      var q :| q in S && Run(re, q, w, i, n);
      assert q in S + T;
    }
    if RunFrom(re, T, w, i, n) {
      var q :| q in T && Run(re, q, w, i, n);
      assert q in S + T;
    }
  }

  /** The heart of the construction: the runs that start in `FirstSet(r)` are exactly those
      that spell a nonempty word of `r` and go on from a leaf that can follow `r`. */
  lemma {:induction false} FirstMeans(r: Re, path: Path, lo: nat, re: seq<Row>, w: seq<nat>, i: nat, n: nat)
    requires i <= n <= |w|
    requires Filled(r, path, re) && Plain(r) && Numbered(r, lo) && lo + Leaves(r) < |re|
    ensures RunFrom(re, FirstSet(r), w, i, n) <==> Passes(r, re, FollowSet(r, path), w, i, n)
    decreases r, 2, 0
  {
    var K := FollowSet(r, path);
    match r
    case Leaf(s, p) =>
      assert RunFrom(re, {p}, w, i, n) <==> Run(re, p, w, i, n);
      if Run(re, p, w, i, n) {
        assert Matches(r, w, i, i + 1) && RunFrom(re, K, w, i + 1, n);
      }
    case Star(x) =>
      LoopMeans(x, InStar(path), K, lo, re, w, i, n);
    case Plus(x) =>
      LoopMeans(x, InPlus(path), K, lo, re, w, i, n);
      PlusIsStar(x, re, K, w, i, n);
    case Quest(x) =>
      FirstMeans(x, InQuest(path), lo, re, w, i, n);
    case Or(a, b) =>
      RunFromUnion(re, FirstSet(a), FirstSet(b), w, i, n);
      FirstMeans(a, OrLeft(b, path), lo, re, w, i, n);
      FirstMeans(b, OrRight(a, path), lo + Leaves(a), re, w, i, n);
    case Cat(a, b) =>
      CatMeans(a, b, path, lo, re, w, i, n);
  }

  lemma {:induction false} CatMeans(a: Re, b: Re, path: Path, lo: nat, re: seq<Row>, w: seq<nat>, i: nat, n: nat)
    requires i <= n <= |w|
    requires Filled(Cat(a, b), path, re) && Plain(a) && Plain(b) && Numbered(Cat(a, b), lo)
    requires lo + Leaves(a) + Leaves(b) < |re|
    ensures RunFrom(re, FirstSet(Cat(a, b)), w, i, n) <==> Passes(Cat(a, b), re, FollowSet(Cat(a, b), path), w, i, n)
    decreases Cat(a, b), 1, 0
  {
    var K := FollowSet(Cat(a, b), path);
    var K' := FollowSet(a, CatLeft(b, path));
    forall k | i <= k <= n
      ensures RunFrom(re, FirstSet(b), w, k, n) <==> Passes(b, re, K, w, k, n)
      ensures RunFrom(re, K', w, k, n) <==> RunFrom(re, FirstSet(b), w, k, n) || (Nullable(b) && RunFrom(re, K, w, k, n))
    {
      FirstMeans(b, CatRight(a, path), lo + Leaves(a), re, w, k, n);
      RunFromUnion(re, FirstSet(b), K, w, k, n);
    }
    FirstMeans(a, CatLeft(b, path), lo, re, w, i, n);
    RunFromUnion(re, FirstSet(a), FirstSet(b), w, i, n);
    PassesCat(a, b, re, K, K', w, i, n);
  }

  /** A nonempty word of `a b`: a nonempty word of `a` first, or an empty one and then `b`. */
  lemma {:induction false} PassesCat(a: Re, b: Re, re: seq<Row>, K: set<nat>, K': set<nat>, w: seq<nat>, i: nat, n: nat)
    requires i <= n <= |w|
    requires forall k :: i <= k <= n ==>
               (RunFrom(re, K', w, k, n) <==> Passes(b, re, K, w, k, n) || (Nullable(b) && RunFrom(re, K, w, k, n)))
    ensures Passes(Cat(a, b), re, K, w, i, n) <==> Passes(a, re, K', w, i, n) || (Nullable(a) && Passes(b, re, K, w, i, n))
  {
    NullableMeans(a, w, i);
    if Passes(a, re, K', w, i, n) {
      var k: nat :| i < k <= n && Matches(a, w, i, k) && RunFrom(re, K', w, k, n);
      NullableMeans(b, w, k);
      if Passes(b, re, K, w, k, n) {
        var m: nat :| k < m <= n && Matches(b, w, k, m) && RunFrom(re, K, w, m, n);
        assert Matches(Cat(a, b), w, i, m);
      } else {
        assert Matches(Cat(a, b), w, i, k);
      }
    }
    if Nullable(a) && Passes(b, re, K, w, i, n) {
      var m: nat :| i < m <= n && Matches(b, w, i, m) && RunFrom(re, K, w, m, n);
      assert Matches(Cat(a, b), w, i, m);
    }
    if Passes(Cat(a, b), re, K, w, i, n) {
      var m: nat :| i < m <= n && Matches(Cat(a, b), w, i, m) && RunFrom(re, K, w, m, n);
      assert Matches(Cat(a, b), w, i, m);
      assert exists k: nat :: i <= k <= m && Matches(a, w, i, k) && Matches(b, w, k, m);
      var k: nat :| i <= k <= m && Matches(a, w, i, k) && Matches(b, w, k, m);
      NullableMeans(b, w, k);
      if i < k && k < m { assert Passes(b, re, K, w, k, n); }
    }
  }

  /** The same for the body of a loop, whose words may be repeated. */
  lemma {:induction false} LoopMeans(x: Re, path: Path, K: set<nat>, lo: nat, re: seq<Row>, w: seq<nat>, i: nat, n: nat)
    requires i <= n <= |w|
    requires Filled(x, path, re) && Plain(x) && Numbered(x, lo) && lo + Leaves(x) < |re|
    requires FollowSet(x, path) == FirstSet(x) + K
    ensures RunFrom(re, FirstSet(x), w, i, n) <==> Passes(Star(x), re, K, w, i, n)
    decreases x, 3, n - i
  {
    FirstMeans(x, path, lo, re, w, i, n);
    forall k | i < k <= n
      ensures RunFrom(re, FirstSet(x) + K, w, k, n) <==> Passes(Star(x), re, K, w, k, n) || RunFrom(re, K, w, k, n)
    {
      LoopMeans(x, path, K, lo, re, w, k, n);
      RunFromUnion(re, FirstSet(x), K, w, k, n);
    }
    if Passes(x, re, FirstSet(x) + K, w, i, n) {
      var k: nat :| i < k <= n && Matches(x, w, i, k) && RunFrom(re, FirstSet(x) + K, w, k, n);
      if Passes(Star(x), re, K, w, k, n) {
        var m: nat :| k < m <= n && Matches(Star(x), w, k, m) && RunFrom(re, K, w, m, n);
        assert Matches(Star(x), w, i, m);
      } else {
        assert Iterates(x, w, k, k);
        assert Matches(Star(x), w, i, k);
      }
    }
    if Passes(Star(x), re, K, w, i, n) {
      var m: nat :| i < m <= n && Matches(Star(x), w, i, m) && RunFrom(re, K, w, m, n);
      assert Iterates(x, w, i, m);
      var k: nat :| i < k <= m && Matches(x, w, i, k) && Iterates(x, w, k, m);
      if k < m {
        assert Matches(Star(x), w, k, m);
        assert Passes(Star(x), re, K, w, k, n);
      }
      assert RunFrom(re, FirstSet(x) + K, w, k, n);
    }
  }

  /** On nonempty words x+ and x* agree. */
  lemma {:induction false} PlusIsStar(x: Re, re: seq<Row>, K: set<nat>, w: seq<nat>, i: nat, n: nat)
    requires i <= n <= |w|
    ensures Passes(Plus(x), re, K, w, i, n) <==> Passes(Star(x), re, K, w, i, n)
  {
    forall m | i < m <= n
      ensures Matches(Plus(x), w, i, m) <==> Matches(Star(x), w, i, m)
    {
      if Matches(Star(x), w, i, m) {
        assert Iterates(x, w, i, m);
        var k: nat :| i < k <= m && Matches(x, w, i, k) && Iterates(x, w, k, m);
        assert i <= k <= m;
      }
    }
  }

  /** Where a run through `r` starts: a first leaf, or, when `r` can be empty, what follows it. */
  function Entry(r: Re, K: set<nat>): set<nat> {
    if Nullable(r) then FirstSet(r) + K else FirstSet(r)
  }

  /** After a word of `r` starting at i, empty or not, a run continues from `K`. */
  ghost predicate Enters(r: Re, re: seq<Row>, K: set<nat>, w: seq<nat>, i: nat, n: nat)
    requires i <= n <= |w|
  {
    exists k :: i <= k <= n && Matches(r, w, i, k) && RunFrom(re, K, w, k, n)
  }

  lemma {:induction false} EntryMeans(r: Re, path: Path, lo: nat, re: seq<Row>, w: seq<nat>, i: nat, n: nat)
    requires i <= n <= |w|
    requires Filled(r, path, re) && Plain(r) && Numbered(r, lo) && lo + Leaves(r) < |re|
    ensures RunFrom(re, Entry(r, FollowSet(r, path)), w, i, n) <==> Enters(r, re, FollowSet(r, path), w, i, n)
  {
    var K := FollowSet(r, path);
    FirstMeans(r, path, lo, re, w, i, n);
    NullableMeans(r, w, i);
    if Nullable(r) {
      RunFromUnion(re, FirstSet(r), K, w, i, n);
      if RunFrom(re, K, w, i, n) { assert Matches(r, w, i, i); }
    }
    if Enters(r, re, K, w, i, n) {
      var k: nat :| i <= k <= n && Matches(r, w, i, k) && RunFrom(re, K, w, k, n);
      if i < k { assert Passes(r, re, K, w, i, n); }
    }
  }
}
