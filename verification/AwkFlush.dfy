/**
  The line of `cgoto` that stores a transition after the table was flushed can spoil the table: an expression and
  the calls that do it, and a subject in which `pmatch` then misses a match.
*/
module AwkFlush {
  import opened AwkRegex
  import opened AwkFollow
  import opened AwkDfa

  /** The letters a, b, c ... */
  function Letter(i: nat): nat { 97 + i }

  function Pair(c: nat): Re { Cat(Leaf(Chr(c), 0), Leaf(Chr(c), 0)) }

  /** aa|bb|cc..., n words. */
  function Pairs(n: nat): Re
    requires n > 0
  {
    if n == 1 then Pair(Letter(0)) else Or(Pairs(n - 1), Pair(Letter(n - 1)))
  }

  lemma {:induction false} PairsPlain(n: nat)
    requires n > 0
    ensures Plain(Pairs(n)) && Leaves(Pairs(n)) == 2 * n
  {
    assert Leaves(Pair(Letter(n - 1))) == 2;
    if n > 1 { PairsPlain(n - 1); }
  }

  lemma PairMeans(c: nat, w: seq<nat>, i: nat, j: nat)
    requires i <= j <= |w|
    ensures Matches(Pair(c), w, i, j) <==> j == i + 2 && w[i] == w[i + 1] == c
  {
    var x := Leaf(Chr(c), 0);
    if j == i + 2 && w[i] == w[i + 1] == c {
      assert Matches(x, w, i, i + 1) && Matches(x, w, i + 1, j);
    }
  }

  lemma {:induction false} PairsMean(n: nat, w: seq<nat>, i: nat, j: nat)
    requires n > 0 && i <= j <= |w|
    ensures Matches(Pairs(n), w, i, j) <==> j == i + 2 && w[i] == w[i + 1] && Letter(0) <= w[i] < Letter(n)
  {
    PairMeans(Letter(n - 1), w, i, j);
    if n > 1 { PairsMean(n - 1, w, i, j); }
  }

  /** The set after one letter, anchored. */
  ghost function After(re: seq<Row>, c: nat): set<nat>
    requires |re| > 0
  {
    Succ(re, AnchoredStart(re), c)
  }

  /** A list that is the list of a set has that set. */
  lemma ListOfIs(re: seq<Row>, S: set<nat>, c: nat, p: seq<nat>)
    requires RowsOk(re) && p == ListOf(Succ(re, S, c), |re|)
    ensures Elems(p) == Succ(re, S, c)
  {
    forall q | q in Succ(re, S, c) ensures q < |re| {
      var x :| x in S && x < |re| && Accepts(re[x].sym, c) && q in re[x].lfollow;
      assert RowOk(re, x);
    }
    ListOfElems(Succ(re, S, c), |re|);
  }

  /** The rows of word i. */
  ghost predicate WordRows(re: seq<Row>, i: nat, acc: nat) {
    && 2 * i + 2 < |re|
    && re[2 * i + 1].sym == Chr(Letter(i)) && Elems(re[2 * i + 1].lfollow) == {2 * i + 2}
    && re[2 * i + 2].sym == Chr(Letter(i)) && Elems(re[2 * i + 2].lfollow) == {acc}
  }

  function FirstLetters(n: nat): set<nat> {
    set i: nat | 0 <= i < n :: 2 * i + 1
  }

  /** The expression with its leaves numbered from 1 on. */
  function Word(i: nat): Re { Cat(Leaf(Chr(Letter(i)), 2 * i + 1), Leaf(Chr(Letter(i)), 2 * i + 2)) }

  function WordTree(n: nat): Re
    requires n > 0
  {
    if n == 1 then Word(0) else Or(WordTree(n - 1), Word(n - 1))
  }

  lemma {:induction false} WordsNumbered(n: nat)
    requires n > 0
    ensures Penter(Pairs(n), 1) == WordTree(n)
  {
    var y := Pair(Letter(n - 1));
    assert Penter(y, 2 * (n - 1) + 1) == Word(n - 1);
    if n > 1 {
      WordsNumbered(n - 1);
      PairsPlain(n - 1);
      OrNumbered(Pairs(n - 1), y, 2 * (n - 1));
    }
  }

  lemma OrNumbered(x: Re, y: Re, k: nat)
    requires Leaves(x) == k
    ensures Penter(Or(x, y), 1) == Or(Penter(x, 1), Penter(y, k + 1))
  {
  }

  lemma OneWord(i: nat, path: Path, re: seq<Row>, acc: nat)
    requires Filled(Word(i), path, re) && FollowSet(Word(i), path) == {acc}
    ensures WordRows(re, i, acc) && FirstSet(Word(i)) == {2 * i + 1} && !Nullable(Word(i))
  {
    var x, y := Leaf(Chr(Letter(i)), 2 * i + 1), Leaf(Chr(Letter(i)), 2 * i + 2);
    assert Filled(x, CatLeft(y, path), re) && Filled(y, CatRight(x, path), re);
    assert FollowSet(y, CatRight(x, path)) == FollowSet(Cat(x, y), path);
  }

  lemma OrParts(a: Re, b: Re, path: Path, re: seq<Row>)
    requires Filled(Or(a, b), path, re) && !a.Leaf? && !b.Leaf?
    ensures Filled(a, OrLeft(b, path), re) && FollowSet(a, OrLeft(b, path)) == FollowSet(Or(a, b), path)
    ensures Filled(b, OrRight(a, path), re) && FollowSet(b, OrRight(a, path)) == FollowSet(Or(a, b), path)
    ensures FirstSet(Or(a, b)) == FirstSet(a) + FirstSet(b) && (Nullable(Or(a, b)) <==> Nullable(a) || Nullable(b))
  {
  }

  ghost predicate AllWords(re: seq<Row>, n: nat, acc: nat) {
    forall i :: 0 <= i < n ==> WordRows(re, i, acc)
  }

  lemma {:induction false} WordsRows(n: nat, path: Path, re: seq<Row>, acc: nat)
    requires n > 0 && Filled(WordTree(n), path, re) && FollowSet(WordTree(n), path) == {acc}
    ensures AllWords(re, n, acc) && FirstSet(WordTree(n)) == FirstLetters(n) && !Nullable(WordTree(n))
    decreases n
  {
    if n == 1 {
      OneWord(0, path, re, acc);
    } else {
      var a, b := WordTree(n - 1), Word(n - 1);
      OrParts(a, b, path, re);
      WordsRows(n - 1, OrLeft(b, path), re, acc);
      OneWord(n - 1, OrRight(a, path), re, acc);
      assert FirstLetters(n) == FirstLetters(n - 1) + {2 * (n - 1) + 1};
    }
  }

  /** The table of aa|bb|cc... . */
  ghost predicate PairTable(n: nat, re: seq<Row>) {
    && |re| == 2 * n + 2 && AllWords(re, n, 2 * n + 1)
    && re[2 * n + 1].sym == Final && AnchoredStart(re) == FirstLetters(n)
  }

  lemma TableIs(n: nat, re: seq<Row>)
    requires n > 0 && Compiled(Pairs(n), re)
    ensures PairTable(n, re)
  {
    PairsPlain(n);
    CompiledShape(Pairs(n), re);
    WordsNumbered(n);
    WordsRows(n, PatternPath(2 * n + 1), re, 2 * n + 1);
  }

  lemma OneAccepts(re: seq<Row>, S: set<nat>, c: nat, q: nat)
    requires q in S && q < |re| && Accepts(re[q].sym, c)
    requires forall r :: r in S && r < |re| && r != q ==> !Accepts(re[r].sym, c)
    ensures Succ(re, S, c) == Elems(re[q].lfollow)
  {
  }

  lemma NoneAccepts(re: seq<Row>, S: set<nat>, c: nat)
    requires forall r :: r in S && r < |re| ==> !Accepts(re[r].sym, c)
    ensures Succ(re, S, c) == {}
  {
  }

  lemma FirstAccepts(n: nat, re: seq<Row>, c: nat, q: nat)
    requires PairTable(n, re) && q in FirstLetters(n) && Accepts(re[q].sym, c)
    ensures Letter(0) <= c < Letter(n) && q == 2 * (c - 97) + 1
  {
    var k: nat :| k < n && q == 2 * k + 1;
    assert WordRows(re, k, 2 * n + 1);
  }

  /** Where a letter leads from the start, and where the next one leads from there. */
  lemma LetterSteps(n: nat, re: seq<Row>, i: nat, d: nat)
    requires PairTable(n, re) && i < n
    ensures After(re, Letter(i)) == {2 * i + 2}
    ensures Succ(re, {2 * i + 2}, d) == if d == Letter(i) then {2 * n + 1} else {}
  {
    var S := AnchoredStart(re);
    assert WordRows(re, i, 2 * n + 1);
    assert 2 * i + 1 in S;
    forall r | r in S && r < |re| && Accepts(re[r].sym, Letter(i)) ensures r == 2 * i + 1 { FirstAccepts(n, re, Letter(i), r); }
    OneAccepts(re, S, Letter(i), 2 * i + 1);
    if d == Letter(i) { OneAccepts(re, {2 * i + 2}, d, 2 * i + 2); } else { NoneAccepts(re, {2 * i + 2}, d); }
  }

  /** Behind a letter the same letter leads to the end. */
  lemma SecondAccepts(n: nat, re: seq<Row>, i: nat)
    requires PairTable(n, re) && i < n
    ensures |re| - 1 !in After(re, Letter(i)) && |re| - 1 in Succ(re, After(re, Letter(i)), Letter(i))
  {
    LetterSteps(n, re, i, Letter(i));
    assert 2 * n + 1 in {2 * n + 1} && 2 * n + 1 !in {2 * i + 2};
  }

  /** No word begins with HAT. */
  lemma NoHat(n: nat, re: seq<Row>)
    requires PairTable(n, re) && n <= 26
    ensures ScanStart(re, 0) == AnchoredStart(re)
  {
    forall r | r in AnchoredStart(re) && r < |re| ensures !Accepts(re[r].sym, HAT) {
      if Accepts(re[r].sym, HAT) { FirstAccepts(n, re, HAT, r); }
    }
    NoneAccepts(re, AnchoredStart(re), HAT);
  }

  /** After c, the same letter and no other is accepted. */
  lemma AfterLetter(n: nat, re: seq<Row>, c: nat, d: nat)
    requires n > 0 && Compiled(Pairs(n), re) && Letter(0) <= c < Letter(n)
    ensures |re| - 1 in Succ(re, After(re, c), d) <==> d == c
  {
    TableIs(n, re);
    LetterSteps(n, re, c - 97, d);
  }

  /** The states behind the n letters are new and different, and the same letter leads from each to acceptance. */
  ghost predicate Different(n: nat, re: seq<Row>) {
    && RowsOk(re) && |re| > 0
    && (forall j: nat :: j < n ==> IsNew(re, Letter(j)))
    && (forall i: nat, j: nat :: i < n && j < n && i != j ==> After(re, Letter(i)) != After(re, Letter(j)))
  }

  ghost predicate IsNew(re: seq<Row>, c: nat)
    requires |re| > 0
  {
    && After(re, c) != {} && After(re, c) != AnchoredStart(re) && After(re, c) != ScanStart(re, 0)
    && |re| - 1 !in After(re, c) && |re| - 1 in Succ(re, After(re, c), c)
  }

  lemma AllDifferent(n: nat, re: seq<Row>)
    requires 0 < n <= 26 && Compiled(Pairs(n), re) && RowsOk(re)
    ensures Different(n, re)
  {
    TableIs(n, re);
    NoHat(n, re);
    forall j: nat | j < n ensures IsNew(re, Letter(j)) && After(re, Letter(j)) == {2 * j + 2} {
      LetterSteps(n, re, j, Letter(j));
      OtherSet(n, j, 0, {});
      OtherSet(n, j, 0, AnchoredStart(re));
    }
    forall i: nat, j: nat | i < n && j < n && i != j ensures After(re, Letter(i)) != After(re, Letter(j)) {
      assert 2 * i + 2 in After(re, Letter(i));
    }
  }

  // ---------------------------------------------------------------------
  // A run of pmatch
  // ---------------------------------------------------------------------

  function SampleAt(m: nat, i: nat): nat
    requires 0 < m && i <= m
  {
    Letter(if i < m then i else m - 1)
  }

  /** The first m letters in a row, and the last of them again. */
  function Sample(m: nat): (s: seq<nat>)
    requires m > 0
    ensures |s| == m + 1 && forall i :: 0 <= i <= m ==> s[i] == Letter(if i < m then i else m - 1)
    ensures m <= 26 ==> forall i :: 0 <= i <= m ==> 1 <= s[i] <= 255
  {
    seq(m + 1, i requires 0 <= i <= m => SampleAt(m, i))
  }

  /** The only match is that of the last letter with itself. */
  lemma SampleMatches(n: nat, m: nat, j: nat, l: nat)
    requires 0 < m <= n <= 26 && j + l <= m + 2
    ensures MatchAt(Pairs(n), Sample(m), j, l) <==> j == m - 1 && l == 2
  {
    var s := Sample(m);
    var w := Subject(s);
    PairsMean(n, w, j + 1, j + 1 + l);
    if j == 0 { PairsMean(n, w, 0, 1 + l); }
    if l == 2 {
      assert w[j + 1] == (if j <= m then s[j] else 0) && w[j + 2] == if j < m then s[j + 1] else 0;
    }
  }

  /** An automaton of n words. */
  ghost predicate IsPairs(f: Fa, n: nat) {
    0 < n <= 26 && f.pat == Pairs(n) && f.anchor && Compiled(f.pat, f.re) && PairTable(n, f.re) && f.Shape()
  }

  /** pmatch has been through the first p letters: each has its state, the next ones were not tried. */
  ghost predicate Midway(f: Fa, n: nat, p: nat)
    requires n <= 26
    reads f, f.gototab, f.posns, f.out
  {
    && f.Live() && f.Exact() && !f.reset && f.faults == 0 && f.curstat == p + 2 && f.Set(2) == FirstLetters(n)
    && (forall k :: 3 <= k <= f.curstat ==> f.Set(k) == {2 * (k - 3) + 2})
    && (forall j: nat :: p <= j < n ==> f.gototab[2, Letter(j)] == 0)
  }

  lemma OtherSet(n: nat, p: nat, k: nat, S: set<nat>)
    requires S == {} || S == FirstLetters(n) || (3 <= k <= p + 2 && S == {2 * (k - 3) + 2})
    ensures S != {2 * p + 2}
  {
    assert 2 * p + 2 !in FirstLetters(n);
    assert 2 * p + 2 in {2 * p + 2};
  }

  /** The state behind the next letter is new, and the table is flushed for it when it is full. */
  lemma NextIsNew(f: Fa, n: nat, p: nat)
    requires IsPairs(f, n) && Midway(f, n, p) && p < n
    ensures forall k :: 1 <= k <= f.curstat ==> f.Set(k) != {2 * p + 2}
    ensures Succ(f.re, f.Set(2), Letter(p)) == {2 * p + 2} && f.accept !in f.Set(2) && f.accept == 2 * n + 1
  {
    LetterSteps(n, f.re, p, 0);
    assert f.Set(1) == {};
    forall k | 1 <= k <= f.curstat ensures f.Set(k) != {2 * p + 2} { OtherSet(n, p, k, f.Set(k)); }
    assert 2 * n + 1 !in FirstLetters(n);
  }

  lemma FlushesWhenFull(f: Fa, n: nat, p: nat)
    requires IsPairs(f, n) && Midway(f, n, p) && p < n
    ensures f.Flushes(2, Letter(p)) <==> f.curstat == NSTATES - 1
  {
    NextIsNew(f, n, p);
    var T := Succ(f.re, f.Set(2), Letter(p));
    forall k: nat | 1 <= k <= f.curstat ensures f.posns[k] != ListOf(T, |f.re|) {
      assert f.Set(k) != T;
      if f.posns[k] == ListOf(T, |f.re|) { ListOfIs(f.re, f.Set(2), Letter(p), f.posns[k]); }
    }
  }

  /** makedfa, and how pmatch begins. */
  method FreshFa(n: nat) returns (f: Fa, st: nat)
    requires 0 < n <= 26
    ensures st == 2
    ensures fresh(f) && fresh(f.gototab) && fresh(f.posns) && fresh(f.out) && IsPairs(f, n) && Midway(f, n, 0)
  {
    PairsPlain(n);
    f := new Fa(Pairs(n), true, {});
    st := f.Begin();
    TableIs(n, f.re);
    NoHat(n, f.re);
    assert f.IsState(2) && f.IsState(f.curstat);
    SameList(f.posns[2], f.posns[f.curstat]);
  }

  /** The turn for a letter while there is room: it has a new state, from which the next letter leads to the dead one. */
  method PassLetter(f: Fa, n: nat, m: nat, p: nat) returns (patlen: int)
    requires IsPairs(f, n) && Midway(f, n, p) && p + 1 < m <= n && p + 2 < NSTATES - 1
    modifies f`initstat, f`curstat, f`reset, f`faults, f.gototab, f.posns, f.out
    ensures Midway(f, n, p + 1) && patlen == -1
  {
    var st := NewLetter(f, n, m, p);
    st, patlen := EndLetter(f, n, m, p, st);
    assert st == 1;
    Back(f, n, p + 1);
  }

  method NewLetter(f: Fa, n: nat, m: nat, p: nat) returns (st: nat)
    requires IsPairs(f, n) && Midway(f, n, p) && p + 1 < m <= n && p + 2 < NSTATES - 1
    modifies f`curstat, f`reset, f`faults, f.gototab, f.posns, f.out
    ensures Midway(f, n, p + 1) && st == p + 3 && forall d :: 0 <= d <= 255 ==> f.gototab[st, d] == 0
  {
    NextIsNew(f, n, p);
    FlushesWhenFull(f, n, p);
    ghost var was := f.posns[..];
    assert WithoutNext(was, p) by { assert forall k :: 1 <= k <= f.curstat ==> f.Set(k) == Elems(was[k]); }
    assert f.Byte(Sample(m), p) == Letter(p);
    var patlen;
    st, patlen := f.TakeByte(Sample(m), p, p, 2, -1);
    OneStateMore(f, p, st, was);
    forall j: nat | p + 1 <= j < n ensures f.gototab[2, Letter(j)] == 0 { assert old(f.gototab[2, Letter(j)]) == 0; }
  }

  /** The states of the first p letters, and not that of the next. */
  ghost predicate WithoutNext(was: seq<seq<nat>>, p: nat) {
    && |was| == NSTATES && p + 2 < NSTATES
    && (forall k :: 1 <= k <= p + 2 ==> Elems(was[k]) != {2 * p + 2})
    && (forall k :: 3 <= k <= p + 2 ==> Elems(was[k]) == {2 * (k - 3) + 2})
  }

  lemma OneStateMore(f: Fa, p: nat, st: nat, was: seq<seq<nat>>)
    requires f.Shape() && p + 2 <= f.curstat <= p + 3 < NSTATES && 1 <= st <= f.curstat && f.Set(st) == {2 * p + 2}
    requires WithoutNext(was, p) && forall k :: 1 <= k <= p + 2 ==> f.posns[k] == was[k]
    requires f.curstat > p + 2 ==> st == f.curstat
    ensures st == f.curstat == p + 3 && forall k :: 3 <= k <= f.curstat ==> f.Set(k) == {2 * (k - 3) + 2}
  {
    assert forall k :: 1 <= k <= p + 2 ==> f.Set(k) == Elems(was[k]);
  }

  method EndLetter(f: Fa, n: nat, m: nat, p: nat, st: nat) returns (ns: nat, patlen: int)
    requires IsPairs(f, n) && Midway(f, n, p + 1) && p + 1 < m <= n && st == p + 3 < NSTATES
    requires forall d :: 0 <= d <= 255 ==> f.gototab[st, d] == 0
    modifies f`curstat, f`reset, f`faults, f.gototab, f.posns, f.out
    ensures Midway(f, n, p + 1) && ns == 1 && patlen == -1
  {
    EndsHere(f, n, m, p, st);
    ns, patlen := f.TakeByte(Sample(m), p, p + 1, st, -1);
    forall k | 3 <= k <= f.curstat ensures f.Set(k) == {2 * (k - 3) + 2} {
      assert f.posns[k] == old(f.posns[k]) && old(f.Set(k)) == {2 * (k - 3) + 2};
    }
    forall j: nat | p + 1 <= j < n ensures f.gototab[2, Letter(j)] == 0 { assert old(f.gototab[2, Letter(j)]) == 0; }
  }

  lemma EndsHere(f: Fa, n: nat, m: nat, p: nat, st: nat)
    requires IsPairs(f, n) && Midway(f, n, p + 1) && p + 1 < m <= n && st == p + 3 < NSTATES
    ensures var d := f.Byte(Sample(m), p + 1); Succ(f.re, f.Set(st), d) == {} && !f.Flushes(st, d) && f.accept !in f.Set(st)
  {
    var d := f.Byte(Sample(m), p + 1);
    assert d == Letter(p + 1) && f.Set(st) == {2 * p + 2};
    LetterSteps(n, f.re, p, d);
    f.DeadFits(st, d);
  }

  /** nextin */
  method Back(f: Fa, n: nat, p: nat)
    requires IsPairs(f, n) && Midway(f, n, p)
    modifies f`initstat, f`curstat, f.gototab, f.posns, f.out
    ensures Midway(f, n, p)
  {
    var st := f.NextIn();
    forall k | 3 <= k <= f.curstat ensures f.Set(k) == {2 * (k - 3) + 2} {
      assert f.posns[..][k] == f.posns[k] && old(f.posns[..])[k] == old(f.posns[k]) && old(f.Set(k)) == {2 * (k - 3) + 2};
    }
    forall j: nat | p <= j < n ensures f.gototab[2, Letter(j)] == 0 { assert old(f.gototab[2, Letter(j)]) == 0; }
  }

  /** The table after the letter for which there was no room: its state is in slot 2, and the letter leads from there
      back to it. */
  ghost predicate Spoilt(f: Fa, p: nat)
    requires p < 26
    reads f, f.gototab, f.posns, f.out
  {
    && f.Live() && f.reset && f.curstat == 2 && f.Set(2) == {2 * p + 2}
    && forall d :: 0 <= d < NCHARS ==> f.gototab[2, d] == if d == Letter(p) then 2 else 0
  }

  /** The state in slot 2 leads to itself, but not to its successor set. */
  lemma SpoiltLoops(f: Fa, n: nat, p: nat)
    requires IsPairs(f, n) && p < n && Spoilt(f, p)
    ensures var c := Letter(p);
            && Letter(0) <= c < Letter(n) && f.gototab[2, c] == 2 && f.Set(2) == After(f.re, c) && !f.Exact()
            && |f.re| - 1 !in After(f.re, c) && |f.re| - 1 in Succ(f.re, After(f.re, c), c)
  {
    LetterSteps(n, f.re, p, Letter(p));
    SecondAccepts(n, f.re, p);
  }

  method JamLetter(f: Fa, n: nat, m: nat, p: nat) returns (st: nat, patlen: int)
    requires IsPairs(f, n) && Midway(f, n, p) && p + 1 == m <= n && p + 2 == NSTATES - 1
    modifies f`curstat, f`reset, f`faults, f.gototab, f.posns, f.out
    ensures Spoilt(f, p) && f.faults == 1 && st == 2 && patlen == -1
  {
    NextIsNew(f, n, p);
    FlushesWhenFull(f, n, p);
    LetterSteps(n, f.re, p, Letter(p));
    assert 2 * p + 2 in {2 * p + 2} && 2 * n + 1 !in {2 * p + 2};
    assert f.Byte(Sample(m), p) == Letter(p);
    st, patlen := f.TakeByte(Sample(m), p, p, 2, -1);
  }

  /** The letter again, and then the end: the cached transition is taken, and acceptance is not reached. */
  method AgainAndEnd(f: Fa, n: nat, m: nat, p: nat) returns (patlen: int)
    requires IsPairs(f, n) && p + 1 == m <= n && Spoilt(f, p)
    modifies f`initstat, f`curstat, f`reset, f`faults, f.gototab, f.posns, f.out
    ensures f.Live() && f.Exact() && f.reset && f.curstat == 2 && f.Set(2) == AnchoredStart(f.re) && patlen == -1
  {
    var st;
    st, patlen := Again(f, n, m, p);
    LetterSteps(n, f.re, p, 0);
    f.DeadFits(2, 0);
    st, patlen := f.TakeByte(Sample(m), p, p + 2, st, patlen);
    assert st == 1;
    st := f.NextIn();
  }

  method Again(f: Fa, n: nat, m: nat, p: nat) returns (st: nat, patlen: int)
    requires IsPairs(f, n) && p + 1 == m <= n && Spoilt(f, p)
    modifies f`curstat, f`reset, f`faults, f.gototab, f.posns, f.out
    ensures f.Live() && f.reset && f.curstat == 2 && f.Set(2) == {2 * p + 2} && f.gototab[2, 0] == 0
    ensures st == 2 && patlen == -1
  {
    assert f.Byte(Sample(m), p + 1) == Letter(p);
    st, patlen := f.TakeByte(Sample(m), p, p + 1, 2, -1);
  }

  /** The bytes behind: there is room again, and nothing to be found. */
  method NothingAt(f: Fa, n: nat, m: nat, p: nat) returns (patlen: int)
    requires IsPairs(f, n) && m <= p <= m + 1 && 0 < m <= n
    requires f.Live() && f.Exact() && f.reset && f.curstat == 2 && f.Set(2) == AnchoredStart(f.re)
    modifies f`initstat, f`curstat, f`reset, f`faults, f.gototab, f.posns, f.out
    ensures f.Live() && f.Exact() && f.reset && f.curstat == 2 && f.Set(2) == AnchoredStart(f.re) && patlen == -1
  {
    patlen := f.ScanFrom(Sample(m), p, 2, -1);
    forall l | 0 <= l < m + 3 - p ensures !MatchAt(Pairs(n), Sample(m), p, l) { SampleMatches(n, m, p, l); }
    var st := f.NextIn();
  }

  /** The turns for all letters but the last. */
  method FirstTurns(n: nat, m: nat) returns (f: Fa, patlen: int)
    requires m == NSTATES - 2 && m <= n <= 26
    ensures fresh(f) && fresh(f.gototab) && fresh(f.posns) && fresh(f.out) && IsPairs(f, n) && Midway(f, n, m - 1) && patlen == -1
  {
    var st;
    f, st := FreshFa(n);
    patlen := -1;
    var p := 0;
    while p < m - 1 && patlen < 0
      invariant 0 <= p <= m - 1 && Midway(f, n, p) && patlen == -1
    {
      patlen := PassLetter(f, n, m, p);
      p := p + 1;
    }
  }

  /** The turns for the last letter, for the same letter again, and for the terminator. */
  method LastTurns(f: Fa, n: nat, m: nat) returns (patlen: int)
    requires m == NSTATES - 2 && m <= n <= 26 && IsPairs(f, n) && Midway(f, n, m - 1)
    modifies f`initstat, f`curstat, f`reset, f`faults, f.gototab, f.posns, f.out
    ensures patlen == -1
  {
    var st;
    st, patlen := JamLetter(f, n, m, m - 1);
    patlen := AgainAndEnd(f, n, m, m - 1);
    if patlen < 0 {
      patlen := NothingAt(f, n, m, m);
    }
    if patlen < 0 {
      patlen := NothingAt(f, n, m, m + 1);
    }
  }

  /**
    What pmatch does with a subject abcd...: it goes from the start state to the state behind one letter, from
    there to the dead state, and begins again in slot 2. When all slots are taken, the state behind the next
    letter is put into slot 2 itself, and the table then has that letter lead from this state to itself. The
    word with this letter twice is then not recognized.
  */
  method Spoil(n: nat) returns (f: Fa, c: nat)
    requires NSTATES - 2 <= n <= 26
    ensures f.pat == Pairs(n) && f.Valid() && f.faults == 1 && !f.Exact()
    ensures Letter(0) <= c < Letter(n) && f.gototab[2, c] == 2 && f.Set(2) == After(f.re, c)
    ensures |f.re| - 1 !in After(f.re, c) && |f.re| - 1 in Succ(f.re, After(f.re, c), c)
  {
    var m := NSTATES - 2;
    var patlen;
    f, patlen := FirstTurns(n, m);
    var p := m - 1;
    var st;
    st, patlen := JamLetter(f, n, m, p);
    c := Letter(p);
    SpoiltLoops(f, n, p);
  }

  /** All turns of pmatch for the first fourteen letters and the last of them again: no match is reported, although
      there is one. */
  method Missed(n: nat) returns (f: Fa, s: seq<nat>, found: bool)
    requires NSTATES - 2 <= n <= 26
    ensures f.pat == Pairs(n) && f.anchor && s == Sample(NSTATES - 2)
    ensures !found && MatchAt(f.pat, s, NSTATES - 3, 2)
  {
    var m := NSTATES - 2;
    var patlen;
    s := Sample(m);
    SampleMatches(n, m, m - 1, 2);
    f, patlen := FirstTurns(n, m);
    if patlen < 0 {
      patlen := LastTurns(f, n, m);
    }
    found := patlen >= 0;
  }
}
