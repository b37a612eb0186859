/**
  join: the merge loop of main, which reads each group of equal keys of file 2 again for every
  line of file 1 with that key.

  A file is the sequence of its lines; a file position is the number of lines in front of it.
*/
module Join {
  import opened CStrings
  import opened Sequences

  /** A line, split around its join field. */
  datatype Line = Line(before: seq<Field>, key: Field, after: seq<Field>)

  /** The bits of aflg: print the lines of file 1, of file 2, that stand alone. */
  datatype Flags = Flags(one: bool, two: bool) {
    predicate Any() { one || two }
  }

  /** What `output` prints: a joined line, or with -a a line that stands alone. */
  datatype Out = Pair(a: Line, b: Line) | Only1(a: Line) | Only2(b: Line)

  // ---------------------------------------------------------------------
  // Sorted files
  // ---------------------------------------------------------------------

  predicate AtMost(s: Field, t: Field) { s == t || Less(s, t) }

  ghost predicate Sorted(f: seq<Line>) {
    forall i, j :: 0 <= i < j < |f| ==> AtMost(f[i].key, f[j].key)
  }

  // ---------------------------------------------------------------------
  // What the join of two files is
  // ---------------------------------------------------------------------

  /** The joined lines of a with the first n lines of g. */
  function Matches(a: Line, g: seq<Line>, n: nat): seq<Out>
    requires n <= |g|
  {
    if n == 0 then []
    else if g[n - 1].key == a.key then Matches(a, g, n - 1) + [Pair(a, g[n - 1])]
    else Matches(a, g, n - 1)
  }

  /** Every pair with equal keys of the first n lines of f, in the order of f, then of g. */
  function AllPairs(f: seq<Line>, g: seq<Line>, n: nat): seq<Out>
    requires n <= |f|
  {
    if n == 0 then [] else AllPairs(f, g, n - 1) + Matches(f[n - 1], g, |g|)
  }

  ghost predicate HasPartner(k: Field, g: seq<Line>) {
    exists j :: 0 <= j < |g| && g[j].key == k
  }

  /** The lines without a partner in g among the first n lines of f. */
  ghost function Alone(f: seq<Line>, g: seq<Line>, n: nat): seq<Line>
    requires n <= |f|
  {
    if n == 0 then []
    else if HasPartner(f[n - 1].key, g) then Alone(f, g, n - 1)
    else Alone(f, g, n - 1) + [f[n - 1]]
  }

  function Pairs(out: seq<Out>): seq<Out> {
    if out == [] then []
    else if out[|out| - 1].Pair? then Pairs(out[..|out| - 1]) + [out[|out| - 1]]
    else Pairs(out[..|out| - 1])
  }

  function Lines1(out: seq<Out>): seq<Line> {
    if out == [] then []
    else if out[|out| - 1].Only1? then Lines1(out[..|out| - 1]) + [out[|out| - 1].a]
    else Lines1(out[..|out| - 1])
  }

  function Lines2(out: seq<Out>): seq<Line> {
    if out == [] then []
    else if out[|out| - 1].Only2? then Lines2(out[..|out| - 1]) + [out[|out| - 1].b]
    else Lines2(out[..|out| - 1])
  }

  lemma AppendOut(out: seq<Out>, o: Out)
    ensures Pairs(out + [o]) == if o.Pair? then Pairs(out) + [o] else Pairs(out)
    ensures Lines1(out + [o]) == if o.Only1? then Lines1(out) + [o.a] else Lines1(out)
    ensures Lines2(out + [o]) == if o.Only2? then Lines2(out) + [o.b] else Lines2(out)
  {
    assert (out + [o])[..|out|] == out;
  }

  /** Lines behind a group do not matter. */
  lemma {:induction false} MatchesUpTo(a: Line, g: seq<Line>, t: nat, n: nat)
    requires t <= n <= |g| && forall j :: t <= j < n ==> g[j].key != a.key
    ensures Matches(a, g, n) == Matches(a, g, t)
  {
    if t < n { MatchesUpTo(a, g, t, n - 1); }
  }

  lemma NoMatches(a: Line, g: seq<Line>, n: nat)
    requires n <= |g| && forall j :: 0 <= j < n ==> g[j].key != a.key
    ensures Matches(a, g, n) == []
  {
    MatchesUpTo(a, g, 0, n);
  }

  lemma AppendNone(out: seq<Out>)
    ensures out + [] == out
  {
  }

  /** Lines of f behind the i-th that match nothing do not matter. */
  lemma {:induction false} PairsUpTo(f: seq<Line>, g: seq<Line>, i: nat, n: nat)
    requires i <= n <= |f| && forall x, j :: i <= x < n && 0 <= j < |g| ==> f[x].key != g[j].key
    ensures AllPairs(f, g, n) == AllPairs(f, g, i)
  {
    if i < n {
      NoMatches(f[n - 1], g, |g|);
      AppendNone(AllPairs(f, g, n - 1));
      PairsUpTo(f, g, i, n - 1);
    }
  }

  // ---------------------------------------------------------------------
  // Where the merge stands
  // ---------------------------------------------------------------------

  /** Everything in front of (p, q) is smaller than everything behind in the other file. */
  ghost predicate Split(f: seq<Line>, g: seq<Line>, p: nat, q: nat) {
    && p <= |f| && q <= |g|
    && (forall i, j :: 0 <= i < p && q <= j < |g| ==> Less(f[i].key, g[j].key))
    && (forall i, j :: p <= i < |f| && 0 <= j < q ==> Less(g[j].key, f[i].key))
  }

  lemma LessAtMost(s: Field, t: Field, u: Field)
    ensures Less(s, t) && AtMost(t, u) ==> Less(s, u)
    ensures AtMost(s, t) && Less(t, u) ==> Less(s, u)
  {
    if Less(s, t) && Less(t, u) { LessTrans(s, t, u); }
  }

  /** The line q of g is smaller than everything left of f. */
  lemma StepOver(f: seq<Line>, g: seq<Line>, p: nat, q: nat)
    requires Split(f, g, p, q) && Sorted(f) && q < |g| && (p == |f| || Less(g[q].key, f[p].key))
    ensures Split(f, g, p, q + 1) && !HasPartner(g[q].key, f)
  {
    forall i | p <= i < |f| ensures Less(g[q].key, f[i].key) { LessAtMost(g[q].key, f[p].key, f[i].key); }
    forall i | 0 <= i < |f| ensures f[i].key != g[q].key {
      if i < p { LessNot(f[i].key, g[q].key); } else { LessNot(g[q].key, f[i].key); }
    }
  }

  lemma SplitSwap(f: seq<Line>, g: seq<Line>, p: nat, q: nat)
    ensures Split(f, g, p, q) <==> Split(g, f, q, p)
  {
  }

  /** The group of key k in h begins at s and ends before t. */
  ghost predicate Group(h: seq<Line>, k: Field, s: nat, t: nat) {
    && s < t <= |h|
    && (forall j :: s <= j < t ==> h[j].key == k)
    && (t < |h| ==> Less(k, h[t].key))
  }

  lemma BehindGroup(h: seq<Line>, k: Field, s: nat, t: nat)
    requires Group(h, k, s, t) && Sorted(h)
    ensures forall j :: t <= j < |h| ==> Less(k, h[j].key)
  {
    forall j | t <= j < |h| ensures Less(k, h[j].key) { LessAtMost(k, h[t].key, h[j].key); }
  }

  /** Behind both groups. */
  lemma StepGroups(f: seq<Line>, g: seq<Line>, p: nat, q: nat, p': nat, q': nat, k: Field)
    requires Split(f, g, p, q) && Sorted(f) && Sorted(g) && Group(f, k, p, p') && Group(g, k, q, q')
    ensures Split(f, g, p', q')
  {
    BehindGroup(f, k, p, p');
    BehindGroup(g, k, q, q');
    forall i, j | 0 <= i < p' && q' <= j < |g| ensures Less(f[i].key, g[j].key) {
      if i < p { assert Less(f[i].key, g[j].key); }
    }
    forall i, j | p' <= i < |f| && 0 <= j < q' ensures Less(g[j].key, f[i].key) {
      if j < q { assert Less(g[j].key, f[i].key); }
    }
  }

  lemma {:induction false} AloneSame(f: seq<Line>, g: seq<Line>, p: nat, p': nat)
    requires p <= p' <= |f| && forall i :: p <= i < p' ==> HasPartner(f[i].key, g)
    ensures Alone(f, g, p') == Alone(f, g, p)
  {
    if p < p' { AloneSame(f, g, p, p' - 1); }
  }

  /** Between two turns of the outer loop: everything in front of (p, q) has been dealt with. */
  ghost predicate Stand(f: seq<Line>, g: seq<Line>, aflg: Flags, p: nat, q: nat, out: seq<Out>) {
    && Split(f, g, p, q)
    && Pairs(out) == AllPairs(f, g, p)
    && Lines1(out) == (if aflg.one then Alone(f, g, p) else [])
    && Lines2(out) == (if aflg.two then Alone(g, f, q) else [])
  }

  /** A line of file 2 that is too small. */
  lemma Skip2(f: seq<Line>, g: seq<Line>, aflg: Flags, p: nat, q: nat, out: seq<Out>)
    requires Stand(f, g, aflg, p, q, out) && Sorted(f) && q < |g| && (p == |f| || Cmp(f[p].key, g[q].key) > 0)
    ensures Stand(f, g, aflg, p, q + 1, if aflg.two then out + [Only2(g[q])] else out)
  {
    if p < |f| { CmpOpposite(f[p].key, g[q].key); }
    StepOver(f, g, p, q);
    AppendOut(out, Only2(g[q]));
  }

  /** A line of file 1 that is too small. */
  lemma Skip1(f: seq<Line>, g: seq<Line>, aflg: Flags, p: nat, q: nat, out: seq<Out>)
    requires Stand(f, g, aflg, p, q, out) && Sorted(g) && p < |f| && (q == |g| || Cmp(f[p].key, g[q].key) < 0)
    ensures Stand(f, g, aflg, p + 1, q, if aflg.one then out + [Only1(f[p])] else out)
  {
    SplitSwap(f, g, p, q);
    StepOver(g, f, q, p);
    SplitSwap(f, g, p + 1, q);
    NoMatches(f[p], g, |g|);
    AppendNone(AllPairs(f, g, p));
    AppendOut(out, Only1(f[p]));
  }

  /** Inside a pair of groups: lines p.. of file 1 and q..t of file 2 have key k; line x of file 1 has been
      joined with file 2 up to y. */
  ghost predicate InGroups(f: seq<Line>, g: seq<Line>, k: Field, p: nat, q: nat, x: nat, y: nat, out: seq<Out>, out0: seq<Out>) {
    && p <= x <= |f| && q <= y <= |g| && q < |g|
    && (forall i :: p <= i < x ==> f[i].key == k)
    && (forall j :: q <= j < y ==> g[j].key == k)
    && (y > q ==> x < |f| && f[x].key == k)
    && Pairs(out) == (if x < |f| then AllPairs(f, g, x) + Matches(f[x], g, y) else AllPairs(f, g, x))
    && Lines1(out) == Lines1(out0) && Lines2(out) == Lines2(out0)
  }

  lemma NoneInFront(f: seq<Line>, g: seq<Line>, p: nat, q: nat, x: nat)
    requires Split(f, g, p, q) && p <= x < |f|
    ensures Matches(f[x], g, q) == []
  {
    forall j | 0 <= j < q ensures g[j].key != f[x].key { LessNot(g[j].key, f[x].key); }
    NoMatches(f[x], g, q);
  }

  lemma EnterGroups(f: seq<Line>, g: seq<Line>, aflg: Flags, p: nat, q: nat, out: seq<Out>)
    requires Stand(f, g, aflg, p, q, out) && p < |f| && q < |g|
    ensures InGroups(f, g, f[p].key, p, q, p, q, out, out)
  {
    NoneInFront(f, g, p, q, p);
    AppendNone(AllPairs(f, g, p));
  }

  /** One joined line. */
  lemma JoinOne(f: seq<Line>, g: seq<Line>, k: Field, p: nat, q: nat, x: nat, y: nat, out: seq<Out>, out0: seq<Out>)
    requires InGroups(f, g, k, p, q, x, y, out, out0) && x < |f| && y < |g| && g[y].key == k == f[x].key
    ensures InGroups(f, g, k, p, q, x, y + 1, out + [Pair(f[x], g[y])], out0)
  {
    AppendOut(out, Pair(f[x], g[y]));
  }

  /** The next line of file 1, and back to the beginning of the group. */
  lemma Rewind(f: seq<Line>, g: seq<Line>, k: Field, p: nat, q: nat, x: nat, t: nat, out: seq<Out>, out0: seq<Out>)
    requires InGroups(f, g, k, p, q, x, t, out, out0) && Split(f, g, p, q) && Sorted(g) && Group(g, k, q, t)
    requires x < |f| && f[x].key == k
    ensures InGroups(f, g, k, p, q, x + 1, q, out, out0)
  {
    BehindGroup(g, k, q, t);
    forall j | t <= j < |g| ensures g[j].key != f[x].key { LessNot(k, g[j].key); }
    MatchesUpTo(f[x], g, t, |g|);
    if x + 1 < |f| {
      NoneInFront(f, g, p, q, x + 1);
      AppendNone(AllPairs(f, g, x + 1));
    }
  }

  /** Behind both groups. */
  lemma LeaveGroups(f: seq<Line>, g: seq<Line>, aflg: Flags, k: Field, p: nat, q: nat, x: nat, t: nat, out: seq<Out>, out0: seq<Out>)
    requires Stand(f, g, aflg, p, q, out0) && InGroups(f, g, k, p, q, x, q, out, out0) && Sorted(f) && Sorted(g)
    requires Group(f, k, p, x) && Group(g, k, q, t)
    ensures Stand(f, g, aflg, x, t, out)
  {
    StepGroups(f, g, p, q, x, t, k);
    forall i | p <= i < x ensures HasPartner(f[i].key, g) { assert g[q].key == k; }
    forall j | q <= j < t ensures HasPartner(g[j].key, f) { assert f[p].key == k; }
    AloneSame(f, g, p, x);
    AloneSame(g, f, q, t);
    if x < |f| {
      NoneInFront(f, g, p, q, x);
      AppendNone(AllPairs(f, g, x));
    }
  }

  // ---------------------------------------------------------------------
  // What the loops print, for any two files
  // ---------------------------------------------------------------------

  /** The first line from y on whose key is not that of a. */
  function GroupEnd(a: Line, g: seq<Line>, y: nat): (t: nat)
    requires y <= |g|
    ensures y <= t <= |g| && (forall j :: y <= j < t ==> Cmp(a.key, g[j].key) == 0)
    ensures t < |g| ==> Cmp(a.key, g[t].key) != 0
    decreases |g| - y
  {
    if y < |g| && Cmp(a.key, g[y].key) == 0 then GroupEnd(a, g, y + 1) else y
  }

  /** a joined with lines y.. up to t. */
  function Row(a: Line, g: seq<Line>, y: nat, t: nat): seq<Out>
    requires y <= t <= |g|
    decreases t - y
  {
    if y == t then [] else [Pair(a, g[y])] + Row(a, g, y + 1, t)
  }

  /** The for loop from line x of file 1, with the group of file 2 at q: its output, and the line it stops at. */
  function Others(f: seq<Line>, g: seq<Line>, x: nat, q: nat): (r: (seq<Out>, nat))
    requires x <= |f| && q < |g|
    ensures x <= r.1 <= |f|
    decreases |f| - x
  {
    if x == |f| then ([], x) else
      var e := GroupEnd(f[x], g, q);
      var row := Row(f[x], g, q, e);
      if e == |g| || Cmp(f[x].key, g[e].key) < 0 then
        var r := Others(f, g, x + 1, q);
        (row + r.0, r.1)
      else (row, x)
  }

  /** The outer loop from (p, q) on. */
  function Merged(f: seq<Line>, g: seq<Line>, aflg: Flags, p: nat, q: nat): seq<Out>
    requires p <= |f| && q <= |g|
    decreases |f| - p + |g| - q
  {
    if (p == |f| || q == |g|) && (!aflg.Any() || (p == |f| && q == |g|)) then []
    else if p == |f| || (q < |g| && Cmp(f[p].key, g[q].key) > 0) then
      (if aflg.two then [Only2(g[q])] + Merged(f, g, aflg, p, q + 1) else Merged(f, g, aflg, p, q + 1))
    else if q == |g| || Cmp(f[p].key, g[q].key) < 0 then
      (if aflg.one then [Only1(f[p])] + Merged(f, g, aflg, p + 1, q) else Merged(f, g, aflg, p + 1, q))
    else
      var t := GroupEnd(f[p], g, q);
      var r := Others(f, g, p + 1, q);
      Row(f[p], g, q, t) + r.0 + Merged(f, g, aflg, r.1, t)
  }

  // ---------------------------------------------------------------------
  // What they print for sorted files
  // ---------------------------------------------------------------------

  lemma EndOfGroup(a: Line, g: seq<Line>, q: nat, t: nat)
    requires Sorted(g) && q < |g| && Cmp(a.key, g[q].key) == 0 && t == GroupEnd(a, g, q)
    ensures Group(g, a.key, q, t)
  {
    forall j | q <= j < t ensures g[j].key == a.key { CmpEqual(a.key, g[j].key); }
    if t < |g| {
      CmpEqual(a.key, g[t].key);
      assert AtMost(g[q].key, g[t].key);
    }
  }

  /** A whole row. */
  lemma {:induction false} RowMeans(f: seq<Line>, g: seq<Line>, k: Field, p: nat, q: nat, x: nat, y: nat, t: nat, out: seq<Out>, out0: seq<Out>)
    requires InGroups(f, g, k, p, q, x, y, out, out0) && x < |f| && f[x].key == k && y <= t <= |g|
    requires forall j :: y <= j < t ==> g[j].key == k
    ensures InGroups(f, g, k, p, q, x, t, out + Row(f[x], g, y, t), out0)
    decreases t - y
  {
    if y == t {
      AppendNone(out);
    } else {
      JoinOne(f, g, k, p, q, x, y, out, out0);
      RowMeans(f, g, k, p, q, x, y + 1, t, out + [Pair(f[x], g[y])], out0);
      Assoc(out, [Pair(f[x], g[y])], Row(f[x], g, y + 1, t));
    }
  }

  /** Line x of file 1 behind the first of its group: it belongs to the group, or comes behind it. */
  lemma OtherLine(f: seq<Line>, g: seq<Line>, k: Field, p: nat, q: nat, t: nat, x: nat)
    requires Sorted(f) && Sorted(g) && Group(g, k, q, t) && p < x < |f| && f[p].key == k
    ensures var e := GroupEnd(f[x], g, q);
            if f[x].key == k then e == t && (e == |g| || Cmp(f[x].key, g[e].key) < 0)
            else e == q && !(Cmp(f[x].key, g[q].key) < 0) && Less(k, f[x].key)
  {
    assert AtMost(f[p].key, f[x].key);
    CmpEqual(f[x].key, g[q].key);
    if f[x].key == k {
      EndOfGroup(f[x], g, q, GroupEnd(f[x], g, q));
      SameEnd(g, k, q, t, GroupEnd(f[x], g, q));
    } else {
      LessNot(k, f[x].key);
    }
  }

  lemma SameEnd(g: seq<Line>, k: Field, q: nat, t: nat, e: nat)
    requires Group(g, k, q, t) && Group(g, k, q, e)
    ensures t == e
  {
    if t < e { LessNot(k, g[t].key); }
    if e < t { LessNot(k, g[e].key); }
  }

  /** A line of the group joined, and back to the beginning of the other one. */
  lemma OtherRow(f: seq<Line>, g: seq<Line>, k: Field, p: nat, q: nat, t: nat, x: nat, out: seq<Out>, out0: seq<Out>)
    requires Sorted(g) && Split(f, g, p, q) && Group(g, k, q, t) && x < |f| && f[x].key == k
    requires InGroups(f, g, k, p, q, x, q, out, out0)
    ensures InGroups(f, g, k, p, q, x + 1, q, out + Row(f[x], g, q, t), out0)
  {
    RowMeans(f, g, k, p, q, x, q, t, out, out0);
    Rewind(f, g, k, p, q, x, t, out + Row(f[x], g, q, t), out0);
  }

  /** Where the group ends. */
  lemma OthersEnd(f: seq<Line>, g: seq<Line>, k: Field, p: nat, q: nat, t: nat, x: nat, out: seq<Out>, out0: seq<Out>)
    requires Sorted(f) && Sorted(g) && Group(g, k, q, t) && p < x <= |f| && f[p].key == k && (x < |f| ==> f[x].key != k)
    requires InGroups(f, g, k, p, q, x, q, out, out0)
    ensures Others(f, g, x, q) == ([], x) && out + [] == out && Group(f, k, p, x)
  {
    if x < |f| { OtherLine(f, g, k, p, q, t, x); }
  }

  /** The for loop. */
  lemma {:induction false} OthersMean(f: seq<Line>, g: seq<Line>, k: Field, p: nat, q: nat, t: nat, x: nat, out: seq<Out>, out0: seq<Out>)
    requires Sorted(f) && Sorted(g) && Split(f, g, p, q) && Group(g, k, q, t) && p < x <= |f| && f[p].key == k
    requires InGroups(f, g, k, p, q, x, q, out, out0)
    ensures var r := Others(f, g, x, q); InGroups(f, g, k, p, q, r.1, q, out + r.0, out0) && Group(f, k, p, r.1)
    decreases |f| - x
  {
    if x == |f| || f[x].key != k {
      OthersEnd(f, g, k, p, q, t, x, out, out0);
    } else {
      var row := Row(f[x], g, q, t);
      OtherLine(f, g, k, p, q, t, x);
      OtherRow(f, g, k, p, q, t, x, out, out0);
      OthersMean(f, g, k, p, q, t, x + 1, out + row, out0);
      Assoc(out, row, Others(f, g, x + 1, q).0);
    }
  }

  /** The groups at p and q. */
  lemma GroupsMean(f: seq<Line>, g: seq<Line>, aflg: Flags, p: nat, q: nat, out: seq<Out>)
    requires Sorted(f) && Sorted(g) && Stand(f, g, aflg, p, q, out) && p < |f| && q < |g| && Cmp(f[p].key, g[q].key) == 0
    ensures var t := GroupEnd(f[p], g, q);
            var r := Others(f, g, p + 1, q);
            Stand(f, g, aflg, r.1, t, out + (Row(f[p], g, q, t) + r.0))
  {
    var k, t, r := f[p].key, GroupEnd(f[p], g, q), Others(f, g, p + 1, q);
    var row := Row(f[p], g, q, t);
    EndOfGroup(f[p], g, q, t);
    EnterGroups(f, g, aflg, p, q, out);
    RowMeans(f, g, k, p, q, p, q, t, out, out);
    Rewind(f, g, k, p, q, p, t, out + row, out);
    OthersMean(f, g, k, p, q, t, p + 1, out + row, out);
    LeaveGroups(f, g, aflg, k, p, q, r.1, t, out + row + r.0, out);
    Assoc(out, row, r.0);
  }

  /** At the end of either file nothing is left to join. */
  lemma Finished(f: seq<Line>, g: seq<Line>, aflg: Flags, p: nat, q: nat, out: seq<Out>)
    requires Stand(f, g, aflg, p, q, out) && (p == |f| || q == |g|) && (!aflg.Any() || (p == |f| && q == |g|))
    ensures HoldsAll(f, g, aflg, out)
  {
    NoneLeft(f, g, p, q);
  }

  lemma NoneLeft(f: seq<Line>, g: seq<Line>, p: nat, q: nat)
    requires Split(f, g, p, q) && (p == |f| || q == |g|)
    ensures AllPairs(f, g, |f|) == AllPairs(f, g, p)
  {
    forall x, j | p <= x < |f| && 0 <= j < |g| ensures f[x].key != g[j].key { LessNot(g[j].key, f[x].key); }
    PairsUpTo(f, g, p, |f|);
  }

  /** Each pair with equal keys once and in order, and with -a each line without a partner once and in order. */
  ghost predicate HoldsAll(f: seq<Line>, g: seq<Line>, aflg: Flags, out: seq<Out>) {
    && Pairs(out) == AllPairs(f, g, |f|)
    && Lines1(out) == (if aflg.one then Alone(f, g, |f|) else [])
    && Lines2(out) == (if aflg.two then Alone(g, f, |g|) else [])
  }

  lemma {:induction false} MergedFrom(f: seq<Line>, g: seq<Line>, aflg: Flags, p: nat, q: nat, out: seq<Out>, whole: seq<Out>)
    requires Sorted(f) && Sorted(g) && Stand(f, g, aflg, p, q, out) && whole == out + Merged(f, g, aflg, p, q)
    ensures HoldsAll(f, g, aflg, whole)
    decreases |f| - p + |g| - q
  {
    if (p == |f| || q == |g|) && (!aflg.Any() || (p == |f| && q == |g|)) {
      AppendNone(out);
      Finished(f, g, aflg, p, q, out);
    } else if p == |f| || (q < |g| && Cmp(f[p].key, g[q].key) > 0) {
      Skip2(f, g, aflg, p, q, out);
      Assoc(out, [Only2(g[q])], Merged(f, g, aflg, p, q + 1));
      MergedFrom(f, g, aflg, p, q + 1, if aflg.two then out + [Only2(g[q])] else out, whole);
    } else if q == |g| || Cmp(f[p].key, g[q].key) < 0 {
      Skip1(f, g, aflg, p, q, out);
      Assoc(out, [Only1(f[p])], Merged(f, g, aflg, p + 1, q));
      MergedFrom(f, g, aflg, p + 1, q, if aflg.one then out + [Only1(f[p])] else out, whole);
    } else {
      var t, r := GroupEnd(f[p], g, q), Others(f, g, p + 1, q);
      GroupsMean(f, g, aflg, p, q, out);
      Assoc(out, Row(f[p], g, q, t) + r.0, Merged(f, g, aflg, r.1, t));
      MergedFrom(f, g, aflg, r.1, t, out + (Row(f[p], g, q, t) + r.0), whole);
    }
  }

  // ---------------------------------------------------------------------
  // In which order they print it
  // ---------------------------------------------------------------------

  function KeyOf(o: Out): Field {
    match o
    case Pair(a, _) => a.key
    case Only1(a) => a.key
    case Only2(b) => b.key
  }

  ghost predicate Ascending(out: seq<Out>) {
    forall i, j :: 0 <= i < j < |out| ==> AtMost(KeyOf(out[i]), KeyOf(out[j]))
  }

  ghost predicate NotBelow(k: Field, out: seq<Out>) {
    forall i :: 0 <= i < |out| ==> AtMost(k, KeyOf(out[i]))
  }

  ghost predicate AllWith(k: Field, out: seq<Out>) {
    forall i :: 0 <= i < |out| ==> KeyOf(out[i]) == k
  }

  lemma AtMostTrans(s: Field, t: Field, u: Field)
    requires AtMost(s, t) && AtMost(t, u)
    ensures AtMost(s, u)
  {
    LessAtMost(s, t, u);
  }

  /** A stretch with one key in front of what is not below it. */
  lemma StretchFirst(k: Field, low: Field, a: seq<Out>, b: seq<Out>)
    requires AtMost(low, k) && AllWith(k, a) && NotBelow(k, b) && Ascending(b)
    ensures Ascending(a + b) && NotBelow(low, a + b)
  {
    forall i | 0 <= i < |a + b| ensures AtMost(low, KeyOf((a + b)[i])) {
      if i >= |a| { AtMostTrans(low, k, KeyOf(b[i - |a|])); }
    }
  }

  lemma {:induction false} RowKeys(a: Line, g: seq<Line>, y: nat, t: nat)
    requires y <= t <= |g|
    ensures AllWith(a.key, Row(a, g, y, t))
    decreases t - y
  {
    if y < t { RowKeys(a, g, y + 1, t); }
  }

  /** The for loop prints lines with the key of the group only. */
  lemma {:induction false} OthersKeys(f: seq<Line>, g: seq<Line>, x: nat, q: nat)
    requires x <= |f| && q < |g|
    ensures AllWith(g[q].key, Others(f, g, x, q).0)
    decreases |f| - x
  {
    if x < |f| {
      var e := GroupEnd(f[x], g, q);
      RowKeys(f[x], g, q, e);
      CmpEqual(f[x].key, g[q].key);
      if e == |g| || Cmp(f[x].key, g[e].key) < 0 { OthersKeys(f, g, x + 1, q); }
    }
  }

  /** The next lines of a sorted file are not below k either. */
  ghost predicate Reaches(k: Field, f: seq<Line>, p: nat) {
    p < |f| ==> AtMost(k, f[p].key)
  }

  lemma ReachesOn(k: Field, f: seq<Line>, p: nat, p': nat)
    requires Sorted(f) && p <= p' && p < |f| && AtMost(k, f[p].key)
    ensures Reaches(k, f, p')
  {
    if p < p' < |f| { AtMostTrans(k, f[p].key, f[p'].key); }
  }

  lemma {:induction false} MergedAscends(f: seq<Line>, g: seq<Line>, aflg: Flags, p: nat, q: nat, k: Field)
    requires Sorted(f) && Sorted(g) && p <= |f| && q <= |g| && Reaches(k, f, p) && Reaches(k, g, q)
    ensures Ascending(Merged(f, g, aflg, p, q)) && NotBelow(k, Merged(f, g, aflg, p, q))
    decreases |f| - p + |g| - q
  {
    if (p == |f| || q == |g|) && (!aflg.Any() || (p == |f| && q == |g|)) {
    } else if p == |f| || (q < |g| && Cmp(f[p].key, g[q].key) > 0) {
      var h := g[q].key;
      if p < |f| { CmpOpposite(f[p].key, h); }
      ReachesOn(h, g, q, q + 1);
      MergedAscends(f, g, aflg, p, q + 1, h);
      StretchFirst(h, k, if aflg.two then [Only2(g[q])] else [], Merged(f, g, aflg, p, q + 1));
      AppendFirst(Merged(f, g, aflg, p, q + 1));
    } else if q == |g| || Cmp(f[p].key, g[q].key) < 0 {
      var h := f[p].key;
      ReachesOn(h, f, p, p + 1);
      MergedAscends(f, g, aflg, p + 1, q, h);
      StretchFirst(h, k, if aflg.one then [Only1(f[p])] else [], Merged(f, g, aflg, p + 1, q));
      AppendFirst(Merged(f, g, aflg, p + 1, q));
    } else {
      GroupsAscend(f, g, aflg, p, q, k);
    }
  }

  lemma AppendFirst(out: seq<Out>)
    ensures [] + out == out
  {
  }

  lemma {:induction false} GroupsAscend(f: seq<Line>, g: seq<Line>, aflg: Flags, p: nat, q: nat, k: Field)
    requires Sorted(f) && Sorted(g) && p < |f| && q < |g| && AtMost(k, f[p].key) && Cmp(f[p].key, g[q].key) == 0
    ensures var t, r := GroupEnd(f[p], g, q), Others(f, g, p + 1, q);
            var out := Row(f[p], g, q, t) + r.0 + Merged(f, g, aflg, r.1, t);
            Ascending(out) && NotBelow(k, out)
    decreases |f| - p + |g| - q, 0
  {
    var h, t, r := f[p].key, GroupEnd(f[p], g, q), Others(f, g, p + 1, q);
    CmpEqual(h, g[q].key);
    RowKeys(f[p], g, q, t);
    OthersKeys(f, g, p + 1, q);
    ReachesOn(h, f, p, r.1);
    ReachesOn(h, g, q, t);
    MergedAscends(f, g, aflg, r.1, t, h);
    StretchFirst(h, k, Row(f[p], g, q, t) + r.0, Merged(f, g, aflg, r.1, t));
  }

  /** The join of two files: what it holds, and in the order of the keys. Lines without a partner and pairs never have
      a key in common, so that this says of every line where it is. */
  ghost predicate IsJoin(f: seq<Line>, g: seq<Line>, aflg: Flags, out: seq<Out>) {
    HoldsAll(f, g, aflg, out) && Ascending(out)
  }

  /** The merge of sorted files is their join. */
  lemma MergedIsJoin(f: seq<Line>, g: seq<Line>, aflg: Flags)
    requires Sorted(f) && Sorted(g)
    ensures IsJoin(f, g, aflg, Merged(f, g, aflg, 0, 0))
  {
    MergedFrom(f, g, aflg, 0, 0, [], Merged(f, g, aflg, 0, 0));
    MergedAscends(f, g, aflg, 0, 0, Nul);
  }

  // ---------------------------------------------------------------------
  // The merge
  // ---------------------------------------------------------------------

  class Merge {
    const file1: seq<Line>
    const file2: seq<Line>
    const aflg: Flags
    var pos1: nat
    var pos2: nat
    var l1: Line
    var l2: Line
    var n1: nat
    var n2: nat
    var bot2: nat
    var top2: nat
    var out: seq<Out>

    constructor (file1: seq<Line>, file2: seq<Line>, aflg: Flags)
      ensures this.file1 == file1 && this.file2 == file2 && this.aflg == aflg
      ensures pos1 == pos2 == 0 && out == []
    {
      this.file1, this.file2, this.aflg := file1, file2, aflg;
      pos1, pos2, l1, l2, n1, n2, bot2, top2, out := 0, 0, Line([], Nul, []), Line([], Nul, []), 0, 0, 0, 0, [];
    }

    /** Line p of file 1 is in its buffer, or the file has ended. */
    ghost predicate At1(p: nat)
      reads this`pos1, this`l1, this`n1
    {
      if p < |file1| then n1 > 0 && l1 == file1[p] && pos1 == p + 1 else p == |file1| == pos1 && n1 == 0
    }

    ghost predicate At2(q: nat)
      reads this`pos2, this`l2, this`n2
    {
      if q < |file2| then n2 > 0 && l2 == file2[q] && pos2 == q + 1 else q == |file2| == pos2 && n2 == 0
    }

    method Get1()
      requires pos1 <= |file1|
      modifies this`pos1, this`l1, this`n1
      ensures At1(old(pos1))
    {
      if pos1 == |file1| {
        n1 := 0;
      } else {
        l1 := file1[pos1];
        n1 := |l1.before| + 1 + |l1.after|;
        pos1 := pos1 + 1;
      }
    }

    method Get2()
      requires pos2 <= |file2|
      modifies this`pos2, this`l2, this`n2
      ensures At2(old(pos2))
    {
      if pos2 == |file2| {
        n2 := 0;
      } else {
        l2 := file2[pos2];
        n2 := |l2.before| + 1 + |l2.after|;
        pos2 := pos2 + 1;
      }
    }

    method Output(on1: nat, on2: nat)
      modifies this`out
      ensures out == old(out) + [if on1 > 0 && on2 > 0 then Pair(l1, l2) else if on1 > 0 then Only1(l1) else Only2(l2)]
    {
      out := out + [if on1 > 0 && on2 > 0 then Pair(l1, l2) else if on1 > 0 then Only1(l1) else Only2(l2)];
    }

    /** The merge loop: it ends for any two files, and joins sorted ones. */
    method Run()
      requires pos1 == pos2 == 0 && out == []
      modifies this
      ensures out == Merged(file1, file2, aflg, 0, 0)
      ensures Sorted(file1) && Sorted(file2) ==> IsJoin(file1, file2, aflg, out)
    {
      ghost var p: nat, q: nat := 0, 0;
      Get1();
      bot2 := pos2;
      Get2();
      ghost var goal := Merged(file1, file2, aflg, 0, 0);
      while (n1 > 0 && n2 > 0) || (aflg.Any() && n1 + n2 > 0)
        invariant At1(p) && At2(q) && bot2 == q
        invariant out + Merged(file1, file2, aflg, p, q) == goal
        decreases |file1| - p + |file2| - q
      {
        if (n1 > 0 && n2 > 0 && Cmp(l1.key, l2.key) > 0) || n1 == 0 {
          Small2(p, q);
          q := q + 1;
        } else if (n1 > 0 && n2 > 0 && Cmp(l1.key, l2.key) < 0) || n2 == 0 {
          Small1(p, q);
          p := p + 1;
        } else {
          ghost var r, t := Others(file1, file2, p + 1, q), GroupEnd(l1, file2, q);
          Assoc(out, Row(l1, file2, q, t) + r.0, Merged(file1, file2, aflg, r.1, t));
          p, q := Groups(p, q);
        }
      }
      if Sorted(file1) && Sorted(file2) { MergedIsJoin(file1, file2, aflg); }
    }

    /** A line of file 2 that comes before everything left of file 1. */
    method Small2(ghost p: nat, ghost q: nat)
      requires At1(p) && At2(q) && q < |file2| && (n1 == 0 || Cmp(l1.key, l2.key) > 0) && (n1 > 0 || aflg.Any())
      modifies this`out, this`bot2, this`pos2, this`l2, this`n2
      ensures At2(q + 1) && bot2 == q + 1
      ensures out + Merged(file1, file2, aflg, p, q + 1) == old(out) + Merged(file1, file2, aflg, p, q)
    {
      if aflg.two {
        Assoc(out, [Only2(l2)], Merged(file1, file2, aflg, p, q + 1));
        Output(0, n2);
      }
      bot2 := pos2;
      Get2();
    }

    /** A line of file 1 that comes before everything left of file 2. */
    method Small1(ghost p: nat, ghost q: nat)
      requires At1(p) && At2(q) && p < |file1| && (n2 == 0 || Cmp(l1.key, l2.key) < 0) && (n2 > 0 || aflg.Any())
      modifies this`out, this`pos1, this`l1, this`n1
      ensures At1(p + 1)
      ensures out + Merged(file1, file2, aflg, p + 1, q) == old(out) + Merged(file1, file2, aflg, p, q)
    {
      if aflg.one {
        Assoc(out, [Only1(l1)], Merged(file1, file2, aflg, p + 1, q));
        Output(n1, 0);
      }
      Get1();
    }

    /** Two groups of equal keys: file 2 is read again for each line of file 1. */
    method Groups(ghost p: nat, ghost q: nat) returns (ghost p': nat, ghost q': nat)
      requires At1(p) && At2(q) && bot2 == q && n1 > 0 && n2 > 0 && Cmp(l1.key, l2.key) == 0
      modifies this
      ensures At1(p') && At2(q') && bot2 == q' && p < p' && q < q'
      ensures q' == GroupEnd(file1[p], file2, q) && p' == Others(file1, file2, p + 1, q).1
      ensures out == old(out) + (Row(file1[p], file2, q, q') + Others(file1, file2, p + 1, q).0)
    {
      ghost var out0 := out;
      q' := FirstLine(p, q);
      pos2 := bot2;
      Get2();
      Get1();
      p' := OtherLines(p + 1, q);
      Assoc(out0, Row(file1[p], file2, q, q'), Others(file1, file2, p + 1, q).0);
      pos2 := top2;
      bot2 := top2;
      Get2();
    }

    /** The inner while: the first line of the group of file 1. */
    method FirstLine(ghost p: nat, ghost q: nat) returns (ghost t: nat)
      requires At1(p) && At2(q) && n1 > 0 && n2 > 0 && Cmp(l1.key, l2.key) == 0
      modifies this`out, this`top2, this`pos2, this`l2, this`n2
      ensures At1(p) && top2 == t == GroupEnd(file1[p], file2, q) && q < t
      ensures out == old(out) + Row(file1[p], file2, q, t)
    {
      t := q;
      AppendNone(out);
      while n2 > 0 && Cmp(l1.key, l2.key) == 0
        invariant At1(p) && At2(t) && q <= t
        invariant t == q ==> n2 > 0 && Cmp(l1.key, l2.key) == 0
        invariant t > q ==> top2 == t
        invariant GroupEnd(file1[p], file2, t) == GroupEnd(file1[p], file2, q)
        invariant out == old(out) + Row(file1[p], file2, q, t)
        decreases |file2| - t
      {
        RowNext(old(out), file1[p], file2, q, t);
        Output(n1, n2);
        top2 := pos2;
        Get2();
        t := t + 1;
      }
    }

    /** The for loop: the other lines of the group of file 1. */
    method OtherLines(ghost x0: nat, ghost q: nat) returns (ghost x: nat)
      requires At1(x0) && At2(q) && bot2 == q < |file2|
      modifies this`out, this`pos2, this`l2, this`n2, this`pos1, this`l1, this`n1
      ensures At1(x) && x == Others(file1, file2, x0, q).1 && out == old(out) + Others(file1, file2, x0, q).0
    {
      ghost var y: nat, done := q, out;
      x := x0;
      ghost var goal, last := out + Others(file1, file2, x0, q).0, Others(file1, file2, x0, q).1;
      AppendNone(out);
      while true
        invariant InFor(x, q, y, done, goal, last)
        decreases |file1| - x, |file2| - y
      {
        if n1 > 0 && n2 > 0 && Cmp(l1.key, l2.key) == 0 {
          JoinLine(q, x, y, done, goal, last);
          y := y + 1;
        } else if (n1 > 0 && n2 > 0 && Cmp(l1.key, l2.key) < 0) || n2 == 0 {
          NextLine(x, q, y, done, goal, last);
          x, y, done := x + 1, q, out;
        } else {
          LastLine(x, q, y, done);
          break;
        }
      }
    }

    /** The for loop is at line x of file 1 and y of file 2. */
    ghost predicate InFor(x: nat, q: nat, y: nat, done: seq<Out>, goal: seq<Out>, last: nat)
      reads this
    {
      At1(x) && At2(y) && q <= y && (y > q ==> x < |file1|) && Toward(x, q, done, goal, last) && RowAt(x, q, y, done)
    }

    /** The group of file 1 has ended. */
    lemma LastLine(x: nat, q: nat, y: nat, done: seq<Out>)
      requires At1(x) && At2(y) && q <= y && q < |file2| && (y > q ==> x < |file1|) && RowAt(x, q, y, done)
      requires !(n1 > 0 && n2 > 0 && Cmp(l1.key, l2.key) <= 0) && n2 != 0
      ensures x == Others(file1, file2, x, q).1 && out == done + Others(file1, file2, x, q).0
    {
      AppendNone(done);
    }

    /** output(n1, n2); get2() */
    method JoinLine(ghost q: nat, ghost x: nat, ghost y: nat, ghost done: seq<Out>, ghost goal: seq<Out>, ghost last: nat)
      requires InFor(x, q, y, done, goal, last) && n1 > 0 && n2 > 0 && Cmp(l1.key, l2.key) == 0
      modifies this`out, this`pos2, this`l2, this`n2
      ensures InFor(x, q, y + 1, done, goal, last) && y < |file2|
    {
      RowNext(done, file1[x], file2, q, y);
      Output(n1, n2);
      Get2();
    }

    /** fseek(bot2); get2(); get1(), behind a complete row. */
    method NextLine(ghost x: nat, ghost q: nat, ghost y: nat, ghost done: seq<Out>, ghost goal: seq<Out>, ghost last: nat)
      requires InFor(x, q, y, done, goal, last) && n1 > 0 && bot2 == q < |file2| && (n2 == 0 || Cmp(l1.key, l2.key) < 0)
      modifies this`pos2, this`l2, this`n2, this`pos1, this`l1, this`n1
      ensures InFor(x + 1, q, q, out, goal, last) && x < |file1|
    {
      NextRow(file1, file2, x, q, y, done);
      AppendNone(out);
      pos2 := bot2;
      Get2();
      Get1();
    }

    /** A row is complete, and the next line of file 1 may follow. */
    static lemma NextRow(f: seq<Line>, g: seq<Line>, x: nat, q: nat, y: nat, done: seq<Out>)
      requires x < |f| && q < |g| && q <= y <= |g| && GroupEnd(f[x], g, y) == GroupEnd(f[x], g, q)
      requires y == |g| || Cmp(f[x].key, g[y].key) < 0
      ensures Others(f, g, x, q).1 == Others(f, g, x + 1, q).1
      ensures done + Others(f, g, x, q).0 == (done + Row(f[x], g, q, y)) + Others(f, g, x + 1, q).0
    {
      assert GroupEnd(f[x], g, y) == y;
      Assoc(done, Row(f[x], g, q, y), Others(f, g, x + 1, q).0);
    }

    /** What is still to come from line x on leads to the output `goal`. */
    ghost predicate Toward(x: nat, q: nat, done: seq<Out>, goal: seq<Out>, last: nat) {
      && x <= |file1| && q < |file2|
      && Others(file1, file2, x, q).1 == last && done + Others(file1, file2, x, q).0 == goal
    }

    /** The same for line x of file 1, if there is one. */
    ghost predicate RowAt(x: nat, q: nat, y: nat, done: seq<Out>)
      reads this`out
    {
      if x < |file1| then InRow(file1[x], q, y, done) else out == done
    }

    /** Line a has been joined with lines q.. up to y of its group. */
    ghost predicate InRow(a: Line, q: nat, y: nat, done: seq<Out>)
      reads this`out
    {
      q <= y <= |file2| && GroupEnd(a, file2, y) == GroupEnd(a, file2, q) && out == done + Row(a, file2, q, y)
    }
  }

  lemma {:induction false} RowNext(out: seq<Out>, a: Line, g: seq<Line>, y: nat, t: nat)
    requires y <= t < |g|
    ensures out + Row(a, g, y, t + 1) == (out + Row(a, g, y, t)) + [Pair(a, g[t])]
    decreases t - y
  {
    if y < t { RowNext([Pair(a, g[y])], a, g, y + 1, t); }
  }
}
