/**
  `compile` as a whole, and what it means for the matcher: the code it emits for a pattern
  builds that pattern, and `step` run on the code finds the preferred match of the pattern.
*/
module EdPattern {
  import opened EdCode
  import opened EdClass
  import opened EdMatch
  import opened EdCompile
  import opened Sequences

  // ---------------------------------------------------------------------
  // Patterns are well-formed
  // ---------------------------------------------------------------------

  predicate PieceOk(p: Piece) {
    match p
    case Lit(c) => 1 <= c <= 255
    case Any => true
    case Bracket(_, cs) => BracketText(cs)
  }

  predicate PartOk(q: Part) {
    match q
    case POne(p) => PieceOk(p)
    case PMany(p) => PieceOk(p)
    case PRep(p, lo, hi) => PieceOk(p) && 0 <= lo <= hi <= 255
    case POpen(n) => n < NBRA
    case PClose(n) => n < NBRA
    case PBack(n) => n < NBRA
    case PBackMany(n) => n < NBRA
    case PEol => true
  }

  ghost predicate ShapeOk(s: Shape) {
    && (forall i :: 0 <= i < |s.parts| ==> PartOk(s.parts[i]))
    && s.closed + |s.open| == s.nbra <= NBRA
    && (forall j :: 0 <= j < |s.open| ==> s.open[j] < s.nbra)
  }

  lemma PartOkItem(q: Part, t: Item)
    requires Builds(q, t) && PartOk(q)
    ensures ItemOk(t)
  {
  }

  lemma ShapeItems(s: Shape, items: seq<Item>)
    requires ShapeOk(s) && BuildsAll(s.parts, items)
    ensures ItemsOk(items)
  {
    forall i | 0 <= i < |items| ensures ItemOk(items[i]) {
      assert PartOk(s.parts[i]) && Builds(s.parts[i], items[i]);
      PartOkItem(s.parts[i], items[i]);
    }
  }

  lemma TokenPartOk(s: Shape, t: Token, eof: nat)
    requires ShapeOk(s) && TokenOk(t, eof) && (t.RangeTok? ==> Countable(s)) && Apply(s, t).Next?
    ensures Apply(s, t).s.parts != [] && PartOk(Apply(s, t).s.parts[|Apply(s, t).s.parts| - 1])
  {
    var n := |s.parts| - 1;
    if s.parts != [] { assert PartOk(s.parts[n]); }
    if t.RangeTok? {
      ValueIsNat(t.dm);
      assert Apply(s, t).s.parts == s.parts[..n] + [PRep(s.parts[n].p, Value(t.dm), HiOf(t.dm, t.b))];
    }
  }

  lemma ApplyOk(s: Shape, t: Token, eof: nat)
    requires ShapeOk(s) && TokenOk(t, eof) && (t.RangeTok? ==> Countable(s)) && Apply(s, t).Next?
    ensures ShapeOk(Apply(s, t).s)
  {
    TokenPartOk(s, t, eof);
    var s' := Apply(s, t).s;
    forall i | 0 <= i < |s'.parts| - 1 ensures PartOk(s'.parts[i]) {
      assert PartOk(s.parts[i]);
    }
  }

  /** Only the last token can be an end-of-line anchor. */
  lemma ApplyEol(s: Shape, t: Token)
    requires Apply(s, t).Next? && !EndsInEol(s) && !t.EolTok?
    ensures !EndsInEol(Apply(s, t).s)
  {
  }

  // ---------------------------------------------------------------------
  // The text still to be read
  // ---------------------------------------------------------------------

  lemma FirstChar(t: Token, eof: nat)
    requires Delimiter(eof) && TokenOk(t, eof)
    ensures Render(t)[0] != eof && Render(t)[0] != NEWLINE && (Render(t)[0] == CARET ==> t == Char(CARET, false))
  {
  }

  /** The rest of the text is that of the tokens still to be read. */
  ghost predicate Ahead(instr: seq<nat>, i: nat, toks: seq<Token>, s: Shape, eof: nat, stop: nat) {
    && i <= |instr| && instr[i..] == RenderAll(toks) + [stop]
    && Delimiter(eof) && (stop == eof || stop == NEWLINE) && Readable(toks, s, eof)
  }

  lemma AheadChar(instr: seq<nat>, i: nat, toks: seq<Token>, s: Shape, eof: nat, stop: nat)
    requires Ahead(instr, i, toks, s, eof, stop)
    ensures CharAt(instr, i) == (if toks == [] then stop else Render(toks[0])[0])
    ensures toks != [] ==> CharAt(instr, i) != eof && CharAt(instr, i) != NEWLINE
  {
    assert instr[i] == instr[i..][0];
    if toks != [] { FirstChar(toks[0], eof); }
  }

  lemma Cut(instr: seq<nat>, i: nat, a: seq<nat>, b: seq<nat>)
    requires i <= |instr| && instr[i..] == a + b
    ensures TextAt(instr, i, a) && i + |a| <= |instr| && instr[i + |a|..] == b
  {
    assert instr[i..][..|a|] == a && instr[i..][|a|..] == b;
  }

  lemma AheadText(instr: seq<nat>, i: nat, toks: seq<Token>, stop: nat)
    requires toks != [] && i <= |instr| && instr[i..] == RenderAll(toks) + [stop]
    ensures TextAt(instr, i, Render(toks[0]))
    ensures var i' := i + |Render(toks[0])|; i' <= |instr| && instr[i'..] == RenderAll(toks[1..]) + [stop]
  {
    Assoc(Render(toks[0]), RenderAll(toks[1..]), [stop]);
    Cut(instr, i, Render(toks[0]), RenderAll(toks[1..]) + [stop]);
  }

  lemma AheadNext(instr: seq<nat>, i: nat, toks: seq<Token>, s: Shape, eof: nat, stop: nat)
    requires Ahead(instr, i, toks, s, eof, stop) && toks != [] && Apply(s, toks[0]).Next?
    ensures Ahead(instr, i + |Render(toks[0])|, toks[1..], Apply(s, toks[0]).s, eof, stop)
  {
    AheadText(instr, i, toks, stop);
  }

  lemma AheadToken(instr: seq<nat>, i: nat, toks: seq<Token>, s: Shape, eof: nat, stop: nat)
    requires Ahead(instr, i, toks, s, eof, stop) && toks != []
    ensures TokenAt(instr, i, toks[0], eof)
  {
    AheadText(instr, i, toks, stop);
    var t := toks[0];
    if t.EolTok? {
      assert instr[i + 1..][0] == stop;
    } else if t == Char(DOLLAR, false) {
      assert Apply(s, t).Next?;
      AheadNext(instr, i, toks, s, eof, stop);
      AheadChar(instr, i + 1, toks[1..], Apply(s, t).s, eof, stop);
    }
  }

  // ---------------------------------------------------------------------
  // The loop of compile
  // ---------------------------------------------------------------------

  /** Half-way through a pattern that assembles to goal. */
  ghost predicate OnTrack(instr: seq<nat>, i: nat, em: Emit, toks: seq<Token>, s: Shape, items: seq<Item>,
                          eof: nat, stop: nat, endbuf: nat, goal: Applied) {
    && Ahead(instr, i, toks, s, eof, stop) && Stands(em, s, items) && ShapeOk(s)
    && (toks != [] ==> !EndsInEol(s)) && Assemble(s, toks) == goal
    && |em.code| + Size(toks) + 34 < endbuf
  }

  lemma OnTrackDue(instr: seq<nat>, i: nat, em: Emit, toks: seq<Token>, s: Shape, items: seq<Item>,
                   eof: nat, stop: nat, endbuf: nat, goal: Applied)
    requires OnTrack(instr, i, em, toks, s, items, eof, stop, endbuf, goal) && toks != []
    ensures Due(instr, i, em, endbuf, eof, toks[0], s, items)
    ensures Apply(s, toks[0]).Bad? ==> goal == Apply(s, toks[0]) && goal.err != 0
    ensures CharAt(instr, i) != eof && CharAt(instr, i) != NEWLINE
  {
    AheadToken(instr, i, toks, s, eof, stop);
    AheadChar(instr, i, toks, s, eof, stop);
    ShapeItems(s, items);
  }

  lemma OnTrackNext(instr: seq<nat>, i: nat, em: Emit, toks: seq<Token>, s: Shape, items: seq<Item>,
                    eof: nat, stop: nat, endbuf: nat, goal: Applied, i': nat, em': Emit, items': seq<Item>)
    requires OnTrack(instr, i, em, toks, s, items, eof, stop, endbuf, goal) && toks != [] && Apply(s, toks[0]).Next?
    requires Read(toks[0], i, em, s, 0, i', em', items')
    ensures OnTrack(instr, i', em', toks[1..], Apply(s, toks[0]).s, items', eof, stop, endbuf, goal)
  {
    AheadNext(instr, i, toks, s, eof, stop);
    ShapeNext(instr, i, toks, s, eof, stop);
    OnTrackAll(instr, i', em', toks[1..], Apply(s, toks[0]).s, items', eof, stop, endbuf, goal);
  }

  lemma OnTrackAll(instr: seq<nat>, i: nat, em: Emit, toks: seq<Token>, s: Shape, items: seq<Item>,
                   eof: nat, stop: nat, endbuf: nat, goal: Applied)
    requires Ahead(instr, i, toks, s, eof, stop) && Stands(em, s, items) && ShapeOk(s)
    requires (toks != [] ==> !EndsInEol(s)) && Assemble(s, toks) == goal && |em.code| + Size(toks) + 34 < endbuf
    ensures OnTrack(instr, i, em, toks, s, items, eof, stop, endbuf, goal)
  {
  }

  /** What a token does to the shape. */
  lemma ShapeNext(instr: seq<nat>, i: nat, toks: seq<Token>, s: Shape, eof: nat, stop: nat)
    requires Ahead(instr, i, toks, s, eof, stop) && ShapeOk(s) && toks != [] && Apply(s, toks[0]).Next?
    requires !EndsInEol(s)
    ensures var s' := Apply(s, toks[0]).s;
            && ShapeOk(s') && (toks[1..] != [] ==> !EndsInEol(s')) && Assemble(s, toks) == Assemble(s', toks[1..])
            && Size(toks) == Size(toks[1..]) + if toks[0].BracketTok? then 33 else 2
  {
    ApplyOk(s, toks[0], eof);
    if toks[1..] != [] { ApplyEol(s, toks[0]); }
  }

  /** Where the pattern ends. */
  lemma OnTrackEnd(instr: seq<nat>, i: nat, em: Emit, toks: seq<Token>, s: Shape, items: seq<Item>,
                   eof: nat, stop: nat, endbuf: nat, goal: Applied)
    requires OnTrack(instr, i, em, toks, s, items, eof, stop, endbuf, goal)
    requires CharAt(instr, i) == eof || CharAt(instr, i) == NEWLINE
    ensures toks == [] && CharAt(instr, i) == stop && goal == (if em.bracket != [] then Bad(42) else Next(s))
    ensures ItemsOk(items) && em.code + [CCEOF] == Encode(items)
  {
    AheadChar(instr, i, toks, s, eof, stop);
    ShapeItems(s, items);
    EncodeIsBody(items);
  }

  datatype Compiled = Code(code: seq<nat>, circf: bool, nbra: nat, nodelim: bool) | Same(nodelim: bool) | Error(n: nat)

  /** The compiled pattern is the one that the tokens assemble to. */
  ghost predicate Result(r: Compiled, caret: bool, newline: bool, goal: Applied, items: seq<Item>) {
    match goal
    case Bad(n) => r == Error(n)
    case Next(s) =>
      && BuildsAll(s.parts, items) && ShapeOk(s) && ItemsOk(items)
      && r == Code(Encode(items), caret, s.nbra, newline)
  }

  lemma PatternStart(instr: seq<nat>, caret: bool, toks: seq<Token>, eof: nat, stop: nat, endbuf: nat)
    requires IsPattern(instr, caret, toks, eof, stop) && Size(toks) + 34 < endbuf
    ensures CharAt(instr, 0) != eof && CharAt(instr, 0) != NEWLINE && (CharAt(instr, 0) == CARET <==> caret)
    ensures OnTrack(instr, if caret then 1 else 0, Emit([], -1, 0, 0, []), toks, Start, [], eof, stop, endbuf, Assemble(Start, toks))
  {
    var i := if caret then 1 else 0;
    assert instr[i..] == RenderAll(toks) + [stop];
    AheadChar(instr, i, toks, Start, eof, stop);
    if !caret { FirstChar(toks[0], eof); }
  }

  /** compile: the pattern in instr, up to eof or a newline; ep0 is the first byte of the code of
      the pattern before, endbuf the room for the code. */
  method Compile(instr: seq<nat>, ep0: nat, eof: nat, endbuf: nat, sed: bool, ghost caret: bool, ghost toks: seq<Token>, ghost stop: nat)
    returns (r: Compiled, ghost items: seq<Item>)
    requires forall k :: 0 <= k < |instr| ==> instr[k] <= 255
    ensures CharAt(instr, 0) == eof || CharAt(instr, 0) == NEWLINE ==>
              r == if ep0 == 0 && !sed then Error(41) else Same(CharAt(instr, 0) == NEWLINE)
    ensures r.Code? ==> |r.code| <= endbuf
    ensures IsPattern(instr, caret, toks, eof, stop) && Size(toks) + 34 < endbuf && (stop == NEWLINE ==> !sed) ==>
              Result(r, caret, stop == NEWLINE, Assemble(Start, toks), items)
  {
    ghost var good := IsPattern(instr, caret, toks, eof, stop) && Size(toks) + 34 < endbuf && (stop == NEWLINE ==> !sed);
    ghost var goal := Assemble(Start, toks);
    ghost var rest, s := toks, Start;
    items := [];
    if good { PatternStart(instr, caret, toks, eof, stop, endbuf); }
    var c := CharAt(instr, 0);
    if c == eof || c == NEWLINE {
      return if ep0 == 0 && !sed then Error(41) else Same(c == NEWLINE), items;
    }
    var circf := c == CARET;
    var i, em := if circf then 1 else 0, Emit([], -1, 0, 0, []);
    while true
      invariant Sound(em)
      invariant good ==> OnTrack(instr, i, em, rest, s, items, eof, stop, endbuf, goal)
      decreases if i <= |instr| then |instr| - i else 0, endbuf - |em.code|
    {
      if |em.code| >= endbuf {
        return Error(50), items;
      }
      c := CharAt(instr, i);
      if c == eof || c == NEWLINE {
        if good { OnTrackEnd(instr, i, em, rest, s, items, eof, stop, endbuf, goal); }
        if c != eof && sed {
          return Error(36), items;
        }
        return if em.bracket != [] then Error(42) else Code(em.code + [CCEOF], circf, em.nbra, c != eof), items;
      }
      ghost var t := if rest != [] then rest[0] else DotTok;
      ghost var i0, em0, items0 := i, em, items;
      if good { OnTrackDue(instr, i, em, rest, s, items, eof, stop, endbuf, goal); }
      var err;
      err, i, em, items := OneToken(instr, i, em, endbuf, eof, t, s, items);
      if err != 0 {
        return Error(err), items;
      }
      if good {
        OnTrackNext(instr, i0, em0, rest, s, items0, eof, stop, endbuf, goal, i, em, items);
        s, rest := Apply(s, t).s, rest[1..];
      }
    }
  }

  /** The switch of compile. */
  method OneToken(instr: seq<nat>, i: nat, em: Emit, endbuf: nat, eof: nat, ghost t: Token, ghost s: Shape, ghost items: seq<Item>)
    returns (err: nat, i': nat, em': Emit, ghost items': seq<Item>)
    requires forall k :: 0 <= k < |instr| ==> instr[k] <= 255
    requires Sound(em) && |em.code| < endbuf
    ensures err == 0 ==> i < i' && |em.code| <= |em'.code| && Sound(em') && (i >= |instr| ==> |em'.code| > |em.code|)
    ensures Due(instr, i, em, endbuf, eof, t, s, items) ==> Read(t, i, em, s, err, i', em', items')
  {
    if CharAt(instr, i) == BSLASH {
      err, i', em', items' := Escape(instr, i, em, endbuf, eof, t, s, items);
    } else {
      err, i', em', items' := Unescaped(instr, i, em, endbuf, eof, t, s, items);
    }
  }

  // ---------------------------------------------------------------------
  // Groups
  // ---------------------------------------------------------------------

  /** A part as an operation, without its text. */
  function MarkOf(q: Part): Item {
    match q
    case POpen(n) => Open(n)
    case PClose(n) => Close(n)
    case PBack(n) => Back(n)
    case PBackMany(n) => BackMany(n)
    case _ => Eol
  }

  function Marks(parts: seq<Part>): seq<Item> {
    seq(|parts|, i requires 0 <= i < |parts| => MarkOf(parts[i]))
  }

  predicate IsMark(t: Item) {
    t.Open? || t.Close? || t.Back? || t.BackMany?
  }

  /** Groups and references are the same in both. */
  ghost predicate SameMarks(ms: seq<Item>, items: seq<Item>) {
    |ms| == |items| && forall i :: 0 <= i < |ms| ==> ms[i] == items[i] || (!IsMark(ms[i]) && !IsMark(items[i]))
  }

  lemma SameMarksIn(ms: seq<Item>, items: seq<Item>, t: Item)
    requires SameMarks(ms, items) && IsMark(t)
    ensures t in ms <==> t in items
  {
    if t in ms {
      var i: nat :| i < |ms| && ms[i] == t;
      assert items[i] == t;
    }
    if t in items {
      var i: nat :| i < |ms| && items[i] == t;
      assert ms[i] == t;
    }
  }

  lemma SameMarksAll(ms: seq<Item>, items: seq<Item>)
    requires SameMarks(ms, items)
    ensures forall n :: (Open(n) in ms <==> Open(n) in items) && (Close(n) in ms <==> Close(n) in items)
    ensures forall n :: HasRef(ms, n) <==> HasRef(items, n)
  {
    forall n ensures (Open(n) in ms <==> Open(n) in items) && (Close(n) in ms <==> Close(n) in items) && (HasRef(ms, n) <==> HasRef(items, n)) {
      SameMarksIn(ms, items, Open(n));
      SameMarksIn(ms, items, Close(n));
      SameMarksIn(ms, items, Back(n));
      SameMarksIn(ms, items, BackMany(n));
    }
  }

  lemma {:induction false} SameNested(ms: seq<Item>, items: seq<Item>)
    requires SameMarks(ms, items) && Nested(ms)
    ensures Nested(items)
  {
    if ms != [] {
      assert SameMarks(ms[1..], items[1..]);
      SameMarksAll(ms[1..], items[1..]);
      SameNested(ms[1..], items[1..]);
    }
  }

  lemma MarksOf(parts: seq<Part>, items: seq<Item>)
    requires BuildsAll(parts, items)
    ensures SameMarks(Marks(parts), items)
  {
    forall i | 0 <= i < |items| ensures Marks(parts)[i] == items[i] || (!IsMark(Marks(parts)[i]) && !IsMark(items[i])) {
      assert Builds(parts[i], items[i]);
    }
  }

  /** The operation t may come after ms. */
  ghost predicate Follows(ms: seq<Item>, t: Item) {
    match t
    case Open(n) => Close(n) !in ms && !HasRef(ms, n)
    case Close(n) => Close(n) !in ms && !HasRef(ms, n)
    case Back(n) => Open(n) in ms ==> Close(n) in ms
    case BackMany(n) => Open(n) in ms ==> Close(n) in ms
    case _ => true
  }

  lemma {:induction false} NestedAppend(ms: seq<Item>, t: Item)
    requires Nested(ms) && Follows(ms, t)
    ensures Nested(ms + [t])
  {
    if ms == [] {
      assert (ms + [t])[1..] == [];
    } else {
      assert ms == [ms[0]] + ms[1..];
      assert (ms + [t])[0] == ms[0] && (ms + [t])[1..] == ms[1..] + [t];
      assert Leads(ms[0], ms[1..] + [t]);
      NestedAppend(ms[1..], t);
    }
  }

  lemma {:induction false} NestedFront(ms: seq<Item>)
    requires Nested(ms) && ms != [] && !ms[|ms| - 1].Close?
    ensures Nested(ms[..|ms| - 1])
  {
    var n := |ms| - 1;
    if n > 0 {
      NestedFront(ms[1..]);
      assert ms[..n][1..] == ms[1..][..n - 1] && ms[..n][0] == ms[0];
      assert ms[1..] == ms[1..][..n - 1] + [ms[n]];
      assert Leads(ms[0], ms[1..][..n - 1]);
    }
  }

  /** What the groups of a pattern look like half-way: the open ones are distinct, all others are closed,
      and only closed ones have been referred to. */
  ghost predicate GroupState(ms: seq<Item>, nbra: nat, open: seq<nat>) {
    && Nested(ms)
    && (forall n: nat :: Open(n) in ms <==> n < nbra)
    && (forall n: nat :: Close(n) in ms <==> n < nbra && n !in open)
    && (forall n: nat :: HasRef(ms, n) ==> Close(n) in ms)
    && Distinct(open)
  }

  ghost predicate GroupsOk(s: Shape) {
    GroupState(Marks(s.parts), s.nbra, s.open)
  }

  /** A reference is to a group that is no longer open. */
  predicate RefClosed(s: Shape, t: Token) {
    t.RefTok? && t.d > 0 ==> t.d - 1 !in s.open
  }

  lemma MarksPlus(parts: seq<Part>, q: Part)
    ensures Marks(parts + [q]) == Marks(parts) + [MarkOf(q)]
  {
  }

  lemma MarksLast(parts: seq<Part>)
    requires parts != []
    ensures Marks(parts) == Marks(parts[..|parts| - 1]) + [MarkOf(parts[|parts| - 1])]
  {
    assert parts[..|parts| - 1] + [parts[|parts| - 1]] == parts;
    MarksPlus(parts[..|parts| - 1], parts[|parts| - 1]);
  }

  lemma MarksRepl(s: Shape, q: Part)
    requires s.parts != []
    ensures var front := s.parts[..|s.parts| - 1];
            && Marks(s.parts) == Marks(front) + [MarkOf(s.parts[|s.parts| - 1])]
            && Marks(Repl(s, q).parts) == Marks(front) + [MarkOf(q)]
  {
    MarksLast(s.parts);
    MarksPlus(s.parts[..|s.parts| - 1], q);
  }

  /** What is in a list with one more operation. */
  lemma AppendIn(ms: seq<Item>, t: Item)
    ensures forall n: nat :: (Open(n) in ms + [t] <==> Open(n) in ms || t == Open(n))
    ensures forall n: nat :: (Close(n) in ms + [t] <==> Close(n) in ms || t == Close(n))
    ensures forall n: nat :: HasRef(ms + [t], n) <==> HasRef(ms, n) || RefersTo(t, n)
  {
  }

  lemma StatePlus(ms: seq<Item>, nbra: nat, open: seq<nat>, t: Item)
    requires GroupState(ms, nbra, open) && !t.Open? && !t.Close?
    requires t.Back? || t.BackMany? ==> t.n < nbra && t.n !in open
    ensures GroupState(ms + [t], nbra, open)
  {
    NestedAppend(ms, t);
    AppendIn(ms, t);
  }

  lemma StateOpen(ms: seq<Item>, nbra: nat, open: seq<nat>)
    requires GroupState(ms, nbra, open) && nbra !in open
    ensures GroupState(ms + [Open(nbra)], nbra + 1, open + [nbra])
  {
    NestedAppend(ms, Open(nbra));
    AppendIn(ms, Open(nbra));
    assert forall n: nat :: n in open + [nbra] <==> n in open || n == nbra;
  }

  lemma StateClose(ms: seq<Item>, nbra: nat, front: seq<nat>, n: nat)
    requires GroupState(ms, nbra, front + [n]) && n < nbra
    ensures GroupState(ms + [Close(n)], nbra, front)
  {
    var open := front + [n];
    forall i | 0 <= i < |front| ensures front[i] != n { assert open[i] != open[|front|]; }
    forall i, j | 0 <= i < j < |front| ensures front[i] != front[j] { assert open[i] != open[j]; }
    assert forall m: nat :: m in front + [n] <==> m in front || m == n;
    NestedAppend(ms, Close(n));
    AppendIn(ms, Close(n));
  }

  /** A star behind a reference. */
  lemma StateStar(front: seq<Item>, g: nat, nbra: nat, open: seq<nat>)
    requires GroupState(front + [Back(g)], nbra, open)
    ensures GroupState(front + [BackMany(g)], nbra, open)
  {
    var ms := front + [Back(g)];
    NestedFront(ms);
    assert ms[..|ms| - 1] == front;
    AppendIn(front, Back(g));
    assert HasRef(ms, g);
    NestedAppend(front, BackMany(g));
    AppendIn(front, BackMany(g));
  }

  lemma PlusGroups(s: Shape, q: Part)
    requires GroupsOk(s) && !q.POpen? && !q.PClose? && (q.PBack? || q.PBackMany? ==> q.n < s.nbra && q.n !in s.open)
    ensures GroupsOk(Plus(s, q))
  {
    MarksPlus(s.parts, q);
    StatePlus(Marks(s.parts), s.nbra, s.open, MarkOf(q));
  }

  lemma OpenGroups(s: Shape)
    requires GroupsOk(s) && ShapeOk(s)
    ensures GroupsOk(Plus(s, POpen(s.nbra)).(nbra := s.nbra + 1, open := s.open + [s.nbra]))
  {
    MarksPlus(s.parts, POpen(s.nbra));
    StateOpen(Marks(s.parts), s.nbra, s.open);
  }

  lemma CloseGroups(s: Shape)
    requires GroupsOk(s) && ShapeOk(s) && s.open != []
    ensures var n := s.open[|s.open| - 1];
            GroupsOk(Plus(s, PClose(n)).(open := s.open[..|s.open| - 1], closed := s.closed + 1))
  {
    var n := s.open[|s.open| - 1];
    var front := s.open[..|s.open| - 1];
    assert s.open == front + [n];
    MarksPlus(s.parts, PClose(n));
    StateClose(Marks(s.parts), s.nbra, front, n);
  }

  lemma StarGroups(s: Shape)
    requires GroupsOk(s) && s.parts != [] && s.parts[|s.parts| - 1].PBack?
    ensures GroupsOk(Repl(s, PBackMany(s.parts[|s.parts| - 1].n)))
  {
    var n := |s.parts| - 1;
    var g, front := s.parts[n].n, s.parts[..n];
    MarksRepl(s, PBackMany(g));
    StateStar(Marks(front), g, s.nbra, s.open);
  }

  lemma ReplGroups(s: Shape, q: Part)
    requires GroupsOk(s) && s.parts != [] && MarkOf(s.parts[|s.parts| - 1]) == MarkOf(q)
    ensures GroupsOk(Repl(s, q))
  {
    MarksRepl(s, q);
  }

  lemma ApplyGroups(s: Shape, t: Token)
    requires GroupsOk(s) && ShapeOk(s) && RefClosed(s, t) && Apply(s, t).Next?
    ensures GroupsOk(Apply(s, t).s)
  {
    var s' := Apply(s, t).s;
    match t
    case OpenTok =>
      assert s' == Plus(s, POpen(s.nbra)).(nbra := s.nbra + 1, open := s.open + [s.nbra]);
      OpenGroups(s);
    case CloseTok => CloseGroups(s);
    case RefTok(d) =>
      assert s' == Plus(s, PBack(d - 1));
      PlusGroups(s, PBack(d - 1));
    case RangeTok(dm, b) =>
      var q := PRep(s.parts[|s.parts| - 1].p, Value(dm), HiOf(dm, b));
      assert s' == Repl(s, q);
      ReplGroups(s, q);
    case StarTok => StarTokGroups(s);
    case _ => PlainGroups(s, t);
  }

  lemma PlainGroups(s: Shape, t: Token)
    requires GroupsOk(s) && (t.Char? || t.Newline? || t.DotTok? || t.BracketTok? || t.EolTok?)
    ensures Apply(s, t).Next? && GroupsOk(Apply(s, t).s)
  {
    var q := match t
      case Char(c, _) => POne(Lit(c))
      case Newline => POne(Lit(NEWLINE))
      case DotTok => POne(Any)
      case BracketTok(neg, cs) => POne(Bracket(neg, cs))
      case _ => PEol;
    PlusGroups(s, q);
  }

  lemma StarTokGroups(s: Shape)
    requires GroupsOk(s) && ShapeOk(s)
    ensures Apply(s, StarTok).Next? && GroupsOk(Apply(s, StarTok).s)
  {
    if s.parts == [] || s.parts[|s.parts| - 1].POpen? || s.parts[|s.parts| - 1].PClose? {
      PlusGroups(s, POne(Lit(STARCH)));
    } else {
      var q := s.parts[|s.parts| - 1];
      if q.POne? { ReplGroups(s, PMany(q.p)); }
      if q.PBack? { StarGroups(s); }
    }
  }

  /** No reference is to a group that is still open: `compile` itself only compares the number of
      the group with how many groups have been closed. */
  ghost predicate RefsClosed(s: Shape, toks: seq<Token>)
    decreases |toks|
  {
    toks == [] || (RefClosed(s, toks[0]) && (Apply(s, toks[0]).Next? ==> RefsClosed(Apply(s, toks[0]).s, toks[1..])))
  }

  lemma {:induction false} AssembleGroups(s: Shape, toks: seq<Token>, eof: nat)
    requires GroupsOk(s) && ShapeOk(s) && Readable(toks, s, eof) && RefsClosed(s, toks) && Assemble(s, toks).Next?
    ensures GroupsOk(Assemble(s, toks).s) && Assemble(s, toks).s.open == []
    decreases |toks|
  {
    if toks != [] {
      ApplyOk(s, toks[0], eof);
      ApplyGroups(s, toks[0]);
      AssembleGroups(Apply(s, toks[0]).s, toks[1..], eof);
    }
  }

  /** What compile accepts, the matcher can run: every group is opened before it is closed, and closed
      before it is referred to. */
  lemma CompiledIsBalanced(toks: seq<Token>, eof: nat, items: seq<Item>)
    requires Readable(toks, Start, eof) && RefsClosed(Start, toks)
    requires Assemble(Start, toks).Next? && BuildsAll(Assemble(Start, toks).s.parts, items)
    ensures Balanced(items)
  {
    AssembleGroups(Start, toks, eof);
    var s := Assemble(Start, toks).s;
    var ms := Marks(s.parts);
    MarksOf(s.parts, items);
    SameNested(ms, items);
    SameMarksAll(ms, items);
  }

  // ---------------------------------------------------------------------
  // What a pattern means
  // ---------------------------------------------------------------------

  predicate Accepts(p: Piece, c: nat) {
    match p
    case Lit(d) => c == d
    case Any => true
    case Bracket(neg, cs) => (c in Members(cs, 0)) != neg
  }

  ghost predicate AllAccepted(p: Piece, s: Text, i: nat, k: nat)
    requires i <= k <= |s|
  {
    forall x :: i <= x < k ==> Accepts(p, s[x])
  }

  /** One part of a pattern may take the match from i to k; b and e are the ends of the groups. */
  ghost predicate May(q: Part, s: Text, i: nat, b: seq<nat>, e: seq<nat>, k: nat) {
    && i <= k <= |s|
    && match q
       case POne(p) => k == i + 1 && Accepts(p, s[i])
       case PMany(p) => AllAccepted(p, s, i, k)
       case PRep(p, lo, hi) => 0 <= lo <= hi && lo <= k - i <= (if hi == 255 then lo + 20000 else hi) && AllAccepted(p, s, i, k)
       case POpen(_) => k == i
       case PClose(_) => k == i
       case PBack(n) => s[i..k] == Captured(s, b, e, n)
       case PBackMany(n) => Repeated(Captured(s, b, e, n), s, i, k)
       case PEol => k == i == |s|
  }

  /** In a line of up to 20000 characters a counted part has its lower and its upper bound, where 255 is no bound. */
  lemma CountMeans(p: Piece, lo: int, hi: int, s: Text, i: nat, b: seq<nat>, e: seq<nat>, k: nat)
    requires 0 <= lo <= hi && i <= k <= |s| <= 20000
    ensures May(PRep(p, lo, hi), s, i, b, e, k)
            <==> lo <= k - i && (k - i <= hi || hi == 255) && forall x :: i <= x < k ==> Accepts(p, s[x])
  {
  }

  /** The pattern of a character and a count: m of them with \{m\}, at least m with \{m,\}, and m to n with \{m,n\}; a bound
      of 255 is none. A number above 255 is error 11, and n below m is error 46. */
  lemma CountTexts(c: nat, dm: seq<nat>, b: Bound, s: Text, i: nat, k: nat)
    requires AreDigits(dm) && (b.UpTo? ==> AreDigits(b.dn)) && i <= k <= |s| <= 20000
    ensures var m, n := Value(dm), if b.UpTo? then Value(b.dn) else 0;
            var r := Assemble(Start, [Char(c, false), RangeTok(dm, b)]);
            if m > 255 || n > 255 then r == Bad(11)
            else if b.UpTo? && n < m then r == Bad(46)
            else r.Next? && |r.s.parts| == 1 &&
                 (May(r.s.parts[0], s, i, [], [], k)
                  <==> && (forall x :: i <= x < k ==> s[x] == c) && m <= k - i
                       && (b.Exactly? && m < 255 ==> k - i == m) && (b.UpTo? && n < 255 ==> k - i <= n))
  {
    ValueIsNat(dm);
    if b.UpTo? { ValueIsNat(b.dn); }
    var toks := [Char(c, false), RangeTok(dm, b)];
    var one := Plus(Start, POne(Lit(c)));
    assert Assemble(Start, toks) == Assemble(one, toks[1..]);
    assert toks[1..] == [toks[1]] && toks[1..][1..] == [];
    if CountError(dm, b) == 0 {
      var q := PRep(Lit(c), Value(dm), HiOf(dm, b));
      var two := Repl(one, q);
      assert Apply(one, toks[1]) == Next(two) && two.open == [] && two.parts == [q];
      assert Assemble(one, toks[1..]) == Assemble(two, []);
    }
  }

  /** Groups that are not closed or not open, and a reference to a group that was not closed. */
  lemma GroupErrors(d: nat, s: Shape, toks: seq<Token>)
    requires toks != [] && s.nbra == NBRA && toks[0] == OpenTok
    ensures Assemble(Start, [OpenTok]) == Assemble(Start, [CloseTok]) == Bad(42)
    ensures Assemble(Start, [RefTok(d)]) == Bad(25) && Assemble(s, toks) == Bad(43)
  {
    assert Assemble(Start, [OpenTok]) == Assemble(Apply(Start, OpenTok).s, []);
  }

  /** A way to match: ks[j] is where the match stands after part j. */
  ghost predicate Way(parts: seq<Part>, s: Text, i: nat, b: seq<nat>, e: seq<nat>, ks: seq<nat>)
    decreases |parts|
  {
    |ks| == |parts| &&
    (parts == [] ||
       (May(parts[0], s, i, b, e, ks[0]) &&
        Way(parts[1..], s, ks[0], BrasAfter(MarkOf(parts[0]), i, b), BraeAfter(MarkOf(parts[0]), i, e), ks[1..])))
  }

  /** A way to a starred reference to an empty group, which is repeated for ever. */
  ghost predicate Stuck(parts: seq<Part>, s: Text, i: nat, b: seq<nat>, e: seq<nat>, ks: seq<nat>)
    decreases |parts|
  {
    parts != [] &&
    if ks == [] then parts[0].PBackMany? && Captured(s, b, e, parts[0].n) == []
    else
      && |ks| < |parts| && May(parts[0], s, i, b, e, ks[0])
      && Stuck(parts[1..], s, ks[0], BrasAfter(MarkOf(parts[0]), i, b), BraeAfter(MarkOf(parts[0]), i, e), ks[1..])
  }

  lemma SpellsAccepts(p: Piece, a: Atom, c: nat)
    requires Spells(p, a) && 1 <= c <= 255
    ensures Has(a, c) <==> Accepts(p, c)
  {
  }

  lemma MayIsAllowed(q: Part, t: Item, s: Text, i: nat, b: seq<nat>, e: seq<nat>, k: nat)
    requires Builds(q, t) && IsSubject(s)
    ensures May(q, s, i, b, e, k) <==> Allowed(t, s, i, b, e, k)
  {
    if (q.POne? || q.PMany? || q.PRep?) && i <= k <= |s| {
      forall x | 0 <= x < |s| ensures Has(t.a, s[x]) <==> Accepts(q.p, s[x]) { SpellsAccepts(q.p, t.a, s[x]); }
    }
  }

  lemma {:induction false} WayIsParse(parts: seq<Part>, items: seq<Item>, s: Text, i: nat, b: seq<nat>, e: seq<nat>, ks: seq<nat>)
    requires BuildsAll(parts, items) && IsSubject(s)
    ensures Way(parts, s, i, b, e, ks) <==> Parse(items, s, i, b, e, ks)
    decreases |parts|
  {
    if |ks| == |parts| && parts != [] {
      var q, t := parts[0], items[0];
      assert Builds(q, t);
      MayIsAllowed(q, t, s, i, b, e, ks[0]);
      assert forall j :: 0 <= j < |parts| - 1 ==> Builds(parts[1..][j], items[1..][j]);
      WayIsParse(parts[1..], items[1..], s, ks[0], BrasAfter(t, i, b), BraeAfter(t, i, e), ks[1..]);
    }
  }

  lemma {:induction false} StuckIsSpins(parts: seq<Part>, items: seq<Item>, s: Text, i: nat, b: seq<nat>, e: seq<nat>, ks: seq<nat>)
    requires BuildsAll(parts, items) && IsSubject(s)
    ensures Stuck(parts, s, i, b, e, ks) <==> Spins(items, s, i, b, e, ks)
    decreases |parts|
  {
    if parts != [] {
      var q, t := parts[0], items[0];
      assert Builds(q, t);
      if ks != [] && |ks| < |parts| {
        MayIsAllowed(q, t, s, i, b, e, ks[0]);
        assert forall j :: 0 <= j < |parts| - 1 ==> Builds(parts[1..][j], items[1..][j]);
        StuckIsSpins(parts[1..], items[1..], s, ks[0], BrasAfter(t, i, b), BraeAfter(t, i, e), ks[1..]);
      }
    }
  }

  /** ks is the way to match at p that the others give way to: the earlier a repetition stands
      in the pattern, the more its being longer counts. No endless repetition comes before it. */
  ghost predicate BestWay(parts: seq<Part>, s: Text, p: nat, ks: seq<nat>) {
    && Way(parts, s, p, NoCaptures, NoCaptures, ks)
    && (forall o :: Way(parts, s, p, NoCaptures, NoCaptures, o) ==> Prefers(ks, o))
    && (forall w :: Stuck(parts, s, p, NoCaptures, NoCaptures, w) ==> !Prefers(w, ks))
  }

  ghost predicate NoWayAt(parts: seq<Part>, s: Text, p: nat) {
    && (forall ks :: !Way(parts, s, p, NoCaptures, NoCaptures, ks))
    && (forall w :: !Stuck(parts, s, p, NoCaptures, NoCaptures, w))
  }

  /** At p an endless repetition comes before all ways to match. */
  ghost predicate EndlessAt(parts: seq<Part>, s: Text, p: nat) {
    exists w :: Stuck(parts, s, p, NoCaptures, NoCaptures, w)
                && forall o :: Way(parts, s, p, NoCaptures, NoCaptures, o) ==> Prefers(w, o)
  }

  lemma FailIsNoWay(parts: seq<Part>, items: seq<Item>, s: Text, p: nat)
    requires BuildsAll(parts, items) && IsSubject(s) && ItemsOk(items) && p <= |s| && OutcomeAt(items, s, p).Fail?
    ensures NoWayAt(parts, s, p)
  {
    LoopsExactly(items, s, p, NoCaptures, NoCaptures);
    forall ks ensures !Way(parts, s, p, NoCaptures, NoCaptures, ks) {
      WayIsParse(parts, items, s, p, NoCaptures, NoCaptures, ks);
    }
    forall w ensures !Stuck(parts, s, p, NoCaptures, NoCaptures, w) {
      StuckIsSpins(parts, items, s, p, NoCaptures, NoCaptures, w);
    }
  }

  lemma LoopsIsEndless(parts: seq<Part>, items: seq<Item>, s: Text, p: nat)
    requires BuildsAll(parts, items) && IsSubject(s) && ItemsOk(items) && p <= |s| && OutcomeAt(items, s, p).Loops?
    ensures EndlessAt(parts, s, p)
  {
    LoopsExactly(items, s, p, NoCaptures, NoCaptures);
    var w :| Caught(items, s, p, NoCaptures, NoCaptures, w);
    StuckIsSpins(parts, items, s, p, NoCaptures, NoCaptures, w);
    forall o | Way(parts, s, p, NoCaptures, NoCaptures, o) ensures Prefers(w, o) {
      WayIsParse(parts, items, s, p, NoCaptures, NoCaptures, o);
    }
  }

  lemma EndIsBestWay(parts: seq<Part>, items: seq<Item>, s: Text, p: nat) returns (ks: seq<nat>)
    requires BuildsAll(parts, items) && IsSubject(s) && ItemsOk(items) && p <= |s| && OutcomeAt(items, s, p).End?
    ensures BestWay(parts, s, p, ks) && EndOf(p, ks) == OutcomeAt(items, s, p).at
  {
    TryPrefers(items, s, p, NoCaptures, NoCaptures);
    ks :| Best(items, s, p, NoCaptures, NoCaptures, ks) && EndOf(p, ks) == OutcomeAt(items, s, p).at;
    WayIsParse(parts, items, s, p, NoCaptures, NoCaptures, ks);
    forall o | Way(parts, s, p, NoCaptures, NoCaptures, o) ensures Prefers(ks, o) {
      WayIsParse(parts, items, s, p, NoCaptures, NoCaptures, o);
    }
    forall w | Stuck(parts, s, p, NoCaptures, NoCaptures, w) ensures !Prefers(w, ks) {
      StuckIsSpins(parts, items, s, p, NoCaptures, NoCaptures, w);
    }
  }

  /** The match that is wanted begins at loc1 and ends at loc2: the first start with a way to match,
      and the best way there. */
  ghost predicate IsMatch(parts: seq<Part>, s: Text, caret: bool, loc1: nat, loc2: nat) {
    && loc1 <= |s| && (caret ==> loc1 == 0)
    && (forall p :: 0 <= p < loc1 ==> NoWayAt(parts, s, p))
    && exists ks :: BestWay(parts, s, loc1, ks) && EndOf(loc1, ks) == loc2
  }

  ghost predicate NoMatch(parts: seq<Part>, s: Text, caret: bool) {
    forall p :: 0 <= p <= (if caret then 0 else |s|) ==> NoWayAt(parts, s, p)
  }

  /** At the first start that does not simply fail, the search goes on for ever. */
  ghost predicate IsEndless(parts: seq<Part>, s: Text, caret: bool) {
    exists p :: 0 <= p <= (if caret then 0 else |s|) && EndlessAt(parts, s, p) && forall o :: 0 <= o < p ==> NoWayAt(parts, s, o)
  }

  /** A search has only one right report. */
  lemma OneReport(parts: seq<Part>, s: Text, caret: bool, loc1: nat, at: nat)
    ensures !(NoMatch(parts, s, caret) && IsMatch(parts, s, caret, loc1, at))
    ensures !(IsEndless(parts, s, caret) && (NoMatch(parts, s, caret) || IsMatch(parts, s, caret, loc1, at)))
  {
    if IsMatch(parts, s, caret, loc1, at) {
      assert !NoWayAt(parts, s, loc1);
    }
    if IsEndless(parts, s, caret) {
      var p :| 0 <= p <= (if caret then 0 else |s|) && EndlessAt(parts, s, p) && forall o :: 0 <= o < p ==> NoWayAt(parts, s, o);
      assert !NoWayAt(parts, s, p);
      if IsMatch(parts, s, caret, loc1, at) { NotBoth(parts, s, loc1, at); }
    }
  }

  lemma NotBoth(parts: seq<Part>, s: Text, p: nat, at: nat)
    requires exists ks :: BestWay(parts, s, p, ks) && EndOf(p, ks) == at
    ensures !EndlessAt(parts, s, p)
  {
    var ks :| BestWay(parts, s, p, ks) && EndOf(p, ks) == at;
    forall w | Stuck(parts, s, p, NoCaptures, NoCaptures, w)
      ensures exists o :: Way(parts, s, p, NoCaptures, NoCaptures, o) && !(|w| <= |o| && Prefers(w, o))
    {
      StuckShorter(parts, s, p, NoCaptures, NoCaptures, w);
      assert !Prefers(w, ks);
    }
  }

  lemma {:induction false} StuckShorter(parts: seq<Part>, s: Text, i: nat, b: seq<nat>, e: seq<nat>, w: seq<nat>)
    requires Stuck(parts, s, i, b, e, w)
    ensures |w| < |parts|
  {
  }

  /** An operation like the one that the part is compiled into. */
  function Skeleton(q: Part): Item {
    match q
    case POne(_) => One(Dot)
    case PMany(_) => Many(Dot)
    case PRep(_, lo, _) => Rep(Dot, if lo > 0 then lo else 0, 0)
    case _ => MarkOf(q)
  }

  /** Every starred reference is to a group in which some part takes a character. */
  predicate SteadyParts(parts: seq<Part>, g: Growth) {
    parts == [] || ((parts[0].PBackMany? ==> parts[0].n in g.solid) && SteadyParts(parts[1..], Grow(Skeleton(parts[0]), g)))
  }

  lemma {:induction false} SteadyCompiled(parts: seq<Part>, items: seq<Item>, g: Growth)
    requires BuildsAll(parts, items)
    ensures SteadyParts(parts, g) <==> Steady(items, g)
    decreases |parts|
  {
    if parts != [] {
      assert Builds(parts[0], items[0]);
      assert forall j :: 0 <= j < |parts| - 1 ==> Builds(parts[1..][j], items[1..][j]);
      SteadyCompiled(parts[1..], items[1..], Grow(items[0], g));
    }
  }

  /** Compile a pattern and search for it: errors are reported as the pattern demands, and otherwise the
      search finds the wanted match, or that there is none, or goes on for ever at a starred reference to an
      empty group.  It never does so when every such group takes a character. */
  method Search(m: Matcher, instr: seq<nat>, eof: nat, endbuf: nat, sed: bool, s: Text,
                ghost caret: bool, ghost toks: seq<Token>, ghost stop: nat) returns (c: Compiled, r: Outcome)
    requires m.Valid() && IsSubject(s) && forall k :: 0 <= k < |instr| ==> instr[k] <= 255
    requires IsPattern(instr, caret, toks, eof, stop) && Size(toks) + 34 < endbuf && (stop == NEWLINE ==> !sed)
    requires RefsClosed(Start, toks)
    modifies m, m.braslist, m.braelist
    ensures match Assemble(Start, toks)
            case Bad(n) => c == Error(n)
            case Next(p) =>
              c.Code? && match r
              case Fail => NoMatch(p.parts, s, caret)
              case End(at) => m.loc2 == at && IsMatch(p.parts, s, caret, m.loc1, at)
              case Loops => IsEndless(p.parts, s, caret) && !SteadyParts(p.parts, Growth({}, {}))
  {
    r := Fail;
    ghost var items;
    c, items := Compile(instr, 0, eof, endbuf, sed, caret, toks, stop);
    if c.Code? {
      ghost var parts := Assemble(Start, toks).s.parts;
      CompiledIsBalanced(toks, eof, items);
      r := m.Step(s, c.code, c.circf, items);
      Report(parts, items, s, caret, r, m.loc1);
    }
  }

  /** From the operations to the pattern. */
  lemma Report(parts: seq<Part>, items: seq<Item>, s: Text, caret: bool, r: Outcome, loc1: nat)
    requires BuildsAll(parts, items) && IsSubject(s) && ItemsOk(items)
    requires match r
             case Fail => FailsBefore(items, s, (if caret then 0 else |s|) + 1)
             case End(at) => loc1 <= (if caret then 0 else |s|) && OutcomeAt(items, s, loc1) == r && FailsBefore(items, s, loc1)
             case Loops => exists p :: 0 <= p <= (if caret then 0 else |s|) && OutcomeAt(items, s, p) == Loops && FailsBefore(items, s, p)
    ensures match r
            case Fail => NoMatch(parts, s, caret)
            case End(at) => IsMatch(parts, s, caret, loc1, at)
            case Loops => IsEndless(parts, s, caret) && !SteadyParts(parts, Growth({}, {}))
  {
    match r
    case Fail =>
      forall p | 0 <= p <= (if caret then 0 else |s|) ensures NoWayAt(parts, s, p) { FailIsNoWay(parts, items, s, p); }
    case End(at) =>
      forall p | 0 <= p < loc1 ensures NoWayAt(parts, s, p) { FailIsNoWay(parts, items, s, p); }
      var ks := EndIsBestWay(parts, items, s, loc1);
    case Loops =>
      var p: nat :| p <= (if caret then 0 else |s|) && OutcomeAt(items, s, p) == Loops && FailsBefore(items, s, p);
      forall o | 0 <= o < p ensures NoWayAt(parts, s, o) { FailIsNoWay(parts, items, s, o); }
      LoopsIsEndless(parts, items, s, p);
      SteadyCompiled(parts, items, Growth({}, {}));
      if Steady(items, Growth({}, {})) { SteadyNeverLoops(items, s, p); }
  }
}
