/**
  `compile` of regexp.h: from the text of a pattern to the code that `advance` runs.

  A pattern is a sequence of tokens.  `Render` is how a token is written, `Apply` what it adds
  to the pattern; the method `Compile` reads the text and is proved to emit the code.
*/
module EdCompile {
  import opened EdCode
  import opened EdClass
  import opened EdMatch
  import opened Numbers
  import opened Sequences

  const STARCH: nat := 42
  const COMMA: nat := 44
  const DOTCH: nat := 46
  const ZERO: nat := 48
  const NINE: nat := 57
  const LPAR: nat := 40
  const RPAR: nat := 41
  const LBRACK: nat := 91
  const BSLASH: nat := 92
  const LOWN: nat := 110
  const LBRACE: nat := 123
  const RBRACE: nat := 125
  const DOLLAR: nat := 36

  /** The characters that stand for something in a pattern. */
  lemma Codes()
    ensures STARCH == '*' as int && COMMA == ',' as int && DOTCH == '.' as int && ZERO == '0' as int && NINE == '9' as int
    ensures LPAR == '(' as int && RPAR == ')' as int && LBRACK == '[' as int && BSLASH == '\\' as int && LOWN == 'n' as int
    ensures LBRACE == '{' as int && RBRACE == '}' as int && DOLLAR == '$' as int
    ensures DASH == '-' as int && CARET == '^' as int && RBRACK == ']' as int && NEWLINE == '\n' as int
  {
  }

  // ---------------------------------------------------------------------
  // Patterns
  // ---------------------------------------------------------------------

  /** What one character position of a pattern says. */
  datatype Piece = Lit(c: nat) | Any | Bracket(neg: bool, cs: seq<nat>)

  /** One operation of a pattern; the same shapes as in the compiled code. */
  datatype Part =
    | POne(p: Piece)
    | PMany(p: Piece)
    | PRep(p: Piece, lo: int, hi: int)
    | POpen(n: nat)
    | PClose(n: nat)
    | PBack(n: nat)
    | PBackMany(n: nat)
    | PEol

  /** The atom accepts what the piece says. */
  ghost predicate Spells(p: Piece, a: Atom) {
    match p
    case Lit(c) => a == Chr(c)
    case Any => a == Dot
    case Bracket(neg, cs) => IsBracket(a, neg, cs)
  }

  ghost predicate Builds(q: Part, t: Item) {
    match q
    case POne(p) => t.One? && Spells(p, t.a)
    case PMany(p) => t.Many? && Spells(p, t.a)
    case PRep(p, lo, hi) => t.Rep? && Spells(p, t.a) && t.lo == lo && t.hi == hi
    case POpen(n) => t == Open(n)
    case PClose(n) => t == Close(n)
    case PBack(n) => t == Back(n)
    case PBackMany(n) => t == BackMany(n)
    case PEol => t == Eol
  }

  ghost predicate BuildsAll(parts: seq<Part>, items: seq<Item>) {
    |parts| == |items| && forall i :: 0 <= i < |parts| ==> Builds(parts[i], items[i])
  }

  // ---------------------------------------------------------------------
  // Tokens
  // ---------------------------------------------------------------------

  /** How a repetition count goes on; numbers are given by their digits. */
  datatype Bound = Exactly | AtLeast | UpTo(dn: seq<nat>)

  datatype Token =
    | Char(c: nat, esc: bool)
    | Newline
    | DotTok
    | BracketTok(neg: bool, cs: seq<nat>)
    | StarTok
    | RangeTok(dm: seq<nat>, b: Bound)
    | OpenTok
    | CloseTok
    | RefTok(d: nat)
    | EolTok

  /** The value of a decimal number. */
  function Value(ds: seq<nat>): int {
    if ds == [] then 0 else 10 * Value(ds[..|ds| - 1]) + ds[|ds| - 1] - ZERO
  }

  ghost predicate AreDigits(ds: seq<nat>) {
    ds != [] && forall k :: 0 <= k < |ds| ==> ZERO <= ds[k] <= NINE
  }

  lemma {:induction false} ValueIsNat(ds: seq<nat>)
    requires forall k :: 0 <= k < |ds| ==> ZERO <= ds[k] <= NINE
    ensures Value(ds) >= 0
  {
    if ds != [] { ValueIsNat(ds[..|ds| - 1]); }
  }

  function Pow10(n: nat): nat {
    if n == 0 then 1 else 10 * Pow10(n - 1)
  }

  lemma PowPositive(n: nat)
    ensures Pow10(n) > 0
  {
    if n > 0 { PowPositive(n - 1); }
  }

  /** The digits are the decimal ones of the value, the last one that of the units. */
  lemma {:induction false} ValueMeans(ds: seq<nat>, i: nat)
    requires (forall k :: 0 <= k < |ds| ==> 48 <= ds[k] <= 57) && i < |ds|
    ensures 0 <= Value(ds) < Pow10(|ds|) && Pow10(i) > 0 && ds[|ds| - 1 - i] == 48 + Value(ds) / Pow10(i) % 10
  {
    var n := |ds| - 1;
    PowPositive(i);
    if n == 0 {
      assert Value(ds[..0]) == 0 && Pow10(1) == 10;
    } else {
      ValueMeans(ds[..n], if i > 0 then i - 1 else 0);
      if i > 0 {
        PowPositive(i - 1);
        DropDigit(Value(ds[..n]), ds[n] - 48, Pow10(i - 1));
        assert Value(ds) == 10 * Value(ds[..n]) + (ds[n] - 48);
      }
    }
  }

  lemma DropDigit(v: nat, d: nat, p: nat)
    requires p > 0 && d < 10
    ensures (10 * v + d) / (10 * p) == v / p
  {
    var q, r := v / p, v % p;
    assert v == q * p + r && 0 <= r < p;
    assert q * (10 * p) == 10 * (q * p);
    DivMod(10 * v + d, 10 * p, q);
  }

  function Mid(b: Bound): seq<nat> {
    match b
    case Exactly => []
    case AtLeast => [COMMA]
    case UpTo(dn) => [COMMA] + dn
  }

  function Render(t: Token): (r: seq<nat>)
    ensures r != []
  {
    match t
    case Char(c, esc) => if esc then [BSLASH, c] else [c]
    case Newline => [BSLASH, LOWN]
    case DotTok => [DOTCH]
    case BracketTok(neg, cs) => [LBRACK] + (if neg then [CARET] else []) + cs + [RBRACK]
    case StarTok => [STARCH]
    case RangeTok(dm, b) => [BSLASH, LBRACE] + (dm + Mid(b) + [BSLASH, RBRACE])
    case OpenTok => [BSLASH, LPAR]
    case CloseTok => [BSLASH, RPAR]
    case RefTok(d) => [BSLASH, ZERO + d]
    case EolTok => [DOLLAR]
  }

  function RenderAll(toks: seq<Token>): seq<nat> {
    if toks == [] then [] else Render(toks[0]) + RenderAll(toks[1..])
  }

  /** The pattern so far: its parts, the groups opened, the open ones, how many are closed. */
  datatype Shape = Shape(parts: seq<Part>, nbra: nat, open: seq<nat>, closed: nat)

  datatype Applied = Next(s: Shape) | Bad(err: nat)

  function Plus(s: Shape, q: Part): Shape {
    s.(parts := s.parts + [q])
  }

  function Repl(s: Shape, q: Part): Shape
    requires s.parts != []
  {
    s.(parts := s.parts[..|s.parts| - 1] + [q])
  }

  /** What a token does. */
  function Apply(s: Shape, t: Token): Applied {
    match t
    case Char(c, _) => Next(Plus(s, POne(Lit(c))))
    case Newline => Next(Plus(s, POne(Lit(NEWLINE))))
    case DotTok => Next(Plus(s, POne(Any)))
    case BracketTok(neg, cs) => Next(Plus(s, POne(Bracket(neg, cs))))
    case StarTok =>
      if s.parts == [] then Next(Plus(s, POne(Lit(STARCH)))) else
      (match s.parts[|s.parts| - 1]
       case POne(p) => Next(Repl(s, PMany(p)))
       case PBack(n) => Next(Repl(s, PBackMany(n)))
       case POpen(_) => Next(Plus(s, POne(Lit(STARCH))))
       case PClose(_) => Next(Plus(s, POne(Lit(STARCH))))
       case _ => Next(s))
    case RangeTok(dm, b) =>
      if CountError(dm, b) != 0 then Bad(CountError(dm, b))
      else if !Countable(s) then Bad(0)
      else Next(Repl(s, PRep(s.parts[|s.parts| - 1].p, Value(dm), HiOf(dm, b))))
    case OpenTok =>
      if s.nbra >= NBRA then Bad(43)
      else Next(Plus(s, POpen(s.nbra)).(nbra := s.nbra + 1, open := s.open + [s.nbra]))
    case CloseTok =>
      if s.open == [] then Bad(42)
      else Next(Plus(s, PClose(s.open[|s.open| - 1])).(open := s.open[..|s.open| - 1], closed := s.closed + 1))
    case RefTok(d) => if d == 0 || d - 1 >= s.closed then Bad(25) else Next(Plus(s, PBack(d - 1)))
    case EolTok => Next(Plus(s, PEol))
  }

  function HiOf(dm: seq<nat>, b: Bound): int {
    match b case Exactly => Value(dm) case AtLeast => 255 case UpTo(dn) => Value(dn)
  }

  /** The error of a repetition count; 0 if it is in order. */
  function CountError(dm: seq<nat>, b: Bound): nat {
    if Value(dm) > 255 || (b.UpTo? && Value(b.dn) > 255) then 11
    else if b.UpTo? && Value(b.dn) < Value(dm) then 46 else 0
  }

  /** The last part may be followed by a repetition count. */
  predicate Countable(s: Shape) {
    s.parts != [] && (s.parts[|s.parts| - 1].POne? || s.parts[|s.parts| - 1].PMany?)
  }

  /** The whole pattern, or the first error. */
  function Assemble(s: Shape, toks: seq<Token>): Applied
    decreases |toks|
  {
    if toks == [] then (if s.open != [] then Bad(42) else Next(s))
    else match Apply(s, toks[0])
         case Bad(n) => Bad(n)
         case Next(s') => Assemble(s', toks[1..])
  }

  const Start: Shape := Shape([], 0, [], 0)

  // ---------------------------------------------------------------------
  // Patterns that the text can be read back from
  // ---------------------------------------------------------------------

  predicate Delimiter(eof: nat) {
    eof != DOTCH && eof != STARCH && eof != LBRACK && eof != BSLASH && eof != DOLLAR && eof != CARET && eof != NEWLINE && eof <= 255
  }

  ghost predicate TokenOk(t: Token, eof: nat) {
    match t
    case Char(c, esc) =>
      1 <= c <= 255 && c != NEWLINE &&
      (if esc then c != LPAR && c != RPAR && c != LBRACE && c != LOWN && !(49 <= c <= NINE)
       else c != DOTCH && c != STARCH && c != LBRACK && c != BSLASH && c != eof)
    case BracketTok(neg, cs) => BracketText(cs) && (!neg ==> cs[0] != CARET)
    case RefTok(d) => 1 <= d <= 9
    case RangeTok(dm, b) => AreDigits(dm) && (b.UpTo? ==> AreDigits(b.dn))
    case _ => true
  }

  /** Each token can be read where it stands. */
  ghost predicate Readable(toks: seq<Token>, s: Shape, eof: nat)
    decreases |toks|
  {
    toks == [] ||
    (&& TokenOk(toks[0], eof)
     && (toks[0].EolTok? ==> |toks| == 1) && (toks[0] == Char(DOLLAR, false) ==> |toks| > 1)
     && (toks[0].RangeTok? ==> Countable(s))
     && (Apply(s, toks[0]).Next? ==> Readable(toks[1..], Apply(s, toks[0]).s, eof)))
  }

  /** The text of a pattern; it ends with its delimiter or, but for sed, with a newline. */
  ghost predicate IsPattern(instr: seq<nat>, caret: bool, toks: seq<Token>, eof: nat, stop: nat) {
    && Delimiter(eof) && (stop == eof || stop == NEWLINE)
    && instr == (if caret then [CARET] else []) + (RenderAll(toks) + [stop])
    && (caret || (toks != [] && toks[0] != Char(CARET, false)))
    && Readable(toks, Start, eof)
  }

  /** An upper bound of the code of a token. */
  function Size(toks: seq<Token>): nat {
    if toks == [] then 0 else (if toks[0].BracketTok? then 33 else 2) + Size(toks[1..])
  }

  // ---------------------------------------------------------------------
  // The code so far
  // ---------------------------------------------------------------------

  function Body(items: seq<Item>): seq<nat> {
    if items == [] then [] else EncodeItem(items[0]) + Body(items[1..])
  }

  lemma {:induction false} BodyAppend(items: seq<Item>, t: Item)
    ensures Body(items + [t]) == Body(items) + EncodeItem(t)
  {
    var all := items + [t];
    if items == [] {
      assert all == [t] && all[1..] == [];
      assert Body(all) == EncodeItem(t) + Body(all[1..]);
    } else {
      BodyAppend(items[1..], t);
      assert all[0] == items[0] && all[1..] == items[1..] + [t];
      Assoc(EncodeItem(items[0]), Body(items[1..]), EncodeItem(t));
    }
  }

  lemma {:induction false} EncodeIsBody(items: seq<Item>)
    ensures Encode(items) == Body(items) + [CCEOF]
  {
    if items != [] { EncodeIsBody(items[1..]); }
  }

  /** Where the last operation begins; -1 if there is none. */
  function LastAt(items: seq<Item>): int {
    if items == [] then -1 else |Body(items[..|items| - 1])|
  }

  lemma BodyLast(items: seq<Item>)
    requires items != []
    ensures var n := |items| - 1; Body(items) == Body(items[..n]) + EncodeItem(items[n])
    ensures 0 <= LastAt(items) < |Body(items)| && Body(items)[LastAt(items)] == OpOf(items[|items| - 1])
  {
    var n := |items| - 1;
    assert items[..n] + [items[n]] == items;
    BodyAppend(items[..n], items[n]);
  }

  lemma PatchConcat(a: seq<nat>, x: seq<nat>, op: nat, tail: seq<nat>)
    requires x != []
    ensures (a + x)[|a| := op] + tail == a + (x[0 := op] + tail)
  {
  }

  /** Patching the last operation. */
  lemma BodyPatch(items: seq<Item>, op: nat, tail: seq<nat>, t: Item)
    requires items != [] && EncodeItem(t) == EncodeItem(items[|items| - 1])[0 := op] + tail
    ensures 0 <= LastAt(items) < |Body(items)|
    ensures Body(items)[LastAt(items) := op] + tail == Body(items[..|items| - 1] + [t])
    ensures LastAt(items[..|items| - 1] + [t]) == LastAt(items)
  {
    var n := |items| - 1;
    var front := items[..n];
    BodyLast(items);
    BodyAppend(front, t);
    PatchConcat(Body(front), EncodeItem(items[n]), op, tail);
    assert (front + [t])[..n] == front;
  }

  // ---------------------------------------------------------------------
  // Repetition counts
  // ---------------------------------------------------------------------

  /** The text t stands at i. */
  ghost predicate TextAt(instr: seq<nat>, i: nat, t: seq<nat>) {
    i + |t| <= |instr| && instr[i..i + |t|] == t
  }

  lemma TextAtChars(instr: seq<nat>, i: nat, t: seq<nat>)
    requires TextAt(instr, i, t)
    ensures forall k :: 0 <= k < |t| ==> CharAt(instr, i + k) == t[k]
  {
    forall k | 0 <= k < |t| ensures CharAt(instr, i + k) == t[k] {
      assert instr[i..i + |t|][k] == t[k];
    }
  }

  lemma TextAtSplit(instr: seq<nat>, i: nat, t: seq<nat>, u: seq<nat>)
    requires TextAt(instr, i, t + u)
    ensures TextAt(instr, i, t) && TextAt(instr, i + |t|, u)
  {
    var w := instr[i..i + |t + u|];
    assert w[..|t|] == t && w[|t|..] == u;
    assert instr[i..i + |t|] == w[..|t|] && instr[i + |t|..i + |t| + |u|] == w[|t|..];
  }

  /** A number and the character behind it. */
  ghost predicate NumberAt(instr: seq<nat>, i: nat, ds: seq<nat>, stop: nat) {
    && ds != [] && (stop == BSLASH || stop == COMMA)
    && (forall k :: 0 <= k < |ds| ==> CharAt(instr, i + k) == ds[k] && ZERO <= ds[k] <= NINE)
    && CharAt(instr, i + |ds|) == stop
  }

  /** The loop at nlim: a number up to a backslash or a comma, which is returned in c. */
  method Number(instr: seq<nat>, start: nat, ghost ds: seq<nat>, ghost stop: nat) returns (err: nat, n: int, c: nat, next: nat)
    ensures err == 0 ==> start < next && (c == BSLASH || c == COMMA) && 0 <= n <= 255
    ensures NumberAt(instr, start, ds, stop) ==>
              if Value(ds) > 255 then err == 11
              else err == 0 && n == Value(ds) && c == stop && next == start + |ds| + 1
  {
    ghost var good := NumberAt(instr, start, ds, stop);
    c, next, n := CharAt(instr, start), start + 1, 0;
    while true
      invariant next > start && n >= 0 && c == CharAt(instr, next - 1)
      invariant good ==> next - 1 - start < |ds| && n == Value(ds[..next - 1 - start])
      decreases |instr| - next
    {
      ghost var k := next - 1 - start;
      if good {
        assert c == CharAt(instr, start + k) == ds[k];
        assert ds[..k + 1][..k] == ds[..k];
        assert CharAt(instr, start + (k + 1)) == if k + 1 < |ds| then ds[k + 1] else stop;
      }
      if !(ZERO <= c <= NINE) {
        err := 16;
        return;
      }
      n := 10 * n + (c - ZERO);
      c := CharAt(instr, next);
      next := next + 1;
      if c == BSLASH || c == COMMA {
        if good { assert ds[..|ds|] == ds; }
        break;
      }
    }
    err := if n > 255 then 11 else 0;
  }

  lemma NumberAtDigits(instr: seq<nat>, i: nat, ds: seq<nat>, stop: nat)
    requires AreDigits(ds) && TextAt(instr, i, ds + [stop]) && (stop == BSLASH || stop == COMMA)
    ensures NumberAt(instr, i, ds, stop)
  {
    TextAtChars(instr, i, ds + [stop]);
    forall k | 0 <= k < |ds| ensures CharAt(instr, i + k) == ds[k] {
      assert (ds + [stop])[k] == ds[k];
    }
    assert CharAt(instr, i + |ds|) == (ds + [stop])[|ds|];
  }

  /** The text behind a backslash and an opening brace. */
  ghost predicate RangeAt(instr: seq<nat>, i: nat, dm: seq<nat>, b: Bound) {
    AreDigits(dm) && (b.UpTo? ==> AreDigits(b.dn)) && TextAt(instr, i, dm + Mid(b) + [BSLASH, RBRACE])
  }

  /** What the reader of a count sees. */
  ghost predicate CountAt(instr: seq<nat>, i: nat, dm: seq<nat>, b: Bound) {
    var j := i + |dm| + 1;
    && NumberAt(instr, i, dm, if b.Exactly? then BSLASH else COMMA)
    && match b
       case Exactly => CharAt(instr, j) == RBRACE
       case AtLeast => CharAt(instr, j) == BSLASH && CharAt(instr, j + 1) == RBRACE
       case UpTo(dn) => UpperAt(instr, j, dn)
  }

  /** The second number. */
  ghost predicate UpperAt(instr: seq<nat>, j: nat, dn: seq<nat>) {
    CharAt(instr, j) != BSLASH && NumberAt(instr, j, dn, BSLASH) && CharAt(instr, j + |dn| + 1) == RBRACE
  }

  lemma CharsAt2(instr: seq<nat>, i: nat, a: nat, b: nat)
    requires TextAt(instr, i, [a, b])
    ensures CharAt(instr, i) == a && CharAt(instr, i + 1) == b
  {
    TextAtChars(instr, i, [a, b]);
    assert CharAt(instr, i + 0) == a;
  }

  lemma CharsAt1(instr: seq<nat>, i: nat, a: nat)
    requires TextAt(instr, i, [a])
    ensures CharAt(instr, i) == a
  {
    TextAtChars(instr, i, [a]);
    assert CharAt(instr, i + 0) == a;
  }

  lemma RangeCounts(instr: seq<nat>, i: nat, dm: seq<nat>, b: Bound)
    requires RangeAt(instr, i, dm, b)
    ensures CountAt(instr, i, dm, b)
  {
    match b
    case Exactly => ExactCounts(instr, i, dm);
    case AtLeast => AtLeastCounts(instr, i, dm);
    case UpTo(dn) => UpToCounts(instr, i, dm, dn);
  }

  lemma ExactCounts(instr: seq<nat>, i: nat, d: seq<nat>)
    requires AreDigits(d) && TextAt(instr, i, d + [] + [BSLASH, RBRACE])
    ensures CountAt(instr, i, d, Exactly)
  {
    assert d + [] + [BSLASH, RBRACE] == (d + [BSLASH]) + [RBRACE];
    TextAtSplit(instr, i, d + [BSLASH], [RBRACE]);
    NumberAtDigits(instr, i, d, BSLASH);
    CharsAt1(instr, i + |d| + 1, RBRACE);
  }

  lemma AtLeastCounts(instr: seq<nat>, i: nat, d: seq<nat>)
    requires AreDigits(d) && TextAt(instr, i, d + [COMMA] + [BSLASH, RBRACE])
    ensures CountAt(instr, i, d, AtLeast)
  {
    TextAtSplit(instr, i, d + [COMMA], [BSLASH, RBRACE]);
    NumberAtDigits(instr, i, d, COMMA);
    CharsAt2(instr, i + |d| + 1, BSLASH, RBRACE);
  }

  lemma Regroup(d: seq<nat>, e: seq<nat>)
    ensures d + ([COMMA] + e) + [BSLASH, RBRACE] == (d + [COMMA]) + ((e + [BSLASH]) + [RBRACE])
  {
  }

  lemma UpToText(instr: seq<nat>, i: nat, d: seq<nat>, e: seq<nat>)
    requires TextAt(instr, i, d + ([COMMA] + e) + [BSLASH, RBRACE])
    ensures TextAt(instr, i, d + [COMMA]) && TextAt(instr, i + |d| + 1, e + [BSLASH])
    ensures TextAt(instr, i + |d| + 1 + |e| + 1, [RBRACE])
  {
    Regroup(d, e);
    TextAtSplit(instr, i, d + [COMMA], (e + [BSLASH]) + [RBRACE]);
    TextAtSplit(instr, i + |d| + 1, e + [BSLASH], [RBRACE]);
  }

  lemma UpToCounts(instr: seq<nat>, i: nat, d: seq<nat>, e: seq<nat>)
    requires AreDigits(d) && AreDigits(e)
    requires TextAt(instr, i, d + ([COMMA] + e) + [BSLASH, RBRACE])
    ensures NumberAt(instr, i, d, COMMA) && UpperAt(instr, i + |d| + 1, e)
  {
    UpToText(instr, i, d, e);
    NumberAtDigits(instr, i, d, COMMA);
    UpperCounts(instr, i + |d| + 1, e);
  }

  lemma UpperCounts(instr: seq<nat>, j: nat, e: seq<nat>)
    requires AreDigits(e) && TextAt(instr, j, e + [BSLASH]) && TextAt(instr, j + |e| + 1, [RBRACE])
    ensures UpperAt(instr, j, e)
  {
    NumberAtDigits(instr, j, e, BSLASH);
    CharsAt1(instr, j + |e| + 1, RBRACE);
    assert CharAt(instr, j + 0) == e[0];
  }

  /** The code behind a backslash and an opening brace. */
  method Count(instr: seq<nat>, start: nat, ghost dm: seq<nat>, ghost b: Bound)
    returns (err: nat, lo: nat, hi: nat, next: nat)
    ensures err == 0 ==> start < next && lo <= hi <= 255
    ensures CountAt(instr, start, dm, b) ==>
              err == CountError(dm, b) &&
              (err == 0 ==> lo == Value(dm) && hi == HiOf(dm, b) && next == start + |dm| + |Mid(b)| + 2)
  {
    lo, hi := 0, 0;
    var n, c;
    err, n, c, next := Number(instr, start, dm, if b.Exactly? then BSLASH else COMMA);
    if err != 0 {
      return;
    }
    lo, hi := n, n;
    if c == COMMA {
      c := CharAt(instr, next);
      if c == BSLASH {
        next := next + 1;
        hi := 255;
      } else {
        err, n, c, next := Number(instr, next, if b.UpTo? then b.dn else [], BSLASH);
        if err != 0 {
          return;
        }
        hi := n;
        if c == COMMA {
          err := 44;
          return;
        }
      }
    }
    if CharAt(instr, next) != RBRACE {
      err := 45;
      return;
    }
    next := next + 1;
    if hi < lo {
      err := 46;
    }
  }

  // ---------------------------------------------------------------------
  // The state of compile
  // ---------------------------------------------------------------------

  /** ep, lastep (-1 for a null pointer), nbra, closed and the stack of open groups. */
  datatype Emit = Emit(code: seq<nat>, lastep: int, nbra: nat, closed: nat, bracket: seq<nat>)

  /** The code so far is that of `items`, which build the pattern s. */
  ghost predicate Stands(em: Emit, s: Shape, items: seq<Item>) {
    && BuildsAll(s.parts, items)
    && em.code == Body(items) && em.lastep == LastAt(items)
    && em.nbra == s.nbra && em.closed == s.closed && em.bracket == s.open
  }

  function Put(em: Emit, bytes: seq<nat>): Emit {
    em.(code := em.code + bytes, lastep := |em.code|)
  }

  lemma PutStands(em: Emit, s: Shape, items: seq<Item>, q: Part, t: Item)
    requires Stands(em, s, items) && Builds(q, t)
    ensures Stands(Put(em, EncodeItem(t)), Plus(s, q), items + [t])
  {
    BodyAppend(items, t);
    assert (items + [t])[..|items|] == items;
  }

  /** Patching the last operation replaces the last part. */
  lemma PatchStands(em: Emit, s: Shape, items: seq<Item>, op: nat, tail: seq<nat>, q: Part, t: Item)
    requires Stands(em, s, items) && items != [] && Builds(q, t)
    requires EncodeItem(t) == EncodeItem(items[|items| - 1])[0 := op] + tail
    ensures 0 <= em.lastep < |em.code|
    ensures Stands(em.(code := em.code[em.lastep := op] + tail), Repl(s, q), items[..|items| - 1] + [t])
  {
    BodyPatch(items, op, tail, t);
  }

  /** The token is read at i. */
  ghost predicate TokenAt(instr: seq<nat>, i: nat, t: Token, eof: nat) {
    && Delimiter(eof) && TokenOk(t, eof) && TextAt(instr, i, Render(t))
    && (t.EolTok? ==> CharAt(instr, i + 1) == eof || CharAt(instr, i + 1) == NEWLINE)
    && (t == Char(DOLLAR, false) ==> CharAt(instr, i + 1) != eof && CharAt(instr, i + 1) != NEWLINE)
  }

  /** The token is read, and there is room for its code. */
  ghost predicate Due(instr: seq<nat>, i: nat, em: Emit, endbuf: nat, eof: nat, t: Token, s: Shape, items: seq<Item>) {
    && TokenAt(instr, i, t, eof) && Stands(em, s, items) && ItemsOk(items) && !EndsInEol(s)
    && (t.RangeTok? ==> Countable(s)) && |em.code| + 34 < endbuf
  }

  /** lastep is null or points into the code. */
  predicate Sound(em: Emit) {
    -1 <= em.lastep < |em.code|
  }

  /** What reading one token achieves. */
  ghost predicate Read(t: Token, i: nat, em: Emit, s: Shape, err: nat, i': nat, em': Emit, items': seq<Item>) {
    match Apply(s, t)
    case Bad(n) => err == n
    case Next(s') =>
      err == 0 && i' == i + |Render(t)| && Stands(em', s', items') && |em'.code| <= |em.code| + (if t.BracketTok? then 33 else 2)
  }

  // ---------------------------------------------------------------------
  // The cases of compile
  // ---------------------------------------------------------------------

  /** defchar */
  method DefChar(em: Emit, c: nat, ghost s: Shape, ghost items: seq<Item>) returns (em': Emit, ghost items': seq<Item>)
    ensures em' == Put(em, [CCHR, c])
    ensures Stands(em, s, items) ==> Stands(em', Plus(s, POne(Lit(c))), items')
  {
    items' := items + [One(Chr(c))];
    if Stands(em, s, items) { PutStands(em, s, items, POne(Lit(c)), One(Chr(c))); }
    em' := Put(em, [CCHR, c]);
  }

  lemma StarBits(t: Item)
    requires ItemOk(t)
    ensures t.One? || t.Back? ==> OrBit(OpOf(t), 0) == OpOf(t) + STAR
    ensures t.Many? || t.Rep? || t.BackMany? ==> OrBit(OpOf(t), 0) == OpOf(t)
    ensures t.One? ==> OrBit(OrBit(OpOf(t), 0), 1) == OpOf(t) + RNGE
    ensures t.Many? ==> OrBit(OrBit(OpOf(t), 0), 1) == AtomOp(t.a) + RNGE
  {
    var op := OpOf(t);
    assert OrBit(op, 0) == if op % 2 == 1 then op else op + 1;
    var x := OrBit(op, 0);
    assert OrBit(x, 1) == 2 * OrBit(x / 2, 0) + x % 2;
  }

  predicate EndsInEol(s: Shape) {
    s.parts != [] && s.parts[|s.parts| - 1].PEol?
  }

  lemma LastOp(em: Emit, s: Shape, items: seq<Item>)
    requires Stands(em, s, items)
    ensures items == [] <==> s.parts == []
    ensures items == [] ==> em.lastep == -1
    ensures items != [] ==> 0 <= em.lastep < |em.code| && em.code[em.lastep] == OpOf(items[|items| - 1])
    ensures items != [] ==> Builds(s.parts[|items| - 1], items[|items| - 1])
  {
    if items != [] { BodyLast(items); }
  }

  /** A star behind the last operation. */
  lemma StarStands(em: Emit, s: Shape, items: seq<Item>) returns (items': seq<Item>)
    requires Stands(em, s, items) && ItemsOk(items) && !EndsInEol(s) && items != []
    requires 0 <= em.lastep < |em.code| && em.code[em.lastep] != CBRA && em.code[em.lastep] != CKET
    ensures Stands(em.(code := em.code[em.lastep := OrBit(em.code[em.lastep], 0)]), Apply(s, StarTok).s, items')
  {
    var n := |items| - 1;
    var op := OrBit(em.code[em.lastep], 0);
    LastOp(em, s, items);
    assert ItemOk(items[n]);
    StarBits(items[n]);
    if items[n].One? {
      StarOne(em, s, items, op);
      items' := items[..n] + [Many(items[n].a)];
    } else if items[n].Back? {
      StarBack(em, s, items, op);
      items' := items[..n] + [BackMany(items[n].n)];
    } else {
      assert em.code[em.lastep := op] == em.code;
      items' := items;
    }
  }

  /** The case of a star. */
  method StarCase(em: Emit, ghost s: Shape, ghost items: seq<Item>) returns (em': Emit, ghost items': seq<Item>)
    requires Sound(em)
    ensures |em.code| <= |em'.code| <= |em.code| + 2 && Sound(em')
    ensures Stands(em, s, items) && ItemsOk(items) && !EndsInEol(s) ==>
              Stands(em', Apply(s, StarTok).s, items')
  {
    ghost var good := Stands(em, s, items) && ItemsOk(items) && !EndsInEol(s);
    items' := items;
    if good { LastOp(em, s, items); }
    if em.lastep < 0 || em.code[em.lastep] == CBRA || em.code[em.lastep] == CKET {
      em', items' := DefChar(em, STARCH, s, items);
      if good { LiteralStar(s, items); }
    } else {
      em' := em.(code := em.code[em.lastep := OrBit(em.code[em.lastep], 0)]);
      if good { items' := StarStands(em, s, items); }
    }
  }

  /** At the beginning, and behind the bracket of a group, a star is an ordinary character. */
  lemma LiteralStar(s: Shape, items: seq<Item>)
    requires BuildsAll(s.parts, items) && ItemsOk(items)
    requires items == [] || OpOf(items[|items| - 1]) == CBRA || OpOf(items[|items| - 1]) == CKET
    ensures Apply(s, StarTok) == Next(Plus(s, POne(Lit(STARCH))))
  {
    if items != [] {
      var n := |items| - 1;
      assert ItemOk(items[n]) && Builds(s.parts[n], items[n]);
    }
  }

  lemma StarOne(em: Emit, s: Shape, items: seq<Item>, op: nat)
    requires Stands(em, s, items) && items != [] && items[|items| - 1].One? && op == OpOf(items[|items| - 1]) + STAR
    ensures 0 <= em.lastep < |em.code| && s.parts != [] && s.parts[|s.parts| - 1].POne?
    ensures Stands(em.(code := em.code[em.lastep := op]), Repl(s, PMany(s.parts[|s.parts| - 1].p)),
                   items[..|items| - 1] + [Many(items[|items| - 1].a)])
  {
    var n := |items| - 1;
    assert Builds(s.parts[n], items[n]);
    var t := Many(items[n].a);
    assert EncodeItem(t) == EncodeItem(items[n])[0 := op] + [];
    PatchStands(em, s, items, op, [], PMany(s.parts[n].p), t);
    assert em.code[em.lastep := op] + [] == em.code[em.lastep := op];
  }

  lemma StarBack(em: Emit, s: Shape, items: seq<Item>, op: nat)
    requires Stands(em, s, items) && items != [] && items[|items| - 1].Back? && op == OpOf(items[|items| - 1]) + STAR
    ensures 0 <= em.lastep < |em.code| && s.parts != [] && s.parts[|s.parts| - 1].PBack?
    ensures Stands(em.(code := em.code[em.lastep := op]), Repl(s, PBackMany(s.parts[|s.parts| - 1].n)),
                   items[..|items| - 1] + [BackMany(items[|items| - 1].n)])
  {
    var n := |items| - 1;
    assert Builds(s.parts[n], items[n]);
    var t := BackMany(items[n].n);
    assert EncodeItem(t) == EncodeItem(items[n])[0 := op] + [];
    PatchStands(em, s, items, op, [], PBackMany(s.parts[n].n), t);
    assert em.code[em.lastep := op] + [] == em.code[em.lastep := op];
  }

  /** The case of a backslash and a brace: a repetition count for the last operation. */
  method CountCase(instr: seq<nat>, i: nat, em: Emit, ghost s: Shape, ghost items: seq<Item>, ghost dm: seq<nat>, ghost b: Bound)
    returns (err: nat, i': nat, em': Emit, ghost items': seq<Item>)
    requires 0 <= em.lastep < |em.code|
    ensures err == 0 ==> i < i' && |em'.code| == |em.code| + 2 && 0 <= em'.lastep < |em'.code|
    ensures Stands(em, s, items) && ItemsOk(items) && CountAt(instr, i, dm, b) && Countable(s) ==>
              match Apply(s, RangeTok(dm, b))
              case Bad(n) => err == n
              case Next(s') => err == 0 && i' == i + |dm| + |Mid(b)| + 2 && Stands(em', s', items')
  {
    ghost var good := Stands(em, s, items) && ItemsOk(items) && CountAt(instr, i, dm, b) && Countable(s);
    var lo, hi;
    items' := items;
    err, lo, hi, i' := Count(instr, i, dm, b);
    var op := OrBit(OrBit(em.code[em.lastep], 0), 1);
    em' := em.(code := em.code[em.lastep := op] + [lo, hi]);
    if good && err == 0 {
      CountedOp(items, em, s);
      ghost var t := Counted(em, s, items, op, lo, hi);
      items' := items[..|items| - 1] + [t];
    }
  }

  /** The operation of a counted repetition. */
  lemma CountedOp(items: seq<Item>, em: Emit, s: Shape)
    requires Stands(em, s, items) && ItemsOk(items) && Countable(s)
    ensures 0 <= em.lastep < |em.code|
    ensures var t := items[|items| - 1]; (t.One? || t.Many?) && OrBit(OrBit(em.code[em.lastep], 0), 1) == AtomOp(t.a) + RNGE
  {
    var n := |items| - 1;
    assert ItemOk(items[n]) && Builds(s.parts[n], items[n]);
    BodyLast(items);
    StarBits(items[n]);
  }

  lemma RepCode(t: Item, op: nat, lo: nat, hi: nat)
    requires (t.One? || t.Many?) && op == AtomOp(t.a) + RNGE
    ensures EncodeItem(Rep(t.a, lo, hi)) == EncodeItem(t)[0 := op] + [lo, hi]
  {
    var x := if t.One? then AtomOp(t.a) else AtomOp(t.a) + STAR;
    var w := Operand(t.a);
    assert EncodeItem(t) == [x] + w;
    assert ([x] + w)[0 := op] == [op] + w;
  }

  lemma Counted(em: Emit, s: Shape, items: seq<Item>, op: nat, lo: nat, hi: nat) returns (t: Item)
    requires Stands(em, s, items) && Countable(s) && (items[|items| - 1].One? || items[|items| - 1].Many?)
    requires 0 <= em.lastep < |em.code| && op == AtomOp(items[|items| - 1].a) + RNGE
    ensures Stands(em.(code := em.code[em.lastep := op] + [lo, hi]), Repl(s, PRep(s.parts[|s.parts| - 1].p, lo, hi)),
                   items[..|items| - 1] + [t])
  {
    var n := |items| - 1;
    assert Builds(s.parts[n], items[n]);
    t := Rep(items[n].a, lo, hi);
    RepCode(items[n], op, lo, hi);
    PatchStands(em, s, items, op, [lo, hi], PRep(s.parts[n].p, lo, hi), t);
  }

  /** The case of a bracket. */
  method BracketCase(instr: seq<nat>, i: nat, em: Emit, endbuf: nat, ghost s: Shape, ghost items: seq<Item>, ghost neg: bool, ghost cs: seq<nat>)
    returns (err: nat, i': nat, em': Emit, ghost items': seq<Item>)
    requires forall k :: 0 <= k < |instr| ==> instr[k] <= 255
    requires |em.code| < endbuf
    ensures err == 0 ==> i < i' && |em'.code| > |em.code| && 0 <= em'.lastep < |em'.code|
    ensures Stands(em, s, items) && BracketAt(instr, i, neg, cs) && endbuf - |em.code| > 33 ==>
              && err == 0 && i' == i + (if neg then 1 else 0) + |cs| + 1 && |em'.code| <= |em.code| + 33
              && Stands(em', Plus(s, POne(Bracket(neg, cs))), items')
  {
    items', em', err, i' := items, em, 0, i;
    var r := CompileClass(instr, i, endbuf - |em.code|, neg, cs);
    match r {
      case ClassErr(n) =>
        err := n;
      case ClassOk(a, next) =>
        i' := next;
        em' := Put(em, [a.op] + a.bits);
        assert EncodeItem(One(a)) == [a.op] + a.bits;
        items' := items + [One(a)];
        if Stands(em, s, items) && BracketAt(instr, i, neg, cs) && endbuf - |em.code| > 33 {
          PutStands(em, s, items, POne(Bracket(neg, cs)), One(a));
        }
    }
  }

  /** What the opening of a token says. */
  lemma TokenChars(instr: seq<nat>, i: nat, t: Token, eof: nat)
    requires TokenAt(instr, i, t, eof)
    ensures CharAt(instr, i) == Render(t)[0] && (|Render(t)| > 1 ==> CharAt(instr, i + 1) == Render(t)[1])
  {
    TextAtChars(instr, i, Render(t));
    assert CharAt(instr, i + 0) == Render(t)[0];
  }

  lemma RangeText(instr: seq<nat>, i: nat, t: Token, eof: nat)
    requires TokenAt(instr, i, t, eof) && t.RangeTok?
    ensures CountAt(instr, i + 2, t.dm, t.b)
  {
    TextAtSplit(instr, i, [BSLASH, LBRACE], t.dm + Mid(t.b) + [BSLASH, RBRACE]);
    RangeCounts(instr, i + 2, t.dm, t.b);
  }

  lemma TextBracket(instr: seq<nat>, j: nat, cs: seq<nat>)
    requires TextAt(instr, j, cs + [RBRACK])
    ensures j + |cs| < |instr| && instr[j..j + |cs|] == cs && instr[j + |cs|] == RBRACK
  {
    TextAtSplit(instr, j, cs, [RBRACK]);
    CharsAt1(instr, j + |cs|, RBRACK);
  }

  function Opening(neg: bool): seq<nat> {
    if neg then [LBRACK, CARET] else [LBRACK]
  }

  lemma BracketRender(neg: bool, cs: seq<nat>)
    ensures [LBRACK] + (if neg then [CARET] else []) + cs + [RBRACK] == Opening(neg) + (cs + [RBRACK])
  {
    assert [LBRACK] + (if neg then [CARET] else []) == Opening(neg);
    Assoc(Opening(neg), cs, [RBRACK]);
  }

  lemma BracketStands(instr: seq<nat>, i: nat, j: nat, neg: bool, cs: seq<nat>)
    requires BracketText(cs) && (!neg ==> cs[0] != CARET)
    requires j == (if neg then i + 2 else i + 1) && j + |cs| < |instr|
    requires instr[j..j + |cs|] == cs && instr[j + |cs|] == RBRACK && (neg ==> instr[i + 1] == CARET)
    ensures BracketAt(instr, i + 1, neg, cs)
  {
  }

  lemma BracketParts(instr: seq<nat>, i: nat, neg: bool, cs: seq<nat>)
    requires BracketText(cs) && (!neg ==> cs[0] != CARET)
    requires TextAt(instr, i, Opening(neg)) && TextAt(instr, i + |Opening(neg)|, cs + [RBRACK])
    ensures BracketAt(instr, i + 1, neg, cs)
  {
    var j := i + |Opening(neg)|;
    TextBracket(instr, j, cs);
    if neg { CharsAt2(instr, i, LBRACK, CARET); }
    BracketStands(instr, i, j, neg, cs);
  }

  lemma BracketSeen(instr: seq<nat>, i: nat, t: Token, eof: nat)
    requires TokenAt(instr, i, t, eof) && t.BracketTok?
    ensures BracketAt(instr, i + 1, t.neg, t.cs)
  {
    BracketRender(t.neg, t.cs);
    TextAtSplit(instr, i, Opening(t.neg), t.cs + [RBRACK]);
    BracketParts(instr, i, t.neg, t.cs);
  }

  /** The character behind a backslash tells the token. */
  lemma EscapeToken(instr: seq<nat>, i: nat, t: Token, eof: nat)
    requires TokenAt(instr, i, t, eof) && CharAt(instr, i) == BSLASH
    ensures var c := CharAt(instr, i + 1);
            if c == LPAR then t == OpenTok
            else if c == RPAR then t == CloseTok
            else if c == LBRACE then t.RangeTok?
            else if c == LOWN then t == Newline
            else if 49 <= c <= NINE then t == RefTok(c - ZERO)
            else c != NEWLINE && t == Char(c, true)
  {
    TokenChars(instr, i, t, eof);
  }

  /** Any other character tells the token itself. */
  lemma PlainToken(instr: seq<nat>, i: nat, t: Token, eof: nat)
    requires TokenAt(instr, i, t, eof) && CharAt(instr, i) != BSLASH
    ensures var c := CharAt(instr, i);
            if c == DOTCH then t == DotTok
            else if c == STARCH then t == StarTok
            else if c == LBRACK then t.BracketTok?
            else if c == DOLLAR && (CharAt(instr, i + 1) == eof || CharAt(instr, i + 1) == NEWLINE) then t == EolTok
            else t == Char(c, false)
  {
    TokenChars(instr, i, t, eof);
  }

  /** An opening or closing bracket of a group. */
  method GroupCase(c: nat, em: Emit, ghost t: Token, ghost s: Shape, ghost items: seq<Item>)
    returns (err: nat, em': Emit, ghost items': seq<Item>)
    requires (c == LPAR || c == RPAR) && Sound(em)
    ensures err == 0 ==> |em'.code| == |em.code| + 2 && Sound(em')
    ensures Stands(em, s, items) && t == (if c == LPAR then OpenTok else CloseTok) ==>
              match Apply(s, t) case Bad(n) => err == n && n != 0 case Next(s') => err == 0 && Stands(em', s', items')
  {
    err, em', items' := 0, em, items;
    if c == LPAR {
      if em.nbra >= NBRA {
        err := 43;
        return;
      }
      em' := Put(em, [CBRA, em.nbra]).(nbra := em.nbra + 1, bracket := em.bracket + [em.nbra]);
      items' := items + [Open(em.nbra)];
      if Stands(em, s, items) { PutStands(em, s, items, POpen(em.nbra), Open(em.nbra)); }
    } else {
      if em.bracket == [] {
        err := 42;
        return;
      }
      var n := em.bracket[|em.bracket| - 1];
      em' := Put(em, [CKET, n]).(bracket := em.bracket[..|em.bracket| - 1], closed := em.closed + 1);
      items' := items + [Close(n)];
      if Stands(em, s, items) { PutStands(em, s, items, PClose(n), Close(n)); }
    }
  }

  /** A reference to group c - '1'. */
  method RefCase(c: nat, em: Emit, ghost s: Shape, ghost items: seq<Item>)
    returns (err: nat, em': Emit, ghost items': seq<Item>)
    requires 49 <= c <= NINE && Sound(em)
    ensures err == 0 ==> |em'.code| == |em.code| + 2 && Sound(em')
    ensures Stands(em, s, items) ==>
              match Apply(s, RefTok(c - ZERO)) case Bad(n) => err == n && n != 0 case Next(s') => err == 0 && Stands(em', s', items')
  {
    err, em', items' := 0, em, items;
    var n := c - 49;
    if n >= em.closed {
      err := 25;
      return;
    }
    em' := Put(em, [CBACK, n]);
    items' := items + [Back(n)];
    if Stands(em, s, items) { PutStands(em, s, items, PBack(n), Back(n)); }
  }

  /** A repetition count, when there is an operation to count; i is where its backslash stands. */
  method RangeCase(instr: seq<nat>, i: nat, em: Emit, endbuf: nat, ghost eof: nat, ghost t: Token, ghost s: Shape, ghost items: seq<Item>)
    returns (err: nat, i': nat, em': Emit, ghost items': seq<Item>)
    requires 0 <= em.lastep < |em.code|
    ensures err == 0 ==> i < i' && |em.code| <= |em'.code| && Sound(em')
    ensures Due(instr, i, em, endbuf, eof, t, s, items) && t.RangeTok? ==> Read(t, i, em, s, err, i', em', items')
  {
    ghost var due := Due(instr, i, em, endbuf, eof, t, s, items) && t.RangeTok?;
    ghost var dm, b := if t.RangeTok? then t.dm else [], if t.RangeTok? then t.b else Exactly;
    if due { RangeText(instr, i, t, eof); }
    err, i', em', items' := CountCase(instr, i + 2, em, s, items, dm, b);
  }

  /** The case of a backslash, at i. */
  method Escape(instr: seq<nat>, i: nat, em: Emit, endbuf: nat, ghost eof: nat, ghost t: Token, ghost s: Shape, ghost items: seq<Item>)
    returns (err: nat, i': nat, em': Emit, ghost items': seq<Item>)
    requires CharAt(instr, i) == BSLASH && Sound(em)
    ensures err == 0 ==> i < i' && |em.code| <= |em'.code| && Sound(em')
    ensures Due(instr, i, em, endbuf, eof, t, s, items) ==> Read(t, i, em, s, err, i', em', items')
  {
    ghost var due := Due(instr, i, em, endbuf, eof, t, s, items);
    if due {
      EscapeToken(instr, i, t, eof);
      LastOp(em, s, items);
    }
    var c := CharAt(instr, i + 1);
    if c == LBRACE && em.lastep != -1 {
      err, i', em', items' := RangeCase(instr, i, em, endbuf, eof, t, s, items);
      return;
    }
    err, i', em', items' := 0, i + 2, em, items;
    if c == LPAR || c == RPAR {
      err, em', items' := GroupCase(c, em, t, s, items);
    } else if c == NEWLINE {
      err := 36;
    } else if 49 <= c <= NINE {
      err, em', items' := RefCase(c, em, s, items);
    } else {
      em', items' := DefChar(em, if c == LOWN then NEWLINE else c, s, items);
    }
  }

  /** The dot and the dollar sign. */
  method SignCase(c: nat, em: Emit, ghost s: Shape, ghost items: seq<Item>) returns (em': Emit, ghost items': seq<Item>)
    requires c == DOTCH || c == DOLLAR
    ensures |em'.code| == |em.code| + 1 && Sound(em')
    ensures Stands(em, s, items) ==> Stands(em', Apply(s, if c == DOTCH then DotTok else EolTok).s, items')
  {
    ghost var t := if c == DOTCH then One(Dot) else Eol;
    if Stands(em, s, items) { PutStands(em, s, items, if c == DOTCH then POne(Any) else PEol, t); }
    em', items' := Put(em, [if c == DOTCH then CDOT else CDOL]), items + [t];
  }

  /** One token, at i, that does not begin with a backslash. */
  method Unescaped(instr: seq<nat>, i: nat, em: Emit, endbuf: nat, eof: nat, ghost t: Token, ghost s: Shape, ghost items: seq<Item>)
    returns (err: nat, i': nat, em': Emit, ghost items': seq<Item>)
    requires forall k :: 0 <= k < |instr| ==> instr[k] <= 255
    requires CharAt(instr, i) != BSLASH && Sound(em) && |em.code| < endbuf
    ensures err == 0 ==> i < i' && |em.code| <= |em'.code| && Sound(em') && (i >= |instr| ==> |em'.code| > |em.code|)
    ensures Due(instr, i, em, endbuf, eof, t, s, items) ==> Read(t, i, em, s, err, i', em', items')
  {
    ghost var due := Due(instr, i, em, endbuf, eof, t, s, items);
    if due { PlainToken(instr, i, t, eof); }
    var c := CharAt(instr, i);
    err, i', items' := 0, i + 1, items;
    if c == STARCH {
      em', items' := StarCase(em, s, items);
    } else if c == LBRACK {
      if due { BracketSeen(instr, i, t, eof); }
      err, i', em', items' := BracketCase(instr, i + 1, em, endbuf, s, items,
                                          t.BracketTok? && t.neg, if t.BracketTok? then t.cs else []);
    } else if c == DOTCH || (c == DOLLAR && (CharAt(instr, i + 1) == eof || CharAt(instr, i + 1) == NEWLINE)) {
      em', items' := SignCase(c, em, s, items);
    } else {
      em', items' := DefChar(em, c, s, items);
    }
  }
}
