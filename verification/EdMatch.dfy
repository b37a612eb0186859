/**
  `step` and `advance` of regexp.h: the backtracking matcher over compiled code, with the
  group boundaries kept in the global lists braslist and braelist, which backtracking
  never restores.
*/
module EdMatch {
  import opened EdCode

  /** Subjects are NUL-terminated. */
  ghost predicate IsSubject(s: Text) {
    forall i :: 0 <= i < |s| ==> 1 <= s[i] <= 255
  }

  function At(s: Text, i: nat): nat {
    if i < |s| then s[i] else 0
  }

  // ---------------------------------------------------------------------
  // Where a group may be referred to
  // ---------------------------------------------------------------------

  predicate RefersTo(t: Item, n: nat) {
    t == Back(n) || t == BackMany(n)
  }

  ghost predicate HasRef(items: seq<Item>, n: nat) {
    Back(n) in items || BackMany(n) in items
  }

  /** No group is opened again or closed after it has been closed or referred to, and a group
      that is opened and referred to is closed in between. */
  ghost predicate Nested(items: seq<Item>) {
    items == [] || (Leads(items[0], items[1..]) && Nested(items[1..]))
  }

  ghost predicate Leads(t: Item, rest: seq<Item>) {
    match t
    case Open(n) => HasRef(rest, n) ==> Close(n) in rest
    case Close(n) => Open(n) !in rest && Close(n) !in rest
    case Back(n) => Open(n) !in rest && Close(n) !in rest
    case BackMany(n) => Open(n) !in rest && Close(n) !in rest
    case _ => true
  }

  lemma {:induction false} OpenedIsClosed(items: seq<Item>, n: nat)
    requires Nested(items) && Open(n) in items && HasRef(items, n)
    ensures Close(n) in items
  {
    assert items == [items[0]] + items[1..];
    if items[0] != Open(n) {
      assert Open(n) in items[1..] && HasRef(items[1..], n);
      OpenedIsClosed(items[1..], n);
    }
  }

  /** Complete code: every reference is to a group closed before, every group is opened first. */
  ghost predicate Balanced(items: seq<Item>) {
    && Nested(items)
    && (forall n :: HasRef(items, n) ==> Close(n) in items)
    && (forall n :: Close(n) in items ==> Open(n) in items)
  }

  /** The part of the captures that matters to the rest of the code is in place. */
  ghost predicate Bounded(items: seq<Item>, b: seq<nat>, e: seq<nat>, lp: nat, s: Text) {
    && |b| == |e| == NBRA
    && (forall n :: 0 <= n < NBRA && HasRef(items, n) && Close(n) !in items ==> b[n] <= e[n] <= |s|)
    && (forall n :: 0 <= n < NBRA && Close(n) in items && Open(n) !in items ==> b[n] <= lp)
  }

  const NoCaptures: seq<nat> := [0, 0, 0, 0, 0, 0, 0, 0, 0]

  /** Before complete code is run, nothing needs to be in place and nothing matters. */
  lemma FreshStart(items: seq<Item>, b: seq<nat>, e: seq<nat>, lp: nat, s: Text)
    requires Balanced(items) && |b| == |e| == NBRA
    ensures Bounded(items, b, e, lp, s) && Agree(items, b, e, NoCaptures, NoCaptures)
  {
  }

  /** The two lists agree except where the code sets them before it uses them. */
  ghost predicate Agree(items: seq<Item>, b: seq<nat>, e: seq<nat>, b': seq<nat>, e': seq<nat>) {
    && |b| == |b'| == |e| == |e'|
    && (forall n :: 0 <= n < |b| && b[n] != b'[n] ==> Open(n) in items || !HasRef(items, n))
    && (forall n :: 0 <= n < |e| && e[n] != e'[n] ==> Close(n) in items || !HasRef(items, n))
  }

  lemma AgreeTail(items: seq<Item>, i: nat, b: seq<nat>, e: seq<nat>, b': seq<nat>, e': seq<nat>)
    requires items != [] && Agree(items, b, e, b', e')
    ensures Agree(items[1..], BrasAfter(items[0], i, b), BraeAfter(items[0], i, e),
                  BrasAfter(items[0], i, b'), BraeAfter(items[0], i, e'))
  {
    assert items == [items[0]] + items[1..];
  }

  lemma SameChoices(items: seq<Item>, s: Text, i: nat, b: seq<nat>, e: seq<nat>, b': seq<nat>, e': seq<nat>)
    requires items != [] && ItemOk(items[0]) && i <= |s| && Nested(items) && Agree(items, b, e, b', e')
    ensures Choices(items[0], s, i, b, e) == Choices(items[0], s, i, b', e')
  {
    var t := items[0];
    if t.Back? || t.BackMany? {
      assert items == [t] + items[1..];
      assert HasRef(items, t.n) && Open(t.n) !in items && Close(t.n) !in items;
    }
  }

  /** Entries that are set before they are used do not matter. */
  lemma {:induction false} TryAgree(items: seq<Item>, s: Text, i: nat, b: seq<nat>, e: seq<nat>, b': seq<nat>, e': seq<nat>)
    requires ItemsOk(items) && i <= |s| && Nested(items) && Agree(items, b, e, b', e')
    ensures Try(items, s, i, b, e) == Try(items, s, i, b', e')
    decreases |items|, 1, 0
  {
    if items != [] {
      var t := items[0];
      assert ItemOk(t);
      AgreeTail(items, i, b, e, b', e');
      SameChoices(items, s, i, b, e, b', e');
      match Choices(t, s, i, b, e)
      case Ladder(lo, hi, step) =>
        var rest, b1, e1, b2, e2 := items[1..], BrasAfter(t, i, b), BraeAfter(t, i, e), BrasAfter(t, i, b'), BraeAfter(t, i, e');
        forall h | 0 <= h <= hi ensures Try(rest, s, h, b1, e1) == Try(rest, s, h, b2, e2) { TryAgree(rest, s, h, b1, e1, b2, e2); }
        DownAgree(rest, s, lo, hi, step, b1, e1, b2, e2);
      case _ =>
    }
  }

  /** Ladders from whose rungs the outcomes are the same lead to the same outcome. */
  lemma {:induction false} DownAgree(rest: seq<Item>, s: Text, lo: nat, hi: nat, step: nat, b: seq<nat>, e: seq<nat>, b': seq<nat>, e': seq<nat>)
    requires ItemsOk(rest) && lo <= hi <= |s| && step > 0
    requires forall h :: 0 <= h <= hi ==> Try(rest, s, h, b, e) == Try(rest, s, h, b', e')
    ensures TryDown(rest, s, lo, hi, step, b, e) == TryDown(rest, s, lo, hi, step, b', e')
    decreases hi
  {
    assert Try(rest, s, hi, b, e) == Try(rest, s, hi, b', e');
    if lo + step <= hi { DownAgree(rest, s, lo, hi - step, step, b, e, b', e'); }
  }

  // ---------------------------------------------------------------------
  // Reading the code
  // ---------------------------------------------------------------------

  function OpOf(t: Item): nat {
    match t
    case One(a) => AtomOp(a)
    case Many(a) => AtomOp(a) + STAR
    case Rep(a, _, _) => AtomOp(a) + RNGE
    case Open(_) => CBRA
    case Close(_) => CKET
    case Back(_) => CBACK
    case BackMany(_) => CBACK + STAR
    case Eol => CDOL
  }

  /** The operand length of the character operation `op`. */
  function OperandLen(op: nat): nat {
    if op == CCHR then 1 else if op == CDOT then 0 else if op == CXCL then 32 else 16
  }

  predicate IsAtomOp(op: nat) {
    op == CCHR || op == CDOT || op == CCL || op == CXCL || op == NCCL
  }

  /** The test that the character operation `op` with its operand at ep makes of a byte. */
  predicate Test(code: seq<nat>, op: nat, ep: nat, c: nat)
    requires IsAtomOp(op) && ep + OperandLen(op) <= |code| && c <= 255
  {
    if op == CCHR then c == code[ep]
    else if op == CDOT then c != 0
    else if op == CXCL then Bit(code[ep + c / 8], c % 8)
    else
      var there := c < 128 && Bit(code[ep + c / 8], c % 8);
      if op == NCCL then !there else there
  }

  /** The operand of the atom stands at ep. */
  predicate OperandAt(code: seq<nat>, ep: nat, a: Atom) {
    ep + |Operand(a)| <= |code| && forall i :: 0 <= i < |Operand(a)| ==> code[ep + i] == Operand(a)[i]
  }

  lemma TestIsHas(code: seq<nat>, ep: nat, a: Atom, c: nat)
    requires AtomOk(a) && c <= 255 && OperandAt(code, ep, a)
    ensures OperandLen(AtomOp(a)) == |Operand(a)|
    ensures Test(code, AtomOp(a), ep, c) <==> Has(a, c)
  {
    if a.Chr? {
      assert code[ep + 0] == a.c;
    } else if a.Class? && c / 8 < |a.bits| {
      assert code[ep + c / 8] == a.bits[c / 8];
    }
  }

  /** At ep stands the code of `items`: its first operation can be told from the opcode. */
  lemma HeadOp(code: seq<nat>, ep: nat, items: seq<Item>)
    requires ItemsOk(items) && ep <= |code| && code[ep..] == Encode(items)
    ensures ep < |code| && (items == [] <==> code[ep] == CCEOF)
    ensures items != [] ==>
              && ItemOk(items[0]) && code[ep] == OpOf(items[0])
              && ep + |EncodeItem(items[0])| <= |code|
              && code[ep..ep + |EncodeItem(items[0])|] == EncodeItem(items[0])
              && code[ep + |EncodeItem(items[0])|..] == Encode(items[1..])
  {
    if items == [] {
      SplitCode(code, ep, [CCEOF], []);
    } else {
      assert ItemOk(items[0]);
      SplitCode(code, ep, EncodeItem(items[0]), Encode(items[1..]));
      Opcode(items[0]);
    }
  }

  lemma SplitCode(code: seq<nat>, ep: nat, x: seq<nat>, r: seq<nat>)
    requires ep <= |code| && code[ep..] == x + r && x != []
    ensures ep + |x| <= |code| && code[ep] == x[0]
    ensures code[ep..ep + |x|] == x && code[ep + |x|..] == r
  {
    assert code[ep..][0] == code[ep];
    assert code[ep..ep + |x|] == code[ep..][..|x|];
    assert code[ep + |x|..] == code[ep..][|x|..];
  }

  lemma Opcode(t: Item)
    requires ItemOk(t)
    ensures EncodeItem(t) != [] && EncodeItem(t)[0] == OpOf(t) != CCEOF
  {
  }

  lemma SliceAt(code: seq<nat>, ep: nat, x: seq<nat>)
    requires ep + |x| <= |code| && code[ep..ep + |x|] == x
    ensures forall i :: 0 <= i < |x| ==> code[ep + i] == x[i]
  {
    forall i | 0 <= i < |x| ensures code[ep + i] == x[i] {
      assert code[ep..ep + |x|][i] == code[ep + i];
    }
  }

  /** The operand and the bounds behind a character operation. */
  lemma AtomOperand(code: seq<nat>, ep: nat, t: Item)
    requires ItemOk(t) && (t.One? || t.Many? || t.Rep?)
    requires ep + |EncodeItem(t)| <= |code| && code[ep..ep + |EncodeItem(t)|] == EncodeItem(t)
    ensures OperandAt(code, ep + 1, t.a) && |EncodeItem(t)| == 1 + |Operand(t.a)| + (if t.Rep? then 2 else 0)
    ensures t.Rep? ==> code[ep + 1 + |Operand(t.a)|] == t.lo && code[ep + 2 + |Operand(t.a)|] == t.hi
  {
    var x, o := EncodeItem(t), Operand(t.a);
    SliceAt(code, ep, x);
    forall i | 0 <= i < |o| ensures code[ep + 1 + i] == o[i] {
      assert x[1 + i] == o[i];
      assert code[ep + (1 + i)] == x[1 + i];
    }
    if t.Rep? {
      assert x[1 + |o|] == t.lo && x[2 + |o|] == t.hi;
      assert code[ep + (1 + |o|)] == t.lo && code[ep + (2 + |o|)] == t.hi;
    }
  }

  // ---------------------------------------------------------------------
  // One operation at a time
  // ---------------------------------------------------------------------

  /** The matcher stands at code position ep and subject position lp with captures b, e, the
      operations `rest` are still to come, and the outcome of the call will be `goal`. */
  ghost predicate State(code: seq<nat>, ep: nat, rest: seq<Item>, s: Text, lp: nat, b: seq<nat>, e: seq<nat>, goal: Outcome) {
    && IsSubject(s) && lp <= |s| && ItemsOk(rest) && Nested(rest) && Bounded(rest, b, e, lp, s)
    && ep <= |code| && code[ep..] == Encode(rest)
    && Try(rest, s, lp, b, e) == goal
  }

  /** After an operation that leaves no choice the outcome is that of the rest. */
  lemma NextState(code: seq<nat>, ep: nat, rest: seq<Item>, s: Text, lp: nat, b: seq<nat>, e: seq<nat>, goal: Outcome, k: nat)
    requires State(code, ep, rest, s, lp, b, e, goal) && rest != []
    requires ItemOk(rest[0]) && Choices(rest[0], s, lp, b, e) == Ladder(k, k, 1)
    ensures State(code, ep + |EncodeItem(rest[0])|, rest[1..], s, k, BrasAfter(rest[0], lp, b), BraeAfter(rest[0], lp, e), goal)
  {
    HeadOp(code, ep, rest);
    BoundedTail(rest, b, e, lp, k, s);
    var b', e' := BrasAfter(rest[0], lp, b), BraeAfter(rest[0], lp, e);
    assert Try(rest, s, lp, b, e) == TryDown(rest[1..], s, k, k, 1, b', e');
    assert TryDown(rest[1..], s, k, k, 1, b', e') == Try(rest[1..], s, k, b', e');
  }

  lemma DeadState(code: seq<nat>, ep: nat, rest: seq<Item>, s: Text, lp: nat, b: seq<nat>, e: seq<nat>, goal: Outcome)
    requires State(code, ep, rest, s, lp, b, e, goal) && rest != []
    requires ItemOk(rest[0]) && Choices(rest[0], s, lp, b, e) == NoWay
    ensures goal == Fail
  {
  }

  /** The rest of the code is in the same position behind every rung of a ladder. */
  lemma BoundedTail(rest: seq<Item>, b: seq<nat>, e: seq<nat>, lp: nat, k: nat, s: Text)
    requires rest != [] && ItemOk(rest[0]) && Nested(rest) && Bounded(rest, b, e, lp, s) && lp <= k <= |s|
    ensures Bounded(rest[1..], BrasAfter(rest[0], lp, b), BraeAfter(rest[0], lp, e), k, s)
  {
    var t, tail := rest[0], rest[1..];
    var b', e' := BrasAfter(t, lp, b), BraeAfter(t, lp, e);
    assert rest == [t] + tail;
    forall n | 0 <= n < NBRA && HasRef(tail, n) && Close(n) !in tail ensures b'[n] <= e'[n] <= |s| {
      assert HasRef(rest, n) && (Close(n) in rest ==> t == Close(n));
    }
  }

  /** Running `items` changes captures only where they open or close groups. */
  ghost predicate Kept(items: seq<Item>, b: seq<nat>, e: seq<nat>, b': seq<nat>, e': seq<nat>) {
    && |b| == |e| == |b'| == |e'| == NBRA
    && (forall n :: 0 <= n < NBRA && Open(n) !in items ==> b'[n] == b[n])
    && (forall n :: 0 <= n < NBRA && Close(n) !in items ==> e'[n] == e[n])
  }

  lemma KeptTwice(items: seq<Item>, b: seq<nat>, e: seq<nat>, b': seq<nat>, e': seq<nat>, b'': seq<nat>, e'': seq<nat>)
    requires Kept(items, b, e, b', e') && Kept(items, b', e', b'', e'')
    ensures Kept(items, b, e, b'', e'')
  {
  }

  /** The operations that are left are among `items`. */
  ghost predicate Among(rest: seq<Item>, items: seq<Item>) {
    forall t :: t in rest ==> t in items
  }

  /** One more operation. */
  lemma KeptStep(items: seq<Item>, rest: seq<Item>, lp: nat, b0: seq<nat>, e0: seq<nat>, b: seq<nat>, e: seq<nat>)
    requires Kept(items, b0, e0, b, e) && rest != [] && Among(rest, items)
    ensures Kept(items, b0, e0, BrasAfter(rest[0], lp, b), BraeAfter(rest[0], lp, e)) && Among(rest[1..], items)
  {
    assert rest[0] in rest;
  }

  /** All of the rest. */
  lemma KeptRest(items: seq<Item>, rest: seq<Item>, b0: seq<nat>, e0: seq<nat>, b: seq<nat>, e: seq<nat>, b': seq<nat>, e': seq<nat>)
    requires Kept(items, b0, e0, b, e) && Among(rest, items) && Kept(rest, b, e, b', e')
    ensures Kept(items, b0, e0, b', e')
  {
  }

  /** The outcome at start p, whatever the lists hold. */
  ghost function OutcomeAt(items: seq<Item>, s: Text, p: nat): Outcome
    requires ItemsOk(items) && p <= |s|
  {
    Try(items, s, p, NoCaptures, NoCaptures)
  }

  ghost predicate FailsBefore(items: seq<Item>, s: Text, n: nat)
    requires ItemsOk(items) && n <= |s| + 1
  {
    forall p :: 0 <= p < n ==> OutcomeAt(items, s, p) == Fail
  }

  // ---------------------------------------------------------------------
  // The matcher
  // ---------------------------------------------------------------------

  class Matcher {
    const braslist: array<nat>
    const braelist: array<nat>
    var loc1: nat
    var loc2: nat
    var low: nat
    var size: int

    ghost predicate Valid() {
      braslist.Length == NBRA && braelist.Length == NBRA && braslist != braelist
    }

    constructor ()
      ensures Valid() && fresh(braslist) && fresh(braelist)
    {
      braslist := new nat[NBRA];
      braelist := new nat[NBRA];
      loc1, loc2, low, size := 0, 0, 0, 0;
    }

    /** The scan of a starred character operation: lp ends one past the first character refused. */
    method ScanStar(s: Text, code: seq<nat>, op: nat, ep: nat, start: nat, ghost a: Atom) returns (lp: nat)
      requires IsSubject(s) && start <= |s| && AtomOk(a) && op == AtomOp(a)
      requires OperandAt(code, ep, a)
      ensures lp == start + Span(a, s, start, |s| - start) + 1
    {
      TestIsHas(code, ep, a, 0);
      lp := start;
      while true
        invariant start <= lp <= |s|
        invariant Span(a, s, start, |s| - start) == lp - start + Span(a, s, lp, |s| - lp)
        decreases |s| - lp
      {
        var c := At(s, lp);
        TestIsHas(code, ep, a, c);
        lp := lp + 1;
        if !Test(code, op, ep, c) {
          break;
        }
      }
    }

    /** The first scan of a bounded operation: the characters that must be there. */
    method ScanLow(s: Text, code: seq<nat>, op: nat, ep: nat, start: nat, lo: nat, ghost a: Atom) returns (ok: bool, lp: nat)
      requires IsSubject(s) && start <= |s| && AtomOk(a) && op == AtomOp(a)
      requires OperandAt(code, ep, a)
      ensures ok <==> Span(a, s, start, lo) == lo
      ensures ok ==> lp == start + lo <= |s|
    {
      TestIsHas(code, ep, a, 0);
      lp := start;
      var left := lo;
      while left > 0
        invariant start <= lp <= |s| && 0 <= left <= lo && lp == start + lo - left
        invariant Span(a, s, start, lo) == lo - left + Span(a, s, lp, left)
      {
        left := left - 1;
        var c := At(s, lp);
        TestIsHas(code, ep, a, c);
        if !Test(code, op, ep, c) {
          return false, lp;
        }
        lp := lp + 1;
      }
      ok := true;
    }

    /** The second scan, up to `full` more; lp ends one past the last character that may be taken. */
    method ScanSize(s: Text, code: seq<nat>, op: nat, ep: nat, curlp: nat, full: nat, ghost a: Atom) returns (lp: nat)
      requires IsSubject(s) && curlp <= |s| && AtomOk(a) && op == AtomOp(a)
      requires OperandAt(code, ep, a)
      ensures lp == curlp + Span(a, s, curlp, full) + 1
    {
      TestIsHas(code, ep, a, 0);
      lp := curlp;
      var left: int := full;
      while true
        invariant curlp <= lp <= |s| && 0 <= left <= full && lp == curlp + full - left
        invariant Span(a, s, curlp, full) == lp - curlp + Span(a, s, lp, left)
        decreases left
      {
        left := left - 1;
        if left < 0 {
          break;
        }
        var c := At(s, lp);
        TestIsHas(code, ep, a, c);
        lp := lp + 1;
        if !Test(code, op, ep, c) {
          break;
        }
      }
      if left < 0 {
        lp := lp + 1;
      }
    }

    /** ecmp: strncmp of the captured text with the subject at lp. */
    method Ecmp(s: Text, bbeg: nat, lp: nat, ct: nat) returns (same: bool)
      requires IsSubject(s) && bbeg + ct <= |s| && lp <= |s|
      ensures same <==> lp + ct <= |s| && s[lp..lp + ct] == s[bbeg..bbeg + ct]
    {
      for i := 0 to ct
        invariant lp + i <= |s| && s[lp..lp + i] == s[bbeg..bbeg + i]
      {
        if At(s, lp + i) != s[bbeg + i] {
          if lp + ct <= |s| {
            assert s[lp..lp + ct][i] != s[bbeg..bbeg + ct][i];
          }
          return false;
        }
        assert s[lp..lp + i + 1] == s[lp..lp + i] + [s[lp + i]];
        assert s[bbeg..bbeg + i + 1] == s[bbeg..bbeg + i] + [s[bbeg + i]];
      }
      same := true;
    }

    /** getrnge */
    method GetRnge(code: seq<nat>, str: nat)
      requires str + 2 <= |code| && code[str] <= code[str + 1]
      modifies this`low, this`size
      ensures low == code[str] && 0 <= size == Extra(code[str], code[str + 1])
    {
      low := code[str];
      size := if code[str + 1] == 255 then 20000 else code[str + 1] - low;
    }

    /** Whenever a reference is reached, both entries of its group are in place. */
    lemma CapturedText(s: Text, rest: seq<Item>, b: seq<nat>, e: seq<nat>, lp: nat, n: nat)
      requires rest != [] && RefersTo(rest[0], n) && n < NBRA && Nested(rest) && Bounded(rest, b, e, lp, s)
      ensures b[n] <= e[n] <= |s| && Captured(s, b, e, n) == s[b[n]..e[n]]
    {
      assert rest == [rest[0]] + rest[1..];
      assert HasRef(rest, n) && Close(n) !in rest;
    }

    /** The operation t stands at ep, and the match at lp. */
    ghost predicate AtItem(code: seq<nat>, ep: nat, t: Item, s: Text, lp: nat) {
      && IsSubject(s) && lp <= |s| && ItemOk(t)
      && ep + |EncodeItem(t)| <= |code| && code[ep..ep + |EncodeItem(t)|] == EncodeItem(t)
    }

    /** Both entries of the group that t refers to are in place. */
    ghost predicate InPlace(t: Item, s: Text)
      requires Valid()
      reads braslist, braelist
    {
      (t.Back? || t.BackMany?) && t.n < NBRA ==> braslist[t.n] <= braelist[t.n] <= |s|
    }

    /** CBRA and CKET: note where a group starts or ends. */
    method Mark(code: seq<nat>, ep: nat, lp: nat, ghost t: Item, ghost s: Text)
      requires Valid() && AtItem(code, ep, t, s, lp) && (t.Open? || t.Close?)
      modifies braslist, braelist
      ensures braslist[..] == BrasAfter(t, lp, old(braslist[..])) && braelist[..] == BraeAfter(t, lp, old(braelist[..]))
    {
      SliceAt(code, ep, EncodeItem(t));
      assert code[ep + 1] == t.n;
      if code[ep] == CBRA {
        braslist[code[ep + 1]] := lp;
      } else {
        braelist[code[ep + 1]] := lp;
      }
    }

    /** CCHR, CDOT, CXCL, NCCL and CCL: one character. */
    method TakeOne(s: Text, code: seq<nat>, ep: nat, lp: nat, ghost t: Item, ghost b: seq<nat>, ghost e: seq<nat>)
      returns (ok: bool, ep': nat)
      requires AtItem(code, ep, t, s, lp) && t.One?
      ensures ep' == ep + |EncodeItem(t)|
      ensures Choices(t, s, lp, b, e) == if ok then Ladder(lp + 1, lp + 1, 1) else NoWay
    {
      SliceAt(code, ep, EncodeItem(t));
      AtomOperand(code, ep, t);
      TestIsHas(code, ep + 1, t.a, 0);
      var c := At(s, lp);
      TestIsHas(code, ep + 1, t.a, c);
      ep' := ep + 1 + OperandLen(code[ep]);
      ok := Test(code, code[ep], ep + 1, c);
    }

    /** CBACK: the text of a closed group again. */
    method TakeBack(s: Text, code: seq<nat>, ep: nat, lp: nat, ghost t: Item) returns (ok: bool, lp': nat)
      requires Valid() && AtItem(code, ep, t, s, lp) && t.Back? && InPlace(t, s)
      ensures Choices(t, s, lp, braslist[..], braelist[..]) == if ok then Ladder(lp', lp', 1) else NoWay
    {
      SliceAt(code, ep, EncodeItem(t));
      var bbeg := braslist[code[ep + 1]];
      var ct := braelist[code[ep + 1]] - bbeg;
      ok := Ecmp(s, bbeg, lp, ct);
      lp' := lp + ct;
    }

    /** A starred character operation: from lp up to top may be taken. */
    method TakeStar(s: Text, code: seq<nat>, ep: nat, lp: nat, ghost t: Item, ghost b: seq<nat>, ghost e: seq<nat>)
      returns (ep': nat, top: nat)
      requires AtItem(code, ep, t, s, lp) && t.Many?
      ensures ep' == ep + |EncodeItem(t)| && Choices(t, s, lp, b, e) == Ladder(lp, top, 1)
    {
      SliceAt(code, ep, EncodeItem(t));
      AtomOperand(code, ep, t);
      TestIsHas(code, ep + 1, t.a, 0);
      var op := code[ep] - STAR;
      ep' := ep + 1 + OperandLen(op);
      var last := ScanStar(s, code, op, ep + 1, lp, t.a);
      top := last - 1;
    }

    /** A bounded character operation: from curlp up to top may be taken. */
    method TakeRange(s: Text, code: seq<nat>, ep: nat, lp: nat, ghost t: Item, ghost b: seq<nat>, ghost e: seq<nat>)
      returns (ok: bool, ep': nat, curlp: nat, top: nat)
      requires AtItem(code, ep, t, s, lp) && t.Rep?
      modifies this`low, this`size
      ensures ep' == ep + |EncodeItem(t)|
      ensures Choices(t, s, lp, b, e) == if ok then Ladder(curlp, top, 1) else NoWay
    {
      SliceAt(code, ep, EncodeItem(t));
      AtomOperand(code, ep, t);
      TestIsHas(code, ep + 1, t.a, 0);
      var op := code[ep] - RNGE;
      var str := ep + 1 + OperandLen(op);
      GetRnge(code, str);
      ep', top := str + 2, 0;
      RepLadder(t, s, lp, b, e, low, size);
      ok, curlp := ScanLow(s, code, op, ep + 1, lp, low, t.a);
      if ok {
        var last := ScanSize(s, code, op, ep + 1, curlp, size, t.a);
        top := last - 1;
      }
    }

    lemma RepLadder(t: Item, s: Text, lp: nat, b: seq<nat>, e: seq<nat>, lo: nat, full: nat)
      requires ItemOk(t) && t.Rep? && lp <= |s| && lo == t.lo && full == Extra(t.lo, t.hi)
      ensures Span(t.a, s, lp, lo) < lo ==> Choices(t, s, lp, b, e) == NoWay
      ensures Span(t.a, s, lp, lo) == lo ==>
                Choices(t, s, lp, b, e) == Ladder(lp + lo, lp + lo + Span(t.a, s, lp + lo, full), 1)
    {
    }

    /** A starred reference: copies of the captured text reach up to top. */
    method TakeBacks(s: Text, code: seq<nat>, ep: nat, lp: nat, ghost t: Item) returns (ct: nat, top: nat)
      requires Valid() && AtItem(code, ep, t, s, lp) && t.BackMany? && InPlace(t, s)
      ensures Choices(t, s, lp, braslist[..], braelist[..]) == if ct == 0 then Spin else Ladder(lp, top, ct)
    {
      SliceAt(code, ep, EncodeItem(t));
      var bbeg := braslist[code[ep + 1]];
      ct, top := braelist[code[ep + 1]] - bbeg, lp;
      if ct > 0 {
        top := ScanBacks(s, bbeg, ct, lp);
      }
    }

    method ScanBacks(s: Text, bbeg: nat, ct: nat, start: nat) returns (lp: nat)
      requires IsSubject(s) && bbeg + ct <= |s| && ct > 0 && start <= |s|
      ensures lp == Copies(s[bbeg..bbeg + ct], s, start)
    {
      ghost var u := s[bbeg..bbeg + ct];
      ghost var goal := Copies(u, s, start);
      lp := start;
      var same := Ecmp(s, bbeg, lp, ct);
      while same
        invariant start <= lp <= |s| && Copies(u, s, lp) == goal
        invariant same <==> lp + ct <= |s| && s[lp..lp + ct] == u
        decreases |s| - lp
      {
        lp := lp + ct;
        same := Ecmp(s, bbeg, lp, ct);
      }
    }

    /** The operations that leave no choice. */
    method Straight(s: Text, code: seq<nat>, ep: nat, lp: nat, ghost t: Item) returns (ok: bool, ep': nat, lp': nat)
      requires Valid() && AtItem(code, ep, t, s, lp) && InPlace(t, s) && !IsBranch(t)
      modifies braslist, braelist
      ensures ep' == ep + |EncodeItem(t)|
      ensures Choices(t, s, lp, old(braslist[..]), old(braelist[..])) == if ok then Ladder(lp', lp', 1) else NoWay
      ensures braslist[..] == BrasAfter(t, lp, old(braslist[..])) && braelist[..] == BraeAfter(t, lp, old(braelist[..]))
    {
      SliceAt(code, ep, EncodeItem(t));
      var op := code[ep];
      if op == CDOL {
        ok, ep', lp' := At(s, lp) == 0, ep + 1, lp;
      } else if op == CBRA || op == CKET {
        Mark(code, ep, lp, t, s);
        ok, ep', lp' := true, ep + 2, lp;
      } else if op == CBACK {
        ok, lp' := TakeBack(s, code, ep, lp, t);
        ep' := ep + 2;
      } else {
        ok, ep' := TakeOne(s, code, ep, lp, t, braslist[..], braelist[..]);
        lp' := lp + 1;
      }
    }

    predicate IsBranch(t: Item) {
      t.Many? || t.Rep? || t.BackMany?
    }

    /** The loops that try the rest of the code at hi, hi - step, ... down to lo. */
    method Descend(s: Text, code: seq<nat>, ep: nat, lo: nat, hi: nat, step: nat, ghost rest: seq<Item>) returns (r: Outcome)
      requires Valid() && lo <= hi <= |s| && step > 0 && ItemsOk(rest)
      requires State(code, ep, rest, s, lo, braslist[..], braelist[..], Try(rest, s, lo, braslist[..], braelist[..]))
      modifies this`loc2, this`low, this`size, braslist, braelist
      ensures r == TryDown(rest, s, lo, hi, step, old(braslist[..]), old(braelist[..]))
      ensures r.End? ==> loc2 == r.at
      ensures Kept(rest, old(braslist[..]), old(braelist[..]), braslist[..], braelist[..])
      decreases |rest|, 2, 0
    {
      var lp := hi;
      ghost var b, e := braslist[..], braelist[..];
      while true
        invariant lo <= lp <= hi && Kept(rest, b, e, braslist[..], braelist[..])
        invariant TryDown(rest, s, lo, hi, step, b, e) == TryDown(rest, s, lo, lp, step, b, e)
        decreases lp
      {
        ghost var b', e' := braslist[..], braelist[..];
        StillSound(code, ep, rest, s, lo, lp, b, e, b', e');
        r := Advance(s, lp, code, ep, rest);
        KeptTwice(rest, b, e, b', e', braslist[..], braelist[..]);
        if !r.Fail? || lp < lo + step {
          return;
        }
        lp := lp - step;
      }
    }

    /** What a failed attempt leaves in the lists does not disturb the next attempt. */
    lemma StillSound(code: seq<nat>, ep: nat, rest: seq<Item>, s: Text, lo: nat, lp: nat, b: seq<nat>, e: seq<nat>, b': seq<nat>, e': seq<nat>)
      requires ItemsOk(rest) && lo <= lp <= |s|
      requires State(code, ep, rest, s, lo, b, e, Try(rest, s, lo, b, e)) && Kept(rest, b, e, b', e')
      ensures State(code, ep, rest, s, lp, b', e', Try(rest, s, lp, b', e'))
      ensures Try(rest, s, lp, b', e') == Try(rest, s, lp, b, e)
    {
      forall n: nat | HasRef(rest, n) && Open(n) in rest ensures Close(n) in rest { OpenedIsClosed(rest, n); }
      assert Bounded(rest, b', e', lp, s);
      assert Agree(rest, b, e, b', e');
      TryAgree(rest, s, lp, b, e, b', e');
    }

    /** `advance`: match the code at ep0 against the subject at lp0. */
    method Advance(s: Text, lp0: nat, code: seq<nat>, ep0: nat, ghost items: seq<Item>) returns (r: Outcome)
      requires Valid() && ItemsOk(items) && lp0 <= |s|
      requires State(code, ep0, items, s, lp0, braslist[..], braelist[..], Try(items, s, lp0, braslist[..], braelist[..]))
      modifies this`loc2, this`low, this`size, braslist, braelist
      ensures r == Try(items, s, lp0, old(braslist[..]), old(braelist[..]))
      ensures r.End? ==> loc2 == r.at
      ensures Kept(items, old(braslist[..]), old(braelist[..]), braslist[..], braelist[..])
      decreases |items|, 1, 0
    {
      var lp: nat, ep: nat := lp0, ep0;
      ghost var rest := items;
      ghost var b0, e0 := braslist[..], braelist[..];
      ghost var goal := Try(items, s, lp0, b0, e0);
      while true
        invariant |rest| <= |items| && Among(rest, items) && Kept(items, b0, e0, braslist[..], braelist[..])
        invariant State(code, ep, rest, s, lp, braslist[..], braelist[..], goal)
        decreases |rest|
      {
        ghost var b, e := braslist[..], braelist[..];
        StateHead(code, ep, rest, s, lp, goal);
        if code[ep] == CCEOF {
          loc2 := lp;
          return End(lp);
        }
        KeptStep(items, rest, lp, b0, e0, b, e);
        if code[ep] % 4 == STAR || code[ep] % 4 == RNGE {
          r := Branch(s, lp, code, ep, rest, goal);
          KeptRest(items, rest[1..], b0, e0, b, e, braslist[..], braelist[..]);
          return;
        }
        var ok, ep', lp' := Straight(s, code, ep, lp, rest[0]);
        if !ok {
          DeadState(code, ep, rest, s, lp, b, e, goal);
          return Fail;
        }
        NextState(code, ep, rest, s, lp, b, e, goal, lp');
        lp, ep, rest := lp', ep', rest[1..];
      }
    }

    /** The operations that are tried in several ways. */
    method Branch(s: Text, lp: nat, code: seq<nat>, ep: nat, ghost rest: seq<Item>, ghost goal: Outcome) returns (r: Outcome)
      requires Valid() && State(code, ep, rest, s, lp, braslist[..], braelist[..], goal)
      requires rest != [] && IsBranch(rest[0])
      modifies this`loc2, this`low, this`size, braslist, braelist
      ensures r == goal && (r.End? ==> loc2 == r.at)
      ensures Kept(rest[1..], old(braslist[..]), old(braelist[..]), braslist[..], braelist[..])
      decreases |rest|, 0, 2
    {
      StateHead(code, ep, rest, s, lp, goal);
      if code[ep] == CBACK + STAR {
        r := StarredBack(s, lp, code, ep, rest, goal);
      } else if code[ep] % 4 == STAR {
        r := Starred(s, lp, code, ep, rest, goal);
      } else {
        r := Ranged(s, lp, code, ep, rest, goal);
      }
    }

    method StarredBack(s: Text, lp: nat, code: seq<nat>, ep: nat, ghost rest: seq<Item>, ghost goal: Outcome) returns (r: Outcome)
      requires Valid() && State(code, ep, rest, s, lp, braslist[..], braelist[..], goal)
      requires rest != [] && rest[0].BackMany?
      modifies this`loc2, this`low, this`size, braslist, braelist
      ensures r == goal && (r.End? ==> loc2 == r.at)
      ensures Kept(rest[1..], old(braslist[..]), old(braelist[..]), braslist[..], braelist[..])
      decreases |rest|, 0, 1
    {
      StateHead(code, ep, rest, s, lp, goal);
      var ct, top := TakeBacks(s, code, ep, lp, rest[0]);
      if ct == 0 {
        SpinState(code, ep, rest, s, lp, braslist[..], braelist[..], goal);
        return Loops;
      }
      r := Climb(s, lp, code, ep, ep + 2, lp, top, ct, rest, goal);
    }

    method Starred(s: Text, lp: nat, code: seq<nat>, ep: nat, ghost rest: seq<Item>, ghost goal: Outcome) returns (r: Outcome)
      requires Valid() && State(code, ep, rest, s, lp, braslist[..], braelist[..], goal)
      requires rest != [] && rest[0].Many?
      modifies this`loc2, this`low, this`size, braslist, braelist
      ensures r == goal && (r.End? ==> loc2 == r.at)
      ensures Kept(rest[1..], old(braslist[..]), old(braelist[..]), braslist[..], braelist[..])
      decreases |rest|, 0, 1
    {
      StateHead(code, ep, rest, s, lp, goal);
      var ep', top := TakeStar(s, code, ep, lp, rest[0], braslist[..], braelist[..]);
      r := Climb(s, lp, code, ep, ep', lp, top, 1, rest, goal);
    }

    method Ranged(s: Text, lp: nat, code: seq<nat>, ep: nat, ghost rest: seq<Item>, ghost goal: Outcome) returns (r: Outcome)
      requires Valid() && State(code, ep, rest, s, lp, braslist[..], braelist[..], goal)
      requires rest != [] && rest[0].Rep?
      modifies this`loc2, this`low, this`size, braslist, braelist
      ensures r == goal && (r.End? ==> loc2 == r.at)
      ensures Kept(rest[1..], old(braslist[..]), old(braelist[..]), braslist[..], braelist[..])
      decreases |rest|, 0, 1
    {
      StateHead(code, ep, rest, s, lp, goal);
      var ok, ep', curlp, top := TakeRange(s, code, ep, lp, rest[0], braslist[..], braelist[..]);
      if !ok {
        DeadState(code, ep, rest, s, lp, braslist[..], braelist[..], goal);
        return Fail;
      }
      r := Climb(s, lp, code, ep, ep', curlp, top, 1, rest, goal);
    }

    /** The code at `star`, and the loop of CBACK|STAR. */
    method Climb(s: Text, lp: nat, code: seq<nat>, ep: nat, ep': nat, lo: nat, top: nat, step: nat,
                 ghost rest: seq<Item>, ghost goal: Outcome) returns (r: Outcome)
      requires Valid() && State(code, ep, rest, s, lp, braslist[..], braelist[..], goal)
      requires rest != [] && ItemOk(rest[0]) && IsBranch(rest[0]) && ep' == ep + |EncodeItem(rest[0])|
      requires Choices(rest[0], s, lp, braslist[..], braelist[..]) == Ladder(lo, top, step)
      modifies this`loc2, this`low, this`size, braslist, braelist
      ensures r == goal && (r.End? ==> loc2 == r.at)
      ensures Kept(rest[1..], old(braslist[..]), old(braelist[..]), braslist[..], braelist[..])
      decreases |rest|, 0, 0
    {
      LadderState(code, ep, rest, s, lp, braslist[..], braelist[..], goal, lo, top, step);
      r := Descend(s, code, ep', lo, top, step, rest[1..]);
    }

    lemma SpinState(code: seq<nat>, ep: nat, rest: seq<Item>, s: Text, lp: nat, b: seq<nat>, e: seq<nat>, goal: Outcome)
      requires State(code, ep, rest, s, lp, b, e, goal) && rest != [] && ItemOk(rest[0]) && Choices(rest[0], s, lp, b, e) == Spin
      ensures goal == Loops
    {
    }

    lemma Kinds(t: Item)
      requires ItemOk(t)
      ensures IsBranch(t) <==> OpOf(t) % 4 == STAR || OpOf(t) % 4 == RNGE
    {
    }

    lemma StateHead(code: seq<nat>, ep: nat, rest: seq<Item>, s: Text, lp: nat, goal: Outcome)
      requires Valid() && State(code, ep, rest, s, lp, braslist[..], braelist[..], goal)
      ensures ep < |code| && lp <= |s| && (rest == [] <==> code[ep] == CCEOF) && (rest == [] ==> goal == End(lp))
      ensures rest != [] ==> AtItem(code, ep, rest[0], s, lp) && InPlace(rest[0], s) && code[ep] == OpOf(rest[0])
      ensures rest != [] ==> (IsBranch(rest[0]) <==> code[ep] % 4 == STAR || code[ep] % 4 == RNGE)
    {
      HeadOp(code, ep, rest);
      if rest != [] {
        Kinds(rest[0]);
        if rest[0].Back? || rest[0].BackMany? {
          CapturedText(s, rest, braslist[..], braelist[..], lp, rest[0].n);
        }
      }
    }

    lemma LadderState(code: seq<nat>, ep: nat, rest: seq<Item>, s: Text, lp: nat, b: seq<nat>, e: seq<nat>, goal: Outcome,
                      lo: nat, hi: nat, step: nat)
      requires State(code, ep, rest, s, lp, b, e, goal) && rest != [] && ItemOk(rest[0])
      requires Choices(rest[0], s, lp, b, e) == Ladder(lo, hi, step) && !rest[0].Open? && !rest[0].Close?
      ensures ItemsOk(rest[1..]) && lo <= hi <= |s| && step > 0
      ensures State(code, ep + |EncodeItem(rest[0])|, rest[1..], s, lo, b, e, Try(rest[1..], s, lo, b, e))
      ensures TryDown(rest[1..], s, lo, hi, step, b, e) == goal
    {
      HeadOp(code, ep, rest);
      BoundedTail(rest, b, e, lp, lo, s);
    }

    method AdvanceAt(s: Text, p: nat, code: seq<nat>, ghost items: seq<Item>) returns (r: Outcome)
      requires Valid() && IsSubject(s) && p <= |s| && ItemsOk(items) && Balanced(items) && code == Encode(items)
      modifies this`loc2, this`low, this`size, braslist, braelist
      ensures r == OutcomeAt(items, s, p) && (r.End? ==> loc2 == r.at)
    {
      FreshStart(items, braslist[..], braelist[..], p, s);
      TryAgree(items, s, p, braslist[..], braelist[..], NoCaptures, NoCaptures);
      assert code[0..] == code;
      r := Advance(s, p, code, 0, items);
    }

    /** Behind a first operation CCHR only starts at that character can succeed. */
    lemma FastFails(s: Text, p: nat, code: seq<nat>, items: seq<Item>)
      requires IsSubject(s) && p <= |s| && ItemsOk(items) && code == Encode(items)
      ensures |code| > 0 && (code[0] == CCHR ==> |code| > 1 && (At(s, p) != code[1] ==> OutcomeAt(items, s, p) == Fail))
    {
      assert code[0..] == code;
      HeadOp(code, 0, items);
      if code[0] == CCHR {
        assert items[0].One? && items[0].a.Chr?;
        SliceAt(code, 0, EncodeItem(items[0]));
        assert code[0 + 1] == items[0].a.c;
        assert ItemOk(items[0]);
        if At(s, p) != code[1] {
          assert Choices(items[0], s, p, NoCaptures, NoCaptures) == NoWay;
        }
      }
    }

    /** What a search that begins at the first byte has found out. */
    ghost predicate FirstMatch(items: seq<Item>, s: Text, last: nat, r: Outcome)
      requires ItemsOk(items) && last <= |s|
      reads this
    {
      match r
      case Fail => FailsBefore(items, s, last + 1)
      case End(at) => loc1 <= last && loc2 == at && OutcomeAt(items, s, loc1) == r && FailsBefore(items, s, loc1)
      case Loops => exists p :: 0 <= p <= last && OutcomeAt(items, s, p) == Loops && FailsBefore(items, s, p)
    }

    /** `step`: the first start at which the compiled pattern matches. */
    method Step(s: Text, code: seq<nat>, circf: bool, ghost items: seq<Item>) returns (r: Outcome)
      requires Valid() && IsSubject(s) && ItemsOk(items) && Balanced(items) && code == Encode(items)
      modifies this, braslist, braelist
      ensures FirstMatch(items, s, if circf then 0 else |s|, r)
    {
      if circf {
        loc1 := 0;
        r := AdvanceAt(s, 0, code, items);
        return;
      }
      FastFails(s, 0, code, items);
      if code[0] == CCHR {
        r := FastStep(s, code, items);
      } else {
        r := PlainStep(s, code, items);
      }
    }

    /** The fast check for the first character. */
    method FastStep(s: Text, code: seq<nat>, ghost items: seq<Item>) returns (r: Outcome)
      requires Valid() && IsSubject(s) && ItemsOk(items) && Balanced(items) && code == Encode(items)
      requires |code| > 0 && code[0] == CCHR
      modifies this, braslist, braelist
      ensures FirstMatch(items, s, |s|, r)
    {
      FastFails(s, 0, code, items);
      var p1, c := 0, code[1];
      while p1 <= |s|
        invariant 0 <= p1 <= |s| + 1 && FailsBefore(items, s, p1)
      {
        FastFails(s, p1, code, items);
        if At(s, p1) == c {
          r := AdvanceAt(s, p1, code, items);
          if !r.Fail? {
            loc1 := p1;
            return;
          }
        }
        p1 := p1 + 1;
      }
      r := Fail;
    }

    /** The regular algorithm. */
    method PlainStep(s: Text, code: seq<nat>, ghost items: seq<Item>) returns (r: Outcome)
      requires Valid() && IsSubject(s) && ItemsOk(items) && Balanced(items) && code == Encode(items)
      modifies this, braslist, braelist
      ensures FirstMatch(items, s, |s|, r)
    {
      var p1 := 0;
      while p1 <= |s|
        invariant 0 <= p1 <= |s| + 1 && FailsBefore(items, s, p1)
      {
        r := AdvanceAt(s, p1, code, items);
        if !r.Fail? {
          loc1 := p1;
          return;
        }
        p1 := p1 + 1;
      }
      r := Fail;
    }
  }

  /** Where complete code matches at start p, said without the search. */
  ghost predicate MatchesAt(items: seq<Item>, s: Text, p: nat) {
    exists ks :: Parse(items, s, p, NoCaptures, NoCaptures, ks)
  }

  /** What `step` reports when it reports a match: the least start at which the operations match,
      and the end of the preferred way to match there.  Without a match there is none anywhere. */
  lemma StepMeans(items: seq<Item>, s: Text, p: nat)
    requires ItemsOk(items) && p <= |s| && !OutcomeAt(items, s, p).Loops?
    ensures OutcomeAt(items, s, p).End? <==> MatchesAt(items, s, p)
    ensures forall ks :: Best(items, s, p, NoCaptures, NoCaptures, ks) ==> OutcomeAt(items, s, p) == End(EndOf(p, ks))
  {
    TryPrefers(items, s, p, NoCaptures, NoCaptures);
    var r := OutcomeAt(items, s, p);
    forall ks | Best(items, s, p, NoCaptures, NoCaptures, ks) ensures r == End(EndOf(p, ks)) {
      if r.End? {
        var ls :| Best(items, s, p, NoCaptures, NoCaptures, ls) && EndOf(p, ls) == r.at;
        OneBest(ks, ls);
      }
    }
  }

  lemma {:induction false} OneBest(a: seq<nat>, b: seq<nat>)
    requires |a| == |b| && Prefers(a, b) && Prefers(b, a)
    ensures a == b
  {
    if a != [] {
      OneBest(a[1..], b[1..]);
      assert a == [a[0]] + a[1..] && b == [b[0]] + b[1..];
    }
  }

  // ---------------------------------------------------------------------
  // When the search goes on for ever
  // ---------------------------------------------------------------------

  /** A starred group may be empty: the pattern `\(a*\)\1*` on the empty line. */
  lemma EmptyGroupLoops(items: seq<Item>)
    requires items == [Open(0), Many(Chr(97)), Close(0), BackMany(0)]
    ensures Balanced(items) && OutcomeAt(items, [], 0) == Loops
  {
    EmptyGroupBalanced(items);
    var b, e, w := NoCaptures, NoCaptures, [0, 0, 0];
    EmptyGroupSpins(items, b, e, w);
    forall o | Parse(items, [], 0, b, e, o) ensures Prefers(w, o) { AllZero(items, b, e, o); }
    assert Caught(items, [], 0, b, e, w);
    LoopsExactly(items, [], 0, b, e);
  }

  lemma EmptyGroupBalanced(items: seq<Item>)
    requires items == [Open(0), Many(Chr(97)), Close(0), BackMany(0)]
    ensures Balanced(items)
  {
    assert items[1..] == [Many(Chr(97)), Close(0), BackMany(0)];
    assert items[1..][1..] == [Close(0), BackMany(0)];
    assert items[1..][1..][1..] == [BackMany(0)];
    assert Nested([BackMany(0)]);
    assert Nested([Close(0), BackMany(0)]);
    assert Nested([Many(Chr(97)), Close(0), BackMany(0)]);
    assert items[0] == Open(0) && items[2] == Close(0);
  }

  lemma EmptyGroupSpins(items: seq<Item>, b: seq<nat>, e: seq<nat>, w: seq<nat>)
    requires items == [Open(0), Many(Chr(97)), Close(0), BackMany(0)] && |b| == |e| == NBRA && w == [0, 0, 0]
    ensures Spins(items, [], 0, b, e, w)
  {
    assert w[1..] == [0, 0] && w[1..][1..] == [0] && w[1..][1..][1..] == [];
    assert items[1..] == [Many(Chr(97)), Close(0), BackMany(0)];
    assert items[1..][1..] == [Close(0), BackMany(0)];
    assert items[1..][1..][1..] == [BackMany(0)];
    assert Spins([BackMany(0)], [], 0, b[0 := 0], e[0 := 0], []);
    assert Spins([Close(0), BackMany(0)], [], 0, b[0 := 0], e, [0]);
    assert Spins([Many(Chr(97)), Close(0), BackMany(0)], [], 0, b[0 := 0], e, [0, 0]);
  }

  /** On the empty line a way stands still. */
  lemma {:induction false} AllZero(items: seq<Item>, b: seq<nat>, e: seq<nat>, o: seq<nat>)
    requires Parse(items, [], 0, b, e, o)
    ensures forall w :: |w| <= |o| && (forall x :: 0 <= x < |w| ==> w[x] == 0) ==> Prefers(w, o)
    decreases |items|
  {
    if items != [] {
      AllZero(items[1..], BrasAfter(items[0], 0, b), BraeAfter(items[0], 0, e), o[1..]);
      forall w: seq<nat> | |w| <= |o| && (forall x :: 0 <= x < |w| ==> w[x] == 0) ensures Prefers(w, o) {
        if w != [] { assert forall x :: 0 <= x < |w[1..]| ==> w[1..][x] == 0; }
      }
    }
  }

  /** What is known of the groups while the operations are gone through: which have grown since they were opened, and
      which were closed with something in them. */
  datatype Growth = Growth(grown: set<nat>, solid: set<nat>)

  const ALL: set<nat> := set n: nat | 0 <= n < NBRA

  function Grow(t: Item, g: Growth): Growth {
    match t
    case One(_) => g.(grown := ALL)
    case Rep(_, lo, _) => if lo > 0 then g.(grown := ALL) else g
    case Open(n) => Growth(g.grown - {n}, g.solid - {n})
    case Close(n) => g.(solid := if n in g.grown then g.solid + {n} else g.solid - {n})
    case Back(n) => if n in g.solid then g.(grown := ALL) else g
    case _ => g
  }

  /** Every starred reference is to a group in which some operation takes a character. */
  predicate Steady(items: seq<Item>, g: Growth) {
    items == [] || ((items[0].BackMany? ==> items[0].n in g.solid) && Steady(items[1..], Grow(items[0], g)))
  }

  /** What is known of the groups is so. */
  ghost predicate Knows(g: Growth, s: Text, i: nat, b: seq<nat>, e: seq<nat>) {
    && i <= |s| && |b| == |e| == NBRA
    && (forall n :: 0 <= n < NBRA ==> b[n] <= i)
    && (forall n :: n in g.grown && n < NBRA ==> b[n] < i)
    && (forall n :: n in g.solid ==> n < NBRA && b[n] < e[n] <= |s|)
  }

  lemma GrowKnows(t: Item, g: Growth, s: Text, i: nat, b: seq<nat>, e: seq<nat>, k: nat)
    requires ItemOk(t) && Knows(g, s, i, b, e) && Allowed(t, s, i, b, e, k)
    ensures Knows(Grow(t, g), s, k, BrasAfter(t, i, b), BraeAfter(t, i, e))
  {
  }

  lemma {:induction false} SteadyNeverSpins(items: seq<Item>, g: Growth, s: Text, i: nat, b: seq<nat>, e: seq<nat>, w: seq<nat>)
    requires ItemsOk(items) && Steady(items, g) && Knows(g, s, i, b, e)
    ensures !Spins(items, s, i, b, e, w)
    decreases |items|
  {
    if Spins(items, s, i, b, e, w) {
      var t := items[0];
      assert ItemOk(t);
      if w != [] {
        GrowKnows(t, g, s, i, b, e, w[0]);
        SteadyNeverSpins(items[1..], Grow(t, g), s, w[0], BrasAfter(t, i, b), BraeAfter(t, i, e), w[1..]);
      }
    }
  }

  /** Then the search ends on every subject. */
  lemma SteadyNeverLoops(items: seq<Item>, s: Text, p: nat)
    requires ItemsOk(items) && p <= |s| && Steady(items, Growth({}, {}))
    ensures !OutcomeAt(items, s, p).Loops?
  {
    LoopsExactly(items, s, p, NoCaptures, NoCaptures);
    forall w ensures !Caught(items, s, p, NoCaptures, NoCaptures, w) {
      SteadyNeverSpins(items, Growth({}, {}), s, p, NoCaptures, NoCaptures, w);
    }
  }

  /** Without starred references, from any start and with any captures, the search ends. */
  lemma NeverLoops(items: seq<Item>, s: Text, i: nat, b: seq<nat>, e: seq<nat>)
    requires ItemsOk(items) && i <= |s| && forall t :: t in items ==> !t.BackMany?
    ensures !Try(items, s, i, b, e).Loops?
  {
    LoopsExactly(items, s, i, b, e);
    forall w ensures !Caught(items, s, i, b, e, w) { NothingToSpin(items, s, i, b, e, w); }
  }

  lemma {:induction false} NothingToSpin(items: seq<Item>, s: Text, i: nat, b: seq<nat>, e: seq<nat>, w: seq<nat>)
    requires forall t :: t in items ==> !t.BackMany?
    ensures !Spins(items, s, i, b, e, w)
    decreases |w|
  {
    if items != [] && w != [] {
      NothingToSpin(items[1..], s, w[0], BrasAfter(items[0], i, b), BraeAfter(items[0], i, e), w[1..]);
    }
  }
}
