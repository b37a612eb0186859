/**
  The compiled form of ed-style regular expressions (regexp.h): operations, their byte
  encoding, and what a sequence of operations matches.

  A subject is a sequence of bytes 1..255; the terminating NUL is read as index |s|.
  Characters are unsigned, so that an upper bound of 255 reads as "no bound".
*/
module EdCode {

  const CBRA: nat := 2
  const CCHR: nat := 4
  const CDOT: nat := 8
  const CCL: nat := 12
  const CXCL: nat := 16
  const CDOL: nat := 20
  const CCEOF: nat := 22
  const CKET: nat := 24
  const CBACK: nat := 36
  const NCCL: nat := 40
  const STAR: nat := 1
  const RNGE: nat := 3
  const NBRA: nat := 9

  type Text = seq<nat>

  /** What one pattern character stands for. */
  datatype Atom =
    | Chr(c: nat)
    | Dot
    | Class(op: nat, bits: seq<nat>)

  datatype Item =
    | One(a: Atom)
    | Many(a: Atom)
    | Rep(a: Atom, lo: nat, hi: nat)
    | Open(n: nat)
    | Close(n: nat)
    | Back(n: nat)
    | BackMany(n: nat)
    | Eol

  // ---------------------------------------------------------------------
  // Atoms
  // ---------------------------------------------------------------------

  /** b & bittab[k] is not zero. */
  predicate Bit(b: nat, k: nat) {
    if k == 0 then b % 2 == 1 else Bit(b / 2, k - 1)
  }

  /** ISTHERE: bit c of a bitmap. */
  predicate IsThere(bits: seq<nat>, c: nat) {
    c / 8 < |bits| && Bit(bits[c / 8], c % 8)
  }

  /** Does the atom accept the byte `c`? */
  predicate Has(a: Atom, c: nat) {
    match a
    case Chr(d) => c == d
    case Dot => c != 0
    case Class(op, bits) =>
      if op == CXCL then IsThere(bits, c)
      else if op == CCL then c < 128 && IsThere(bits, c)
      else !(c < 128 && IsThere(bits, c))
  }

  /** Operand sizes are right, and the terminator is never accepted. */
  predicate AtomOk(a: Atom) {
    && !Has(a, 0)
    && match a
       case Chr(c) => c <= 255
       case Dot => true
       case Class(op, bits) => (op == CXCL && |bits| == 32) || ((op == CCL || op == NCCL) && |bits| == 16)
  }

  function AtomOp(a: Atom): nat {
    match a
    case Chr(_) => CCHR
    case Dot => CDOT
    case Class(op, _) => op
  }

  function Operand(a: Atom): seq<nat> {
    match a
    case Chr(c) => [c]
    case Dot => []
    case Class(_, bits) => bits
  }

  // ---------------------------------------------------------------------
  // Encoding
  // ---------------------------------------------------------------------

  predicate ItemOk(t: Item) {
    match t
    case One(a) => AtomOk(a)
    case Many(a) => AtomOk(a)
    case Rep(a, lo, hi) => AtomOk(a) && lo <= hi <= 255
    case Open(n) => n < NBRA
    case Close(n) => n < NBRA
    case Back(n) => n < NBRA
    case BackMany(n) => n < NBRA
    case Eol => true
  }

  ghost predicate ItemsOk(items: seq<Item>) {
    forall i :: 0 <= i < |items| ==> ItemOk(items[i])
  }

  function EncodeItem(t: Item): seq<nat> {
    match t
    case One(a) => [AtomOp(a)] + Operand(a)
    case Many(a) => [AtomOp(a) + STAR] + Operand(a)
    case Rep(a, lo, hi) => [AtomOp(a) + RNGE] + Operand(a) + [lo, hi]
    case Open(n) => [CBRA, n]
    case Close(n) => [CKET, n]
    case Back(n) => [CBACK, n]
    case BackMany(n) => [CBACK + STAR, n]
    case Eol => [CDOL]
  }

  function Encode(items: seq<Item>): seq<nat> {
    if items == [] then [CCEOF] else EncodeItem(items[0]) + Encode(items[1..])
  }

  // ---------------------------------------------------------------------
  // What a sequence of operations matches
  // ---------------------------------------------------------------------

  /** getrnge: how many repetitions beyond the lower bound are tried at most. */
  function Extra(lo: nat, hi: nat): nat
    requires lo <= hi
  {
    if hi == 255 then 20000 else hi - lo
  }

  /** s[i..k] consists of characters of the atom. */
  ghost predicate AllIn(a: Atom, s: Text, i: nat, k: nat)
    requires i <= k <= |s|
  {
    forall x :: i <= x < k ==> Has(a, s[x])
  }

  /** The text captured by group n. */
  function Captured(s: Text, b: seq<nat>, e: seq<nat>, n: nat): Text {
    if n < |b| && n < |e| && b[n] <= e[n] <= |s| then s[b[n]..e[n]] else []
  }

  /** s[i..k] is the text t repeated any number of times. */
  ghost predicate Repeated(t: Text, s: Text, i: nat, k: nat)
    requires i <= k <= |s|
    decreases k - i
  {
    i == k || (0 < |t| <= k - i && s[i..i + |t|] == t && Repeated(t, s, i + |t|, k))
  }

  /** One operation may take the match from i to k. */
  ghost predicate Allowed(t: Item, s: Text, i: nat, b: seq<nat>, e: seq<nat>, k: nat) {
    && i <= k <= |s|
    && match t
       case One(a) => k == i + 1 && Has(a, s[i])
       case Many(a) => AllIn(a, s, i, k)
       case Rep(a, lo, hi) => lo <= hi && lo <= k - i <= (if hi == 255 then lo + 20000 else hi) && AllIn(a, s, i, k)
       case Open(_) => k == i
       case Close(_) => k == i
       case Back(n) => s[i..k] == Captured(s, b, e, n)
       case BackMany(n) => Repeated(Captured(s, b, e, n), s, i, k)
       case Eol => k == i == |s|
  }

  /** In a line of up to 20000 characters a count has its lower and its upper bound, where 255 is no bound. */
  lemma CountAllows(a: Atom, lo: nat, hi: nat, s: Text, i: nat, b: seq<nat>, e: seq<nat>, k: nat)
    requires lo <= hi && i <= k <= |s| <= 20000
    ensures Allowed(Rep(a, lo, hi), s, i, b, e, k)
            <==> lo <= k - i && (k - i <= hi || hi == 255) && forall x :: i <= x < k ==> Has(a, s[x])
  {
  }

  /** The group starts and ends after an operation. */
  function BrasAfter(t: Item, i: nat, b: seq<nat>): seq<nat> {
    if t.Open? && t.n < |b| then b[t.n := i] else b
  }

  function BraeAfter(t: Item, i: nat, e: seq<nat>): seq<nat> {
    if t.Close? && t.n < |e| then e[t.n := i] else e
  }

  /** A way to match: ks[j] is where the match stands after operation j. */
  ghost predicate Parse(items: seq<Item>, s: Text, i: nat, b: seq<nat>, e: seq<nat>, ks: seq<nat>)
    decreases |items|
  {
    |ks| == |items| &&
    (items == [] ||
       (Allowed(items[0], s, i, b, e, ks[0]) &&
        Parse(items[1..], s, ks[0], BrasAfter(items[0], i, b), BraeAfter(items[0], i, e), ks[1..])))
  }

  function EndOf(i: nat, ks: seq<nat>): nat {
    if ks == [] then i else ks[|ks| - 1]
  }

  /** A way to a starred reference to an empty group: ks[j] is where the match stands after operation j, and the
      reference is the operation behind the last of them. */
  ghost predicate Spins(items: seq<Item>, s: Text, i: nat, b: seq<nat>, e: seq<nat>, ks: seq<nat>)
    decreases |items|
  {
    items != [] &&
    if ks == [] then items[0].BackMany? && Captured(s, b, e, items[0].n) == []
    else
      && |ks| < |items| && Allowed(items[0], s, i, b, e, ks[0])
      && Spins(items[1..], s, ks[0], BrasAfter(items[0], i, b), BraeAfter(items[0], i, e), ks[1..])
  }

  /** a comes first when longer repetitions are tried first, earlier operations before later ones. */
  predicate Prefers(a: seq<nat>, b: seq<nat>)
    requires |a| <= |b|
  {
    a == [] || a[0] > b[0] || (a[0] == b[0] && Prefers(a[1..], b[1..]))
  }

  // ---------------------------------------------------------------------
  // The search in the order of the matcher, carrying captures functionally
  // ---------------------------------------------------------------------

  /** Loops: a starred reference to an empty capture is repeated for ever. */
  datatype Outcome = Fail | End(at: nat) | Loops

  /** How many characters of the atom follow i, counting up to `limit`. */
  function Span(a: Atom, s: Text, i: nat, limit: nat): (r: nat)
    requires i <= |s|
    ensures r <= limit && i + r <= |s| && AllIn(a, s, i, i + r)
    ensures r < limit && i + r < |s| ==> !Has(a, s[i + r])
    decreases |s| - i
  {
    if limit > 0 && i < |s| && Has(a, s[i]) then 1 + Span(a, s, i + 1, limit - 1) else 0
  }

  /** How far repeated copies of t reach from i. */
  function Copies(t: Text, s: Text, i: nat): (r: nat)
    requires i <= |s| && |t| > 0
    ensures i <= r <= |s|
    decreases |s| - i
  {
    if i + |t| <= |s| && s[i..i + |t|] == t then Copies(t, s, i + |t|) else i
  }

  /** k is one of hi, hi - step, ... that are not below lo. */
  ghost predicate Rung(lo: nat, hi: nat, step: nat, k: nat)
    requires lo <= hi && step > 0
    decreases hi
  {
    k == hi || (lo + step <= hi && Rung(lo, hi - step, step, k))
  }

  /** Where an operation may take the match: nowhere, round and round, or to one of
      hi, hi - step, ..., not below lo, tried in this order. */
  datatype Choice = NoWay | Spin | Ladder(lo: nat, hi: nat, step: nat)

  function Choices(t: Item, s: Text, i: nat, b: seq<nat>, e: seq<nat>): (c: Choice)
    requires ItemOk(t) && i <= |s|
    ensures c.Ladder? ==> i <= c.lo <= c.hi <= |s| && c.step > 0
  {
    ChoicesFor(t, s, i, if t.Back? || t.BackMany? then Captured(s, b, e, t.n) else [])
  }

  /** u is the text of the group that t refers to. */
  function ChoicesFor(t: Item, s: Text, i: nat, u: Text): (c: Choice)
    requires ItemOk(t) && i <= |s|
    ensures c.Ladder? ==> i <= c.lo <= c.hi <= |s| && c.step > 0
  {
    match t
    case One(a) => if i < |s| && Has(a, s[i]) then Ladder(i + 1, i + 1, 1) else NoWay
    case Many(a) => Ladder(i, i + Span(a, s, i, |s| - i), 1)
    case Rep(a, m, n) =>
      if Span(a, s, i, m) < m then NoWay
      else Ladder(i + m, i + m + Span(a, s, i + m, Extra(m, n)), 1)
    case Open(_) => Ladder(i, i, 1)
    case Close(_) => Ladder(i, i, 1)
    case Back(_) => if i + |u| <= |s| && s[i..i + |u|] == u then Ladder(i + |u|, i + |u|, 1) else NoWay
    case BackMany(_) => if u == [] then Spin else Ladder(i, Copies(u, s, i), |u|)
    case Eol => if i == |s| then Ladder(i, i, 1) else NoWay
  }

  function Try(items: seq<Item>, s: Text, i: nat, b: seq<nat>, e: seq<nat>): Outcome
    requires ItemsOk(items) && i <= |s|
    decreases |items|, 1, 0
  {
    if items == [] then End(i) else
    assert ItemOk(items[0]);
    match Choices(items[0], s, i, b, e)
    case NoWay => Fail
    case Spin => Loops
    case Ladder(lo, hi, step) =>
      TryDown(items[1..], s, lo, hi, step, BrasAfter(items[0], i, b), BraeAfter(items[0], i, e))
  }

  /** The code at `star`: hi, hi - step, ... down to lo. */
  function TryDown(rest: seq<Item>, s: Text, lo: nat, hi: nat, step: nat, b: seq<nat>, e: seq<nat>): Outcome
    requires ItemsOk(rest) && lo <= hi <= |s| && step > 0
    decreases |rest|, 2, hi
  {
    var r := Try(rest, s, hi, b, e);
    if r.Fail? && lo + step <= hi then TryDown(rest, s, lo, hi - step, step, b, e) else r
  }

  // ---------------------------------------------------------------------
  // The choices are the allowed ends
  // ---------------------------------------------------------------------

  lemma {:induction false} RungRange(lo: nat, hi: nat, step: nat, k: nat)
    requires lo <= hi && step > 0 && Rung(lo, hi, step, k)
    ensures lo <= k <= hi
    decreases hi
  {
    if k != hi { RungRange(lo, hi - step, step, k); }
  }

  lemma {:induction false} RungByOne(lo: nat, hi: nat, k: nat)
    requires lo <= hi
    ensures Rung(lo, hi, 1, k) <==> lo <= k <= hi
    decreases hi
  {
    if lo < hi { RungByOne(lo, hi - 1, k); }
  }

  lemma {:induction false} RungExtend(lo: nat, hi: nat, step: nat, k: nat)
    requires step > 0 && lo + step <= hi && Rung(lo + step, hi, step, lo + step)
    ensures Rung(lo, hi, step, k) <==> k == lo || Rung(lo + step, hi, step, k)
    decreases hi
  {
    if hi == lo + step {
      assert Rung(lo, lo, step, k) <==> k == lo;
    } else {
      RungExtend(lo, hi - step, step, k);
    }
  }

  lemma {:induction false} CopiesMeans(t: Text, s: Text, i: nat, k: nat)
    requires i <= |s| && |t| > 0
    ensures i <= k <= |s| && Repeated(t, s, i, k) <==> Rung(i, Copies(t, s, i), |t|, k)
    decreases |s| - i
  {
    var h := Copies(t, s, i);
    if i + |t| <= |s| && s[i..i + |t|] == t {
      CopiesMeans(t, s, i + |t|, k);
      CopiesMeans(t, s, i + |t|, i + |t|);
      RungExtend(i, h, |t|, k);
      if Rung(i + |t|, h, |t|, k) { RungRange(i + |t|, h, |t|, k); }
    }
  }

  lemma SpanMeans(a: Atom, s: Text, i: nat, limit: nat, k: nat)
    requires i <= |s|
    ensures i <= k <= |s| && k - i <= limit && AllIn(a, s, i, k) <==> i <= k <= i + Span(a, s, i, limit)
  {
  }

  lemma RepExtent(a: Atom, m: nat, x: nat, s: Text, i: nat, k: nat)
    requires i <= |s| && Span(a, s, i, m) == m
    ensures i + m <= k <= i + m + x && k <= |s| && AllIn(a, s, i, k) <==> Rung(i + m, i + m + Span(a, s, i + m, x), 1, k)
  {
    SpanMeans(a, s, i + m, x, k);
    RungByOne(i + m, i + m + Span(a, s, i + m, x), k);
    assert AllIn(a, s, i, i + m);
  }

  /** An operation may end exactly where its ladder has a rung. */
  ghost predicate Means(c: Choice, t: Item, s: Text, i: nat, b: seq<nat>, e: seq<nat>, k: nat) {
    match c
    case NoWay => !Allowed(t, s, i, b, e, k)
    case Spin => t.BackMany? && Captured(s, b, e, t.n) == []
    case Ladder(lo, hi, step) => lo <= hi && step > 0 && (Allowed(t, s, i, b, e, k) <==> Rung(lo, hi, step, k))
  }

  lemma RepMeans(t: Item, s: Text, i: nat, b: seq<nat>, e: seq<nat>, k: nat)
    requires ItemOk(t) && i <= |s| && t.Rep?
    ensures Means(Choices(t, s, i, b, e), t, s, i, b, e, k)
  {
    var Rep(a, m, n) := t;
    SpanMeans(a, s, i, m, i + m);
    if Span(a, s, i, m) == m { RepExtent(a, m, Extra(m, n), s, i, k); }
  }

  lemma BackMeans(t: Item, s: Text, i: nat, b: seq<nat>, e: seq<nat>, k: nat)
    requires ItemOk(t) && i <= |s| && (t.Back? || t.BackMany?)
    ensures Means(Choices(t, s, i, b, e), t, s, i, b, e, k)
  {
    var u := Captured(s, b, e, t.n);
    if t.Back? {
      assert i <= k <= |s| && s[i..k] == u ==> k == i + |u|;
    } else if u != [] {
      CopiesMeans(u, s, i, k);
    }
  }

  lemma ChoicesMean(t: Item, s: Text, i: nat, b: seq<nat>, e: seq<nat>, k: nat)
    requires ItemOk(t) && i <= |s|
    ensures Means(Choices(t, s, i, b, e), t, s, i, b, e, k)
  {
    match t
    case Many(a) =>
      SpanMeans(a, s, i, |s| - i, k);
      RungByOne(i, i + Span(a, s, i, |s| - i), k);
    case Rep(_, _, _) => RepMeans(t, s, i, b, e, k);
    case Back(_) => BackMeans(t, s, i, b, e, k);
    case BackMany(_) => BackMeans(t, s, i, b, e, k);
    case _ =>
  }

  // ---------------------------------------------------------------------
  // The search finds the preferred way to match
  // ---------------------------------------------------------------------

  /** The outcome of the search, said without it. */
  ghost predicate Preferred(items: seq<Item>, s: Text, i: nat, b: seq<nat>, e: seq<nat>, r: Outcome) {
    match r
    case Fail => Hopeless(items, s, i, b, e)
    case End(at) => exists ks :: Best(items, s, i, b, e, ks) && EndOf(i, ks) == at
    case Loops => exists w :: Caught(items, s, i, b, e, w)
  }

  /** There is no way to match, and none to an endless repetition. */
  ghost predicate Hopeless(items: seq<Item>, s: Text, i: nat, b: seq<nat>, e: seq<nat>) {
    (forall ks :: !Parse(items, s, i, b, e, ks)) && (forall w :: !Spins(items, s, i, b, e, w))
  }

  /** ks is tried before all other ways to match, and before all ways to an endless repetition. */
  ghost predicate Best(items: seq<Item>, s: Text, i: nat, b: seq<nat>, e: seq<nat>, ks: seq<nat>) {
    && Parse(items, s, i, b, e, ks)
    && (forall o :: Parse(items, s, i, b, e, o) ==> Prefers(ks, o))
    && (forall w :: Spins(items, s, i, b, e, w) ==> !Prefers(w, ks))
  }

  /** w leads to an endless repetition, and is tried before all ways to match. */
  ghost predicate Caught(items: seq<Item>, s: Text, i: nat, b: seq<nat>, e: seq<nat>, w: seq<nat>) {
    Spins(items, s, i, b, e, w) && forall o :: Parse(items, s, i, b, e, o) ==> Prefers(w, o)
  }

  /** The same among the ways whose first operation ends at `hi` or before. */
  ghost predicate PreferredUpTo(items: seq<Item>, s: Text, i: nat, b: seq<nat>, e: seq<nat>, hi: nat, r: Outcome)
    requires items != []
  {
    match r
    case Fail => (forall ks :: Parse(items, s, i, b, e, ks) ==> ks[0] > hi) && NoSpin(items, s, i, b, e, 0, hi + 1)
    case End(at) => exists ks :: BestUpTo(items, s, i, b, e, hi, ks) && EndOf(i, ks) == at
    case Loops => exists w :: CaughtUpTo(items, s, i, b, e, hi, w)
  }

  ghost predicate BestUpTo(items: seq<Item>, s: Text, i: nat, b: seq<nat>, e: seq<nat>, hi: nat, ks: seq<nat>)
    requires items != []
  {
    && Parse(items, s, i, b, e, ks)
    && (forall o :: Parse(items, s, i, b, e, o) && o[0] <= hi ==> Prefers(ks, o))
    && (forall w :: Spins(items, s, i, b, e, w) && (w == [] || w[0] <= hi) ==> !Prefers(w, ks))
  }

  ghost predicate CaughtUpTo(items: seq<Item>, s: Text, i: nat, b: seq<nat>, e: seq<nat>, hi: nat, w: seq<nat>)
    requires items != []
  {
    Spins(items, s, i, b, e, w) && forall o :: Parse(items, s, i, b, e, o) && o[0] <= hi ==> Prefers(w, o)
  }

  /** No way to an endless repetition whose first operation ends from lo on and in front of hi, or that has none. */
  ghost predicate NoSpin(items: seq<Item>, s: Text, i: nat, b: seq<nat>, e: seq<nat>, lo: nat, hi: nat) {
    forall w :: Spins(items, s, i, b, e, w) ==> w != [] && !(lo <= w[0] < hi)
  }

  /** Taking the longest choice first finds the preferred way. */
  lemma {:induction false} DownPrefers(items: seq<Item>, s: Text, i: nat, b: seq<nat>, e: seq<nat>, lo: nat, hi: nat, step: nat)
    requires ItemsOk(items) && items != [] && lo <= hi <= |s| && step > 0
    requires forall k :: 0 <= k <= hi ==> (Allowed(items[0], s, i, b, e, k) <==> Rung(lo, hi, step, k))
    requires !Spins(items, s, i, b, e, [])
    ensures PreferredUpTo(items, s, i, b, e, hi,
                          TryDown(items[1..], s, lo, hi, step, BrasAfter(items[0], i, b), BraeAfter(items[0], i, e)))
    decreases |items|, 0, hi, 0
  {
    var rest, b', e' := items[1..], BrasAfter(items[0], i, b), BraeAfter(items[0], i, e);
    var r := Try(rest, s, hi, b', e');
    TryPrefers(rest, s, hi, b', e');
    assert Allowed(items[0], s, i, b, e, hi);
    if r.Fail? {
      DownFails(items, s, i, b, e, hi);
      if lo + step <= hi {
        forall k: nat | 0 <= k < hi ensures Rung(lo, hi, step, k) ==> k <= hi - step {
          if Rung(lo, hi, step, k) { RungRange(lo, hi - step, step, k); }
        }
        Gap(items, s, i, b, e, hi - step, hi);
        DownOnward(items, s, i, b, e, lo, hi, step);
      }
    } else if r.End? {
      DownBest(items, s, i, b, e, hi, r.at);
    } else {
      DownCaught(items, s, i, b, e, hi);
    }
  }

  /** The next rung, when there is nothing above it. */
  lemma {:induction false} DownOnward(items: seq<Item>, s: Text, i: nat, b: seq<nat>, e: seq<nat>, lo: nat, hi: nat, step: nat)
    requires ItemsOk(items) && items != [] && lo + step <= hi <= |s| && step > 0 && !Spins(items, s, i, b, e, [])
    requires forall k :: 0 <= k <= hi - step ==> (Allowed(items[0], s, i, b, e, k) <==> Rung(lo, hi - step, step, k))
    requires forall ks :: Parse(items, s, i, b, e, ks) && ks[0] <= hi ==> ks[0] <= hi - step
    requires NoSpin(items, s, i, b, e, hi - step + 1, hi + 1)
    ensures PreferredUpTo(items, s, i, b, e, hi,
                          TryDown(items[1..], s, lo, hi - step, step, BrasAfter(items[0], i, b), BraeAfter(items[0], i, e)))
    decreases |items|, 0, hi - step, 1
  {
    DownPrefers(items, s, i, b, e, lo, hi - step, step);
    Extend(items, s, i, b, e, hi - step, hi,
           TryDown(items[1..], s, lo, hi - step, step, BrasAfter(items[0], i, b), BraeAfter(items[0], i, e)));
  }

  lemma DownFails(items: seq<Item>, s: Text, i: nat, b: seq<nat>, e: seq<nat>, hi: nat)
    requires items != [] && Preferred(items[1..], s, hi, BrasAfter(items[0], i, b), BraeAfter(items[0], i, e), Fail)
    requires !Spins(items, s, i, b, e, [])
    ensures forall ks :: Parse(items, s, i, b, e, ks) ==> ks[0] != hi
    ensures NoSpin(items, s, i, b, e, hi, hi + 1)
  {
    forall ks | Parse(items, s, i, b, e, ks) ensures ks[0] != hi {
      assert !Parse(items[1..], s, hi, BrasAfter(items[0], i, b), BraeAfter(items[0], i, e), ks[1..]);
    }
    forall w | Spins(items, s, i, b, e, w) ensures w != [] && w[0] != hi {
      assert !Spins(items[1..], s, hi, BrasAfter(items[0], i, b), BraeAfter(items[0], i, e), w[1..]);
    }
  }

  lemma Gap(items: seq<Item>, s: Text, i: nat, b: seq<nat>, e: seq<nat>, h: nat, hi: nat)
    requires items != [] && forall k :: h < k < hi ==> !Allowed(items[0], s, i, b, e, k)
    requires (forall ks :: Parse(items, s, i, b, e, ks) ==> ks[0] != hi) && NoSpin(items, s, i, b, e, hi, hi + 1)
    ensures forall ks :: Parse(items, s, i, b, e, ks) && ks[0] <= hi ==> ks[0] <= h
    ensures NoSpin(items, s, i, b, e, h + 1, hi + 1)
  {
    forall w | Spins(items, s, i, b, e, w) ensures w != [] && !(h + 1 <= w[0] < hi + 1) {
      assert w != [] && Allowed(items[0], s, i, b, e, w[0]);
    }
  }

  /** Between h and hi no way begins. */
  lemma Extend(items: seq<Item>, s: Text, i: nat, b: seq<nat>, e: seq<nat>, h: nat, hi: nat, r: Outcome)
    requires items != [] && PreferredUpTo(items, s, i, b, e, h, r)
    requires forall ks :: Parse(items, s, i, b, e, ks) && ks[0] <= hi ==> ks[0] <= h
    requires NoSpin(items, s, i, b, e, h + 1, hi + 1)
    ensures PreferredUpTo(items, s, i, b, e, hi, r)
  {
    match r
    case Fail =>
    case End(at) =>
      var ks :| BestUpTo(items, s, i, b, e, h, ks) && EndOf(i, ks) == at;
      assert BestUpTo(items, s, i, b, e, hi, ks);
    case Loops =>
      var w :| CaughtUpTo(items, s, i, b, e, h, w);
      assert CaughtUpTo(items, s, i, b, e, hi, w);
  }

  lemma DownBest(items: seq<Item>, s: Text, i: nat, b: seq<nat>, e: seq<nat>, hi: nat, at: nat)
    requires items != [] && Allowed(items[0], s, i, b, e, hi) && !Spins(items, s, i, b, e, [])
    requires Preferred(items[1..], s, hi, BrasAfter(items[0], i, b), BraeAfter(items[0], i, e), End(at))
    ensures PreferredUpTo(items, s, i, b, e, hi, End(at))
  {
    var rest, b', e' := items[1..], BrasAfter(items[0], i, b), BraeAfter(items[0], i, e);
    var ks :| Best(rest, s, hi, b', e', ks) && EndOf(hi, ks) == at;
    var all := [hi] + ks;
    assert all[1..] == ks;
    forall o | Parse(items, s, i, b, e, o) && o[0] <= hi ensures Prefers(all, o) {
      if o[0] == hi { assert Prefers(ks, o[1..]); }
    }
    forall w | Spins(items, s, i, b, e, w) && (w == [] || w[0] <= hi) ensures !Prefers(w, all) {
      if w[0] == hi { assert Spins(rest, s, hi, b', e', w[1..]); }
    }
    assert Parse(items, s, i, b, e, all) && EndOf(i, all) == at;
    assert BestUpTo(items, s, i, b, e, hi, all);
  }

  lemma DownCaught(items: seq<Item>, s: Text, i: nat, b: seq<nat>, e: seq<nat>, hi: nat)
    requires items != [] && Allowed(items[0], s, i, b, e, hi)
    requires Preferred(items[1..], s, hi, BrasAfter(items[0], i, b), BraeAfter(items[0], i, e), Loops)
    ensures PreferredUpTo(items, s, i, b, e, hi, Loops)
  {
    var rest, b', e' := items[1..], BrasAfter(items[0], i, b), BraeAfter(items[0], i, e);
    var w :| Caught(rest, s, hi, b', e', w);
    var all := [hi] + w;
    assert all[1..] == w;
    forall o | Parse(items, s, i, b, e, o) && o[0] <= hi ensures Prefers(all, o) {
      if o[0] == hi { assert Prefers(w, o[1..]); }
    }
    assert CaughtUpTo(items, s, i, b, e, hi, all);
  }

  lemma Complete(items: seq<Item>, s: Text, i: nat, b: seq<nat>, e: seq<nat>, hi: nat, r: Outcome)
    requires items != [] && PreferredUpTo(items, s, i, b, e, hi, r) && !Spins(items, s, i, b, e, [])
    requires forall k: nat :: Allowed(items[0], s, i, b, e, k) ==> k <= hi
    ensures Preferred(items, s, i, b, e, r)
  {
    forall w | Spins(items, s, i, b, e, w) ensures w != [] && w[0] <= hi {}
    match r
    case Fail =>
    case End(at) =>
      var ks :| BestUpTo(items, s, i, b, e, hi, ks) && EndOf(i, ks) == at;
      assert Best(items, s, i, b, e, ks);
    case Loops =>
      var w :| CaughtUpTo(items, s, i, b, e, hi, w);
      assert Caught(items, s, i, b, e, w);
  }

  /** The search finds the preferred way to match, if there is one. */
  lemma {:induction false} TryPrefers(items: seq<Item>, s: Text, i: nat, b: seq<nat>, e: seq<nat>)
    requires ItemsOk(items) && i <= |s|
    ensures Preferred(items, s, i, b, e, Try(items, s, i, b, e))
    decreases |items|, 3, 0
  {
    if items == [] {
      assert Best(items, s, i, b, e, []);
    } else {
      var t := items[0];
      assert ItemOk(t);
      match Choices(t, s, i, b, e)
      case NoWay =>
        assert !t.BackMany?;
        forall k: nat ensures !Allowed(t, s, i, b, e, k) { ChoicesMean(t, s, i, b, e, k); }
      case Spin =>
        ChoicesMean(t, s, i, b, e, i);
        assert Caught(items, s, i, b, e, []);
      case Ladder(lo, hi, step) =>
        assert !(t.BackMany? && Captured(s, b, e, t.n) == []);
        forall k: nat ensures Allowed(t, s, i, b, e, k) <==> Rung(lo, hi, step, k) { ChoicesMean(t, s, i, b, e, k); }
        DownPrefers(items, s, i, b, e, lo, hi, step);
        forall k: nat | Allowed(t, s, i, b, e, k) ensures k <= hi { RungRange(lo, hi, step, k); }
        Complete(items, s, i, b, e, hi, Try(items, s, i, b, e));
    }
  }

  /** The search goes on for ever exactly when a way to an endless repetition is tried before all ways to match; and
      it fails exactly when there are neither. */
  lemma LoopsExactly(items: seq<Item>, s: Text, i: nat, b: seq<nat>, e: seq<nat>)
    requires ItemsOk(items) && i <= |s|
    ensures Try(items, s, i, b, e).Loops? <==> exists w :: Caught(items, s, i, b, e, w)
    ensures Try(items, s, i, b, e).Fail? <==> Hopeless(items, s, i, b, e)
  {
    TryPrefers(items, s, i, b, e);
    match Try(items, s, i, b, e)
    case Fail =>
    case End(at) =>
      var ks :| Best(items, s, i, b, e, ks) && EndOf(i, ks) == at;
      assert Parse(items, s, i, b, e, ks);
    case Loops =>
      var w :| Caught(items, s, i, b, e, w);
      assert Spins(items, s, i, b, e, w);
  }
}
