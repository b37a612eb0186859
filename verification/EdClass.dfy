/**
  Bracket classes of regexp.h: the bitmap that `compile` builds for [...] and [^...].
*/
module EdClass {
  import opened EdCode
  import opened Sequences

  const DASH: nat := 45
  const CARET: nat := 94
  const RBRACK: nat := 93
  const NEWLINE: nat := 10

  // ---------------------------------------------------------------------
  // Bits of a byte
  // ---------------------------------------------------------------------

  /** b | bittab[k] */
  function OrBit(b: nat, k: nat): (r: nat) {
    if k == 0 then (if b % 2 == 1 then b else b + 1) else 2 * OrBit(b / 2, k - 1) + b % 2
  }

  /** The low w bits of b, complemented; b ^ 0377 for w == 8. */
  function Flip(b: nat, w: nat): (r: nat) {
    if w == 0 then 0 else 2 * Flip(b / 2, w - 1) + (1 - b % 2)
  }

  lemma {:induction false} OrBitMeans(b: nat, k: nat, j: nat)
    ensures Bit(OrBit(b, k), j) <==> j == k || Bit(b, j)
  {
    if k > 0 {
      assert OrBit(b, k) / 2 == OrBit(b / 2, k - 1) && OrBit(b, k) % 2 == b % 2;
      if j > 0 { OrBitMeans(b / 2, k - 1, j - 1); }
    } else if j > 0 {
      assert OrBit(b, 0) / 2 == b / 2;
    }
  }

  lemma {:induction false} FlipMeans(b: nat, w: nat, j: nat)
    requires j < w
    ensures Bit(Flip(b, w), j) <==> !Bit(b, j)
  {
    assert Flip(b, w) / 2 == Flip(b / 2, w - 1) && Flip(b, w) % 2 == 1 - b % 2;
    if j > 0 { FlipMeans(b / 2, w - 1, j - 1); }
  }

  // ---------------------------------------------------------------------
  // Bitmaps
  // ---------------------------------------------------------------------

  /** PLACE(c) */
  function Place(bits: seq<nat>, c: nat): (r: seq<nat>)
    requires c / 8 < |bits|
    ensures |r| == |bits|
  {
    bits[c / 8 := OrBit(bits[c / 8], c % 8)]
  }

  /** The bitmap holds exactly the members. */
  ghost predicate Holds(bits: seq<nat>, members: set<nat>) {
    forall c: nat :: c < 8 * |bits| ==> (IsThere(bits, c) <==> c in members)
  }

  lemma PlaceHolds(bits: seq<nat>, c: nat, members: set<nat>)
    requires Holds(bits, members) && c / 8 < |bits|
    ensures Holds(Place(bits, c), members + {c})
  {
    forall d: nat | d < 8 * |bits| ensures IsThere(Place(bits, c), d) <==> d in members + {c} {
      OrBitMeans(bits[c / 8], c % 8, d % 8);
      assert IsThere(bits, d) <==> d in members;
    }
  }

  const Zeros16: seq<nat> := [0, 0, 0, 0, 0, 0, 0, 0, 0, 0, 0, 0, 0, 0, 0, 0]

  lemma {:induction false} ZeroBits(k: nat)
    ensures !Bit(0, k)
  {
    if k > 0 { ZeroBits(k - 1); }
  }

  lemma EmptyHolds()
    ensures Holds(Zeros16, {})
  {
    forall c: nat | c < 128 ensures !IsThere(Zeros16, c) { ZeroBits(c % 8); }
  }

  /** Sixteen more bytes, for the characters from 128 on. */
  lemma WidenHolds(bits: seq<nat>, members: set<nat>)
    requires |bits| == 16 && Holds(bits, members) && forall c :: c in members ==> c < 128
    ensures Holds(bits + Zeros16, members)
  {
    forall c: nat | c < 256 ensures IsThere(bits + Zeros16, c) <==> c in members {
      if c < 128 { assert IsThere(bits, c) <==> c in members; } else { ZeroBits(c % 8); }
    }
  }

  // ---------------------------------------------------------------------
  // What a bracket means
  // ---------------------------------------------------------------------

  function Range(lo: nat, hi: nat): (r: set<nat>)
    ensures forall x :: x in r <==> lo <= x < hi
    decreases hi - lo
  {
    if lo < hi then {lo} + Range(lo + 1, hi) else {}
  }

  /** The members of a bracket whose text (without [, ^ and ]) is cs; lc is the character before,
      or 0.  A dash between two characters is a range, at either end it stands for itself. */
  function Members(cs: seq<nat>, lc: nat): set<nat> {
    if cs == [] then {}
    else if cs[0] == DASH && lc != 0 then
      if |cs| == 1 then {DASH}
      else Range(lc, cs[1]) + {cs[1]} + Members(cs[2..], cs[1])
    else {cs[0]} + Members(cs[1..], cs[0])
  }

  /** What a bracket is made of: characters and ranges. */
  datatype Entry = Single(c: nat) | From(lo: nat, hi: nat)

  function EntryText(e: Entry): seq<nat> {
    match e case Single(c) => [c] case From(lo, hi) => [lo, 45, hi]
  }

  function EntriesText(es: seq<Entry>): seq<nat> {
    if es == [] then [] else EntryText(es[0]) + EntriesText(es[1..])
  }

  ghost predicate EntryOk(e: Entry) {
    match e case Single(c) => c > 0 && c != 45 case From(lo, hi) => lo > 0 && hi > 0 && lo != 45
  }

  ghost predicate Names(e: Entry, c: nat) {
    match e case Single(d) => c == d case From(lo, hi) => lo <= c <= hi || c == lo || c == hi
  }

  /** The members are the characters named and those in the ranges, both ends included; a dash at the end is one, too. */
  lemma {:induction false} MembersMean(es: seq<Entry>, lc: nat, dash: bool, c: nat)
    requires (forall i :: 0 <= i < |es| ==> EntryOk(es[i])) && (es == [] ==> lc != 0)
    ensures c in Members(EntriesText(es) + (if dash then [45] else []), lc)
            <==> (dash && c == 45) || exists i :: 0 <= i < |es| && Names(es[i], c)
  {
    var tail: seq<nat> := if dash then [45] else [];
    if es != [] {
      var e, rest := es[0], EntriesText(es[1..]) + tail;
      Assoc(EntryText(e), EntriesText(es[1..]), tail);
      var last := if e.Single? then e.c else e.hi;
      MembersMean(es[1..], last, dash, c);
      EntryMembers(e, rest, lc, c);
      assert (exists i :: 0 <= i < |es| && Names(es[i], c)) <==> Names(e, c) || exists i :: 0 <= i < |es[1..]| && Names(es[1..][i], c) by {
        if i :| 0 < i < |es| && Names(es[i], c) { assert es[1..][i - 1] == es[i]; }
        if i :| 0 <= i < |es[1..]| && Names(es[1..][i], c) { assert es[i + 1] == es[1..][i]; }
      }
    }
  }

  /** One entry in front. */
  lemma EntryMembers(e: Entry, rest: seq<nat>, lc: nat, c: nat)
    requires EntryOk(e)
    ensures c in Members(EntryText(e) + rest, lc) <==> Names(e, c) || c in Members(rest, if e.Single? then e.c else e.hi)
  {
    var t := EntryText(e) + rest;
    if e.Single? {
      assert t[1..] == rest;
    } else {
      var u := [45, e.hi] + rest;
      assert t[1..] == u && u[2..] == rest;
    }
  }

  /** The text of a bracket: bytes, no newline, a closing bracket only in front. */
  predicate BracketText(cs: seq<nat>) {
    cs != [] && forall i :: 0 <= i < |cs| ==> 1 <= cs[i] <= 255 && cs[i] != NEWLINE && (cs[i] == RBRACK ==> i == 0)
  }

  /** The atom of a bracket. */
  ghost predicate IsBracket(a: Atom, neg: bool, cs: seq<nat>) {
    AtomOk(a) && a.Class? && forall c: nat :: 1 <= c <= 255 ==> (Has(a, c) <==> (c in Members(cs, 0)) != neg)
  }

  lemma {:induction false} MembersAreBytes(cs: seq<nat>, lc: nat)
    requires lc <= 255 && forall i :: 0 <= i < |cs| ==> 1 <= cs[i] <= 255
    ensures forall c :: c in Members(cs, lc) ==> 1 <= c <= 255
  {
    if cs == [] {
    } else if cs[0] == DASH && lc != 0 {
      if |cs| > 1 { MembersAreBytes(cs[2..], cs[1]); }
    } else {
      MembersAreBytes(cs[1..], cs[0]);
    }
  }

  // ---------------------------------------------------------------------
  // The code for '[' in compile
  // ---------------------------------------------------------------------

  predicate ClassShape(a: Atom) {
    a.Class? && ((a.op == CXCL && |a.bits| == 32) || ((a.op == CCL || a.op == NCCL) && |a.bits| == 16))
  }

  datatype ClassResult = ClassOk(a: Atom, next: nat) | ClassErr(n: nat)

  /** GETC: the pattern is followed by NULs. */
  function CharAt(instr: seq<nat>, i: nat): nat {
    if i < |instr| then instr[i] else 0
  }

  /** The text of a bracket, with ^ and the closing ], stands at i. */
  ghost predicate BracketAt(instr: seq<nat>, i: nat, neg: bool, cs: seq<nat>) {
    && BracketText(cs) && (!neg ==> cs[0] != CARET)
    && var j := if neg then i + 1 else i;
       j + |cs| < |instr| && instr[j..j + |cs|] == cs && instr[j + |cs|] == RBRACK && (neg ==> instr[i] == CARET)
  }

  /** The bitmap holds M, and is wide if it has to be. */
  ghost predicate Fits(bits: seq<nat>, M: set<nat>) {
    && (|bits| == 16 || |bits| == 32) && Holds(bits, M)
    && (|bits| == 16 ==> forall x :: x in M ==> x < 128)
  }

  lemma PlaceFits(bits: seq<nat>, c: nat, M: set<nat>)
    requires Fits(bits, M) && c < 8 * |bits|
    ensures Fits(Place(bits, c), M + {c})
  {
    PlaceHolds(bits, c, M);
  }

  /** Make room for characters from 128 on. */
  method Widen(bits: seq<nat>, c: nat, room: nat, ghost M: set<nat>) returns (ok: bool, wide: seq<nat>)
    requires Fits(bits, M)
    ensures Fits(wide, M) && (ok && c >= 128 ==> |wide| == 32) && (room > 33 ==> ok)
  {
    ok, wide := true, bits;
    if c >= 128 && |bits| == 16 {
      if room <= 33 {
        return false, bits;
      }
      WidenHolds(bits, M);
      wide := bits + Zeros16;
    }
  }

  /** while (lc < c) PLACE(lc++) */
  method PlaceRange(bits: seq<nat>, lc: nat, c: nat, ghost M: set<nat>) returns (r: seq<nat>)
    requires Fits(bits, M) && c <= 8 * |bits|
    ensures |r| == |bits| && Fits(r, M + Range(lc, c))
  {
    r := bits;
    var x := lc;
    assert M + Range(lc, lc) == M;
    while x < c
      invariant |r| == |bits| && lc <= x && (lc <= c ==> x <= c) && (lc > c ==> x == lc)
      invariant Fits(r, M + Range(lc, x))
    {
      PlaceFits(r, x, M + Range(lc, x));
      r := Place(r, x);
      x := x + 1;
      assert M + Range(lc, x - 1) + {x - 1} == M + Range(lc, x);
    }
    assert M + Range(lc, c) == M + Range(lc, x);
  }

  /** cs[..k] has been entered; the rest is still to be read at i. */
  ghost predicate Entered(instr: seq<nat>, i: nat, cs: seq<nat>, k: nat, lc: nat, M: set<nat>) {
    && BracketText(cs) && k <= |cs| && i + (|cs| - k) < |instr|
    && instr[i..i + (|cs| - k)] == cs[k..] && instr[i + (|cs| - k)] == RBRACK
    && (k > 0 ==> lc > 0) && M + Members(cs[k..], lc) == Members(cs, 0)
  }

  lemma EnteredChar(instr: seq<nat>, i: nat, cs: seq<nat>, k: nat, lc: nat, M: set<nat>)
    requires Entered(instr, i, cs, k, lc, M)
    ensures k < |cs| ==> CharAt(instr, i) == cs[k] && 1 <= cs[k] <= 255 && cs[k] != NEWLINE
    ensures k == |cs| ==> CharAt(instr, i) == RBRACK
    ensures k + 1 < |cs| ==> CharAt(instr, i + 1) == cs[k + 1] && cs[k + 1] != RBRACK && cs[k + 1] >= 1
    ensures k + 1 == |cs| ==> CharAt(instr, i + 1) == RBRACK
  {
    if k < |cs| { assert instr[i..i + (|cs| - k)][0] == cs[k..][0]; }
    if k + 1 < |cs| { assert instr[i..i + (|cs| - k)][1] == cs[k..][1]; }
  }

  /** A character that stands for itself. */
  lemma EnterChar(instr: seq<nat>, i: nat, cs: seq<nat>, k: nat, lc: nat, M: set<nat>)
    requires Entered(instr, i, cs, k, lc, M) && k < |cs| && !(cs[k] == DASH && lc != 0)
    ensures Entered(instr, i + 1, cs, k + 1, cs[k], M + {cs[k]})
  {
    assert cs[k..][1..] == cs[k + 1..] && cs[k..][0] == cs[k];
    assert instr[i + 1..i + 1 + (|cs| - k - 1)] == instr[i..i + (|cs| - k)][1..];
    assert M + {cs[k]} + Members(cs[k + 1..], cs[k]) == M + Members(cs[k..], lc);
  }

  /** A range. */
  lemma EnterRange(instr: seq<nat>, i: nat, cs: seq<nat>, k: nat, lc: nat, M: set<nat>)
    requires Entered(instr, i, cs, k, lc, M) && k + 1 < |cs| && cs[k] == DASH && lc != 0
    ensures var c := cs[k + 1]; Entered(instr, i + 2, cs, k + 2, c, M + Range(lc, c) + {c})
  {
    var c := cs[k + 1];
    assert cs[k..][2..] == cs[k + 2..] && cs[k..][0] == cs[k] && cs[k..][1] == c;
    assert instr[i + 2..i + 2 + (|cs| - k - 2)] == instr[i..i + (|cs| - k)][2..];
    assert M + Range(lc, c) + {c} + Members(cs[k + 2..], c) == M + Members(cs[k..], lc);
  }

  /** A dash at the end. */
  lemma EnterDash(instr: seq<nat>, i: nat, cs: seq<nat>, k: nat, lc: nat, M: set<nat>)
    requires Entered(instr, i, cs, k, lc, M) && k + 1 == |cs| && cs[k] == DASH && lc != 0
    ensures M + {DASH} == Members(cs, 0)
  {
    assert cs[k..] == [DASH];
  }

  /** One element of a bracket: a character, a range, or a last dash, which also takes the ]. */
  method Element(instr: seq<nat>, i: nat, lc: nat, bits: seq<nat>, room: nat, ghost cs: seq<nat>, ghost k: nat, ghost M: set<nat>)
    returns (err: nat, closed: bool, i': nat, lc': nat, bits': seq<nat>, ghost k': nat, ghost M': set<nat>)
    requires forall x :: 0 <= x < |instr| ==> instr[x] <= 255
    requires Fits(bits, M) && lc <= 255
    ensures err == 0 ==> Fits(bits', M') && lc' <= 255 && i' > i && i < |instr|
    ensures Entered(instr, i, cs, k, lc, M) && k < |cs| && room > 33 ==>
              err == 0 && if closed then i' == i + (|cs| - k) + 1 && M' == Members(cs, 0)
                    else k' <= |cs| && Entered(instr, i', cs, k', lc', M') && i' - i == k' - k
  {
    ghost var good := Entered(instr, i, cs, k, lc, M) && k < |cs| && room > 33;
    var ok;
    if good { EnteredChar(instr, i, cs, k, lc, M); }
    err, closed, i', lc', bits', k', M' := 0, false, i + 1, lc, bits, k + 1, M;
    var c := CharAt(instr, i);
    if c == 0 || c == NEWLINE {
      err := 49;
      return;
    }
    ok, bits' := Widen(bits, c, room, M);
    if !ok {
      err := 50;
      return;
    }
    if c == DASH && lc != 0 {
      c := CharAt(instr, i + 1);
      i', k' := i + 2, k + 2;
      if c == RBRACK {
        if good { EnterDash(instr, i, cs, k, lc, M); }
        PlaceFits(bits', DASH, M);
        bits', M', closed := Place(bits', DASH), M + {DASH}, true;
        return;
      }
      if good { EnterRange(instr, i, cs, k, lc, M); }
      ok, bits' := Widen(bits', c, room, M);
      if !ok {
        err := 50;
        return;
      }
      bits' := PlaceRange(bits', lc, c, M);
      M' := M + Range(lc, c);
    } else if good {
      EnterChar(instr, i, cs, k, lc, M);
    }
    lc' := c;
    PlaceFits(bits', c, M');
    bits', M' := Place(bits', c), M' + {c};
  }

  /** The code behind '[', with `room` bytes left: the bitmap, complemented for [^...]. */
  method CompileClass(instr: seq<nat>, start: nat, room: nat, ghost neg0: bool, ghost cs: seq<nat>) returns (r: ClassResult)
    requires forall k :: 0 <= k < |instr| ==> instr[k] <= 255
    ensures BracketAt(instr, start, neg0, cs) && room > 33 ==>
              r.ClassOk? && IsBracket(r.a, neg0, cs) && r.next == start + (if neg0 then 1 else 0) + |cs| + 1
    ensures r.ClassOk? ==> ClassShape(r.a) && start < r.next
    ensures r.ClassErr? ==> r.n != 0
  {
    ghost var good := BracketAt(instr, start, neg0, cs) && room > 33;
    if room <= 17 {
      return ClassErr(50);
    }
    var neg := CharAt(instr, start) == CARET;
    var i, lc, bits := if neg then start + 1 else start, 0, Zeros16;
    ghost var k: nat, M: set<nat> := 0, {};
    EmptyHolds();
    if good { BracketEntered(instr, start, neg0, cs); }
    var closed := false;
    while !closed
      invariant Fits(bits, M) && lc <= 255 && i >= start
      invariant good ==> neg == neg0 && if closed then M == Members(cs, 0) && i == start + (if neg then 1 else 0) + |cs| + 1
                         else k < |cs| && Entered(instr, i, cs, k, lc, M) && i - k == start + (if neg then 1 else 0)
      invariant closed ==> i > start
      decreases !closed, |instr| - i
    {
      var err;
      err, closed, i, lc, bits, k, M := Element(instr, i, lc, bits, room, cs, k, M);
      if err != 0 {
        return ClassErr(err);
      }
      if !closed {
        if good { EnteredChar(instr, i, cs, k, lc, M); }
        if CharAt(instr, i) == RBRACK {
          i, closed := i + 1, true;
          if good { assert cs[k..] == []; }
        }
      }
    }
    if good { MembersAreBytes(cs, 0); }
    var a := Finish(bits, neg, M, cs);
    r := ClassOk(a, i);
  }

  lemma BracketEntered(instr: seq<nat>, start: nat, neg: bool, cs: seq<nat>)
    requires BracketAt(instr, start, neg, cs)
    ensures (CharAt(instr, start) == CARET) == neg
    ensures Entered(instr, if neg then start + 1 else start, cs, 0, 0, {})
  {
    var j := if neg then start + 1 else start;
    assert cs[0..] == cs;
    assert instr[j..j + |cs|][0] == cs[0];
  }

  /** The complement, and the terminator, which is never matched. */
  method Finish(bits: seq<nat>, neg: bool, ghost M: set<nat>, ghost cs: seq<nat>) returns (a: Atom)
    requires Fits(bits, M)
    ensures ClassShape(a)
    ensures M == Members(cs, 0) && (forall c :: c in M ==> 1 <= c <= 255) ==> IsBracket(a, neg, cs)
  {
    if |bits| == 32 {
      if neg {
        var flipped := seq(32, i requires 0 <= i < 32 => Flip(bits[i], 8));
        a := Class(CXCL, flipped[0 := flipped[0] - flipped[0] % 2]);
        FlippedMeans(bits, M, a.bits);
      } else {
        a := Class(CXCL, bits);
      }
    } else if neg {
      a := Class(NCCL, Place(bits, 0));
      PlaceHolds(bits, 0, M);
    } else {
      a := Class(CCL, bits);
    }
  }

  lemma FlippedMeans(bits: seq<nat>, M: set<nat>, r: seq<nat>)
    requires |bits| == |r| == 32 && Holds(bits, M)
    requires forall i :: 1 <= i < 32 ==> r[i] == Flip(bits[i], 8)
    requires r[0] == Flip(bits[0], 8) - Flip(bits[0], 8) % 2
    ensures forall c: nat :: c <= 255 ==> (IsThere(r, c) <==> c != 0 && c !in M)
  {
    forall c: nat | c <= 255 ensures IsThere(r, c) <==> c != 0 && c !in M {
      assert IsThere(bits, c) <==> c in M;
      FlipMeans(bits[c / 8], 8, c % 8);
      if c / 8 == 0 {
        var f := Flip(bits[0], 8);
        assert (f - f % 2) / 2 == f / 2;
        if c % 8 > 0 { assert Bit(r[0], c % 8) == Bit(f, c % 8); }
      }
    }
  }
}
