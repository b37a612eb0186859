/**
  The lazily built automaton: `makedfa`, `makeinit`, `cgoto` and the three matchers.

  A state is a list of positions in one of NSTATES slots.  Slot 1 is the dead state, slot 2
  the start set.  `gototab` caches transitions; 0 means "not computed".  When the slots are
  used up, `cgoto` throws all states but the dead one away and goes on in slot 2.
*/
module AwkDfa {
  import opened AwkRegex
  import opened AwkFollow
  import opened Sequences

  const NSTATES: nat := 16
  const NCHARS: nat := 257

  /** The list that `cgoto` writes for a set of positions below n. */
  ghost function ListOf(S: set<nat>, n: nat): seq<nat> {
    Listing(seq(n, i => i in S))
  }

  lemma ListOfElems(S: set<nat>, n: nat)
    requires forall q :: q in S ==> q < n
    ensures Elems(ListOf(S, n)) == S && Descending(ListOf(S, n))
    ensures forall q :: q in ListOf(S, n) ==> q < n
  {
    var v := seq(n, i => i in S);
    ListingIsMarked(v);
    assert Marked(v) == S;
  }

  lemma MarkedUpdate(v: seq<bool>, k: nat)
    requires k < |v|
    ensures Marked(v[k := true]) == Marked(v) + {k}
  {
  }

  /** A bit vector is listed as the set it marks. */
  lemma ListingOfMarked(v: seq<bool>)
    ensures Listing(v) == ListOf(Marked(v), |v|)
  {
    assert v == seq(|v|, i => i in Marked(v));
  }

  /** A list of positions up to m, as every state is stored. */
  predicate IsList(p: seq<nat>, m: nat) {
    Descending(p) && forall q :: q in p ==> q <= m
  }

  ghost predicate RowsOk(re: seq<Row>) {
    forall q :: 0 <= q < |re| ==> RowOk(re, q)
  }

  lemma {:induction false} SortedRows(v: Re, lo: nat, re: seq<Row>)
    requires Numbered(v, lo) && Sorted(v, re)
    ensures forall q :: lo <= q < lo + Leaves(v) ==> RowOk(re, q)
  {
    match v
    case Leaf(_, _) =>
    case Star(x) => SortedRows(x, lo, re);
    case Plus(x) => SortedRows(x, lo, re);
    case Quest(x) => SortedRows(x, lo, re);
    case Cat(a, b) => SortedRows(a, lo, re); SortedRows(b, lo + Leaves(a), re);
    case Or(a, b) => SortedRows(a, lo, re); SortedRows(b, lo + Leaves(a), re);
  }

  /** The first half of `makedfa`: number the leaves and fill in the follow lists. */
  method MakeTable(p: Re) returns (re: seq<Row>)
    requires Plain(p) && Leaves(p) + 2 < MAXLIN
    ensures Compiled(p, re) && RowsOk(re) && |re| == Leaves(p) + 2
  {
    WholeTree(p);
    var t := Penter(Whole(p), 0);
    var rows := new Row[Leaves(p) + 2];
    var setvec := new bool[MAXLIN];
    Cfoll(t, Root, rows, setvec, 0);
    SortedRows(t, 0, rows[..]);
    re := rows[..];
  }

  // ---------------------------------------------------------------------
  // Tables that are never full
  // ---------------------------------------------------------------------

  /** A family of position sets with the start sets in it, from which no step leads out, and for which there are
      enough slots. */
  ghost predicate Narrow(re: seq<Row>, anchor: bool, F: set<set<nat>>) {
    && |re| > 0 && |F| <= NSTATES - 1 && {} in F
    && (anchor ==> AnchoredStart(re) in F && ScanStart(re, 0) in F)
    && (!anchor ==> FreeStart(re) in F && Succ(re, FreeStart(re), HAT) in F)
    && forall S, c :: S in F && 0 <= c <= 255 ==> Succ(re, S, c) in F
  }

  lemma SuccBelow(re: seq<Row>, S: set<nat>, c: nat)
    requires RowsOk(re)
    ensures forall q :: q in Succ(re, S, c) ==> q < |re|
  {
    forall q | q in Succ(re, S, c) ensures q < |re| {
      var x :| x in S && x < |re| && Accepts(re[x].sym, c) && q in re[x].lfollow;
      assert RowOk(re, x);
    }
  }

  /** The sets of positions of an expression with at most two leaves, but for position 0. */
  ghost function Eight(): (F: set<set<nat>>)
    ensures |F| <= 8
  {
    {{}, {1}, {2}, {3}, {1, 2}, {1, 3}, {2, 3}, {1, 2, 3}}
  }

  lemma InEight(T: set<nat>)
    requires forall t :: t in T ==> 1 <= t <= 3
    ensures T in Eight()
  {
    if 1 in T {
      if 2 in T {
        assert T == if 3 in T then {1, 2, 3} else {1, 2};
      } else {
        assert T == if 3 in T then {1, 3} else {1};
      }
    } else if 2 in T {
      assert T == if 3 in T then {2, 3} else {2};
    } else {
      assert T == if 3 in T then {3} else {};
    }
  }

  lemma StepsInEight(p: Re, re: seq<Row>, S: set<nat>, c: nat)
    requires Compiled(p, re) && RowsOk(re) && Leaves(p) <= 2 && 0 !in S
    ensures Succ(re, S, c) in Eight() && 0 !in Succ(re, S, c)
  {
    CompiledShape(p, re);
    FollowAvoidsZero(Penter(p, 1), PatternPath(1 + Leaves(p)), 1, re);
    forall t | t in Succ(re, S, c) ensures 1 <= t <= 3 {
      var q :| q in S && q < |re| && Accepts(re[q].sym, c) && t in re[q].lfollow;
      assert RowOk(re, q) && t in Elems(re[q].lfollow);
    }
    InEight(Succ(re, S, c));
  }

  /** They are a family for which there are enough slots: anchored, such an expression never fills the table. */
  lemma TwoLeavesFit(p: Re, re: seq<Row>)
    requires Compiled(p, re) && RowsOk(re) && Leaves(p) <= 2
    ensures Narrow(re, true, Eight())
  {
    forall S, c | S in Eight() && 0 <= c <= 255 ensures Succ(re, S, c) in Eight() { StepsInEight(p, re, S, c); }
    forall t | t in AnchoredStart(re) ensures 1 <= t <= 3 { assert RowOk(re, 0); }
    InEight(AnchoredStart(re));
    StepsInEight(p, re, AnchoredStart(re), HAT);
    forall t | t in ScanStart(re, 0) ensures 1 <= t <= 3 {
      if t !in AnchoredStart(re) { InThree(Succ(re, AnchoredStart(re), HAT), t); }
    }
    InEight(ScanStart(re, 0));
    InEight({});
  }

  lemma InThree(T: set<nat>, t: nat)
    requires T in Eight() && t in T
    ensures 1 <= t <= 3
  {
  }

  /** A set is listed in one way. */
  lemma {:induction false} SameList(a: seq<nat>, b: seq<nat>)
    requires Descending(a) && Descending(b) && Elems(a) == Elems(b)
    ensures a == b
  {
    assert b != [] ==> b[0] in Elems(b);
    if a != [] {
      assert a[0] in Elems(a);
      assert b != [] && b[0] in Elems(b);
      var i :| 0 <= i < |b| && b[i] == a[0];
      var k :| 0 <= k < |a| && a[k] == b[0];
      assert a[0] == b[0];
      RestElems(a);
      RestElems(b);
      SameList(a[1..], b[1..]);
      assert a == [a[0]] + a[1..] && b == [b[0]] + b[1..];
    }
  }

  lemma RestElems(a: seq<nat>)
    requires Descending(a) && a != []
    ensures Elems(a[1..]) == Elems(a) - {a[0]} && Descending(a[1..])
  {
    assert a == [a[0]] + a[1..];
    forall x | x in a[1..] ensures x != a[0] { var i :| 0 <= i < |a[1..]| && a[1..][i] == x; }
  }

  /** Different lists of members of F are not more than F has members. */
  lemma {:induction false} NotMoreThan(lists: seq<seq<nat>>, F: set<set<nat>>)
    requires Distinct(lists) && forall i :: 0 <= i < |lists| ==> Descending(lists[i]) && Elems(lists[i]) in F
    ensures |lists| <= |F|
    decreases |lists|
  {
    if lists != [] {
      var r := lists[1..];
      forall i | 0 <= i < |r| ensures Descending(r[i]) && Elems(r[i]) in F - {Elems(lists[0])} {
        if Elems(r[i]) == Elems(lists[0]) { SameList(lists[i + 1], lists[0]); }
      }
      NotMoreThan(r, F - {Elems(lists[0])});
    }
  }

  class Fa {
    ghost const pat: Re
    /** A family of position sets, and whether it is one that keeps the table from being full. */
    ghost const family: set<set<nat>>
    ghost const fits: bool
    const re: seq<Row>
    const accept: nat
    const anchor: bool
    const gototab: array2<nat>
    const posns: array<seq<nat>>
    const out: array<bool>
    var initstat: nat
    var curstat: nat
    var reset: bool
    /** How often a transition was written into the row of a slot that had just been recycled
        and the recycled state does not loop on that symbol. */
    ghost var faults: nat

    ghost predicate Shape() {
      && |re| == accept + 1 && RowsOk(re) && accept < MAXLIN
      && gototab.Length0 == NSTATES && gototab.Length1 == NCHARS
      && posns.Length == NSTATES && out.Length == NSTATES
    }

    ghost predicate IsState(k: nat)
      requires Shape() && k < NSTATES
      reads posns, out
    {
      && IsList(posns[k], accept)
      && out[k] == (accept in posns[k])
    }

    /** Every live slot holds a state and every cached transition names a live slot. */
    ghost predicate Valid()
      reads this, gototab, posns, out
    {
      && Shape() && 2 <= curstat < NSTATES && posns[1] == []
      && (forall k :: 1 <= k <= curstat ==> IsState(k))
      && (forall k, c :: 1 <= k <= curstat && 0 <= c < NCHARS ==> gototab[k, c] <= curstat)
      && (forall c :: 0 <= c < NCHARS ==> gototab[1, c] <= 1)
    }

    ghost function Set(k: nat): set<nat>
      requires Shape() && k < NSTATES
      reads posns
    {
      Elems(posns[k])
    }

    /** Every cached transition of a live state on an input symbol is the successor set. */
    ghost predicate Exact()
      requires Valid()
      reads this, gototab, posns, out
    {
      forall k, c :: 1 <= k <= curstat && 0 <= c <= 255 && gototab[k, c] != 0 ==>
        Set(gototab[k, c]) == Succ(re, Set(k), c)
    }

    /** The successor of state s on c is a new state and all slots are taken. */
    ghost predicate Overflows(s: nat, c: nat)
      requires Shape() && s < NSTATES && curstat < NSTATES
      reads this, posns
    {
      curstat == NSTATES - 1 && forall k :: 1 <= k <= curstat ==> posns[k] != ListOf(Succ(re, Set(s), c), |re|)
    }

    /** The step is not cached, and the table is thrown away for it. */
    ghost predicate Flushes(s: nat, c: nat)
      requires Shape() && s < NSTATES && curstat < NSTATES && c < NCHARS
      reads this, posns, gototab
    {
      gototab[s, c] == 0 && Overflows(s, c)
    }

    /** The write of the transition would go into the row of the recycled slot: the successor of
        state 2 takes over slot 2 itself, and it is not its own successor. */
    ghost predicate Recycles(s: nat, c: nat)
      requires Shape() && s < NSTATES && curstat < NSTATES
      reads this, posns
    {
      Overflows(s, c) && s == 2 && c <= 255 && var T := Succ(re, Set(2), c); Succ(re, T, c) != T
    }

    /** Different live slots hold different lists. */
    ghost predicate Apart()
      requires Shape() && curstat < NSTATES
      reads this, posns
    {
      forall j, k :: 1 <= j < k <= curstat ==> posns[j] != posns[k]
    }

    /** No flush has happened, and the live slots hold different members of the family. */
    ghost predicate Confined()
      requires Shape() && curstat < NSTATES
      reads this, posns
    {
      !reset && (forall k :: 1 <= k <= curstat ==> Set(k) in family) && Apart()
    }

    /** Then there is room for every successor. */
    lemma NeverFull(s: nat, c: nat)
      requires Valid() && Confined() && Narrow(re, anchor, family) && 1 <= s <= curstat && c <= 255
      ensures !Overflows(s, c) && Succ(re, Set(s), c) in family
    {
      var T := Succ(re, Set(s), c);
      assert T in family;
      if Overflows(s, c) {
        SuccBelow(re, Set(s), c);
        ListOfElems(T, |re|);
        var lists := posns[1..] + [ListOf(T, |re|)];
        forall i | 0 <= i < |lists| ensures Descending(lists[i]) && Elems(lists[i]) in family {
          if i < NSTATES - 1 { assert lists[i] == posns[i + 1] && IsState(i + 1) && Set(i + 1) in family; }
        }
        NotMoreThan(lists, family);
      }
    }

    /** The dead state is never new. */
    lemma DeadFits(s: nat, c: nat)
      requires Valid() && 1 <= s <= curstat && Succ(re, Set(s), c) == {}
      ensures !Overflows(s, c)
    {
      ListOfElems({}, |re|);
      NoElems(ListOf({}, |re|));
      assert posns[1] == ListOf(Succ(re, Set(s), c), |re|);
    }

    /** `cgoto`: the state reached from s on c, added to the table if it is new. */
    method Cgoto(s: nat, c: nat) returns (r: nat)
      requires Valid() && 1 <= s <= curstat && c <= HAT
      modifies this`curstat, this`reset, this`faults, gototab, posns, out
      ensures Valid() && 1 <= r <= curstat && Set(r) == Succ(re, old(Set(s)), c) && gototab[s, c] == r
      ensures posns[0] == old(posns[0]) && out[0] == old(out[0])
      ensures !old(Overflows(s, c)) ==>
                && (curstat == old(curstat) || curstat == old(curstat) + 1 == r) && reset == old(reset)
                && (forall k :: 1 <= k <= old(curstat) ==> posns[k] == old(posns[k]))
                && (forall k, d :: 1 <= k <= curstat && 0 <= d < NCHARS && !(k == s && d == c) ==>
                      gototab[k, d] == if k > old(curstat) then 0 else old(gototab[k, d]))
      ensures curstat > old(curstat) ==> forall k :: 1 <= k <= old(curstat) ==> posns[k] != posns[r]
      ensures old(Overflows(s, c)) ==>
                && curstat == r == 2 && reset
                && (forall d :: 0 <= d < NCHARS ==> gototab[2, d] == if s == 2 && d == c then 2 else 0)
      ensures Succ(re, old(Set(s)), c) == {} ==> r == 1
      ensures faults == old(faults) + if old(Recycles(s, c)) then 1 else 0
      ensures old(Exact()) ==> (Exact() <==> !old(Recycles(s, c)))
    {
      var tmpset, final := Successors(s, c);
      r := Lookup(tmpset);
      assert tmpset == ListOf(Succ(re, Set(s), c), |re|);
      if r != 0 {
        assert !Overflows(s, c);
        Record(s, c, r);
        return;
      }
      assert s != 1;
      r := AddState(s, c, tmpset, final);
      if old(Recycles(s, c)) {
        faults := faults + 1;
      }
    }

    /** The first part of `cgoto`: the successor positions in setvec, and then as a list. */
    method Successors(s: nat, c: nat) returns (tmpset: seq<nat>, final: bool)
      requires Shape() && s < NSTATES && IsState(s)
      ensures tmpset == ListOf(Succ(re, Set(s), c), |re|) && final == (accept in tmpset)
      ensures Elems(tmpset) == Succ(re, Set(s), c) && IsList(tmpset, accept)
      ensures tmpset == [] <==> Succ(re, Set(s), c) == {}
    {
      var setvec := new bool[MAXLIN];
      ClearVec(setvec, accept + 1);
      var p := posns[s];
      assert IsState(s);
      for i := 0 to |p|
        modifies setvec
        invariant forall q :: q in p ==> q <= accept
        invariant Marked(setvec[..accept + 1]) == Succ(re, Elems(p[..i]), c)
      {
        assert p[i] in p;
        SuccSnoc(p, i, c);
        assert RowOk(re, p[i]);
        if Accepts(re[p[i]].sym, c) {
          Mark(re[p[i]].lfollow, setvec);
        }
      }
      assert p[..|p|] == p;
      ghost var S := Succ(re, Elems(p), c);
      tmpset := Scan(setvec, accept + 1);
      ListingOfMarked(setvec[..accept + 1]);
      ListOfElems(S, accept + 1);
      assert tmpset == ListOf(S, |re|);
      final := setvec[accept];
      assert accept in Marked(setvec[..accept + 1]) <==> setvec[accept];
      assert final <==> accept in Elems(tmpset);
      NoElems(tmpset);
    }

    /** Cache a transition between live states. */
    method Record(s: nat, c: nat, r: nat)
      requires Valid() && 1 <= s <= curstat && c <= HAT && 1 <= r <= curstat && (s == 1 ==> r == 1)
      requires Set(r) == Succ(re, Set(s), c)
      modifies gototab
      ensures Valid() && gototab[s, c] == r
      ensures forall k, d :: 0 <= k < NSTATES && 0 <= d < NCHARS && !(k == s && d == c) ==> gototab[k, d] == old(gototab[k, d])
      ensures old(Exact()) ==> Exact()
    {
      gototab[s, c] := r;
    }

    /** The last part of `cgoto`: take the next slot, or flush and take slot 2. */
    method AddState(s: nat, c: nat, tmpset: seq<nat>, final: bool) returns (r: nat)
      requires Valid() && 2 <= s <= curstat && c <= HAT
      requires IsList(tmpset, accept) && final == (accept in tmpset) && Elems(tmpset) == Succ(re, Set(s), c)
      modifies this`curstat, this`reset, gototab, posns, out
      ensures Valid()
      ensures old(Exact()) ==>
                (Exact() <==> !(old(curstat) == NSTATES - 1 && s == 2 && c <= 255 && Succ(re, Elems(tmpset), c) != Elems(tmpset)))
      ensures r == curstat == (if old(curstat) == NSTATES - 1 then 2 else old(curstat) + 1)
      ensures reset == (old(reset) || old(curstat) == NSTATES - 1)
      ensures posns[r] == tmpset && out[r] == final
      ensures forall k :: 0 <= k < NSTATES && k != r ==> posns[k] == old(posns[k]) && out[k] == old(out[k])
      ensures forall k, d :: 0 <= k < NSTATES && 0 <= d < NCHARS ==>
                gototab[k, d] == if k == s && d == c then r else if k == r then 0 else old(gototab[k, d])
    {
      r := TakeSlot(s, c, tmpset, final);
      forall k | 1 <= k <= curstat ensures IsState(k) {
        if k != r { assert old(IsState(k)); }
      }
      if old(Exact()) {
        forall k, d | 1 <= k <= curstat && 0 <= d <= 255 && gototab[k, d] != 0 && !(k == s && d == c)
          ensures Set(gototab[k, d]) == Succ(re, Set(k), d)
        {
          assert k != r && gototab[k, d] == old(gototab[k, d]) && (k == 1 ==> gototab[k, d] == 1);
        }
      }
    }

    method TakeSlot(s: nat, c: nat, tmpset: seq<nat>, final: bool) returns (r: nat)
      requires Shape() && s < NSTATES && curstat < NSTATES && c <= HAT
      modifies this`curstat, this`reset, gototab, posns, out
      ensures r == curstat == (if old(curstat) == NSTATES - 1 then 2 else old(curstat) + 1)
      ensures reset == (old(reset) || old(curstat) == NSTATES - 1)
      ensures posns[r] == tmpset && out[r] == final
      ensures forall k :: 0 <= k < NSTATES && k != r ==> posns[k] == old(posns[k]) && out[k] == old(out[k])
      ensures forall k, d :: 0 <= k < NSTATES && 0 <= d < NCHARS ==>
                gototab[k, d] == if k == s && d == c then r else if k == r then 0 else old(gototab[k, d])
    {
      if curstat >= NSTATES - 1 {
        curstat := 2;
        reset := true;
      } else {
        curstat := curstat + 1;
      }
      ClearRow(curstat);
      posns[curstat] := tmpset;
      gototab[s, c] := curstat;
      out[curstat] := final;
      r := curstat;
    }

    /** The middle part of `cgoto`: is the list an old state?  0 if not. */
    method Lookup(tmpset: seq<nat>) returns (r: nat)
      requires Valid()
      ensures r <= curstat && if r == 0 then forall k :: 1 <= k <= curstat ==> posns[k] != tmpset else posns[r] == tmpset
      ensures tmpset == [] ==> r == 1
    {
      for i := 1 to curstat + 1
        invariant forall k :: 1 <= k < i ==> posns[k] != tmpset
      {
        if posns[i] == tmpset {
          return i;
        }
      }
      r := 0;
    }

    lemma NoElems(s: seq<nat>)
      ensures Elems(s) == {} <==> s == []
    {
      if s != [] { assert s[0] in Elems(s); }
    }

    /** The inner loop of `cgoto` over one follow list. */
    method Mark(q: seq<nat>, setvec: array<bool>)
      requires accept < setvec.Length && forall t :: t in q ==> t <= accept
      modifies setvec
      ensures Marked(setvec[..accept + 1]) == old(Marked(setvec[..accept + 1])) + Elems(q)
    {
      for j := 0 to |q|
        invariant Marked(setvec[..accept + 1]) == old(Marked(setvec[..accept + 1])) + Elems(q[..j])
      {
        assert q[..j + 1] == q[..j] + [q[j]] && q[j] in q;
        ghost var before := setvec[..accept + 1];
        setvec[q[j]] := true;
        assert setvec[..accept + 1] == before[q[j] := true];
        MarkedUpdate(before, q[j]);
        assert Elems(q[..j + 1]) == Elems(q[..j]) + {q[j]};
      }
      assert q[..|q|] == q;
    }

    lemma SuccSnoc(p: seq<nat>, i: nat, c: nat)
      requires i < |p| && p[i] < |re|
      ensures Succ(re, Elems(p[..i + 1]), c)
           == Succ(re, Elems(p[..i]), c) + if Accepts(re[p[i]].sym, c) then Elems(re[p[i]].lfollow) else {}
    {
      assert p[..i + 1] == p[..i] + [p[i]];
      assert Elems(p[..i + 1]) == Elems(p[..i]) + {p[i]};
    }

    method ClearRow(k: nat)
      requires Shape() && k < NSTATES
      modifies gototab
      ensures forall c :: 0 <= c < NCHARS ==> gototab[k, c] == 0
      ensures forall j, c :: 0 <= j < NSTATES && 0 <= c < NCHARS && j != k ==> gototab[j, c] == old(gototab[j, c])
    {
      for i := 0 to NCHARS
        invariant forall c :: 0 <= c < i ==> gototab[k, c] == 0
        invariant forall j, c :: 0 <= j < NSTATES && 0 <= c < NCHARS && j != k ==> gototab[j, c] == old(gototab[j, c])
      {
        gototab[k, i] := 0;
      }
    }

    // -------------------------------------------------------------------
    // Start states
    // -------------------------------------------------------------------

    /** The set in which a fresh scan of a subject begins, `^` having been offered. */
    ghost function StartSet(): set<nat>
      requires |re| > 0
    {
      if anchor then ScanStart(re, 0) else Succ(re, FreeStart(re), HAT)
    }

    /** In anchored mode posns[0] keeps the start set for the bytes after the first. */
    ghost predicate Saved()
      requires Shape()
      reads posns, out
    {
      anchor ==> IsState(0) && Set(0) == AnchoredStart(re)
    }

    /** The table as it is between two steps: exact, unless it has been flushed. */
    ghost predicate Live()
      reads this, gototab, posns, out
    {
      && Valid() && Saved() && (fits ==> Narrow(re, anchor, family) && Confined())
      && (!reset ==> Exact() && 1 <= initstat <= curstat && Set(initstat) == StartSet()
                     && (anchor ==> Set(2) == AnchoredStart(re)))
    }

    /** The same for an automaton made of `pat`. */
    ghost predicate Ready()
      reads this, gototab, posns, out
    {
      Compiled(pat, re) && Live()
    }

    /** `makeinit`: start over with the start state (slot 2) and what `^` leads to. */
    method MakeInit() returns (r: nat)
      requires Compiled(pat, re) && Shape() && posns[1] == [] && out[1] == false && (forall c :: 0 <= c < NCHARS ==> gototab[1, c] <= 1)
      modifies this`curstat, this`reset, this`faults, gototab, posns, out
      ensures Valid() && Exact() && Saved() && r == curstat <= 3 && Set(r) == StartSet()
      ensures reset == old(reset) && faults == old(faults) && Set(2) == if anchor then AnchoredStart(re) else FreeStart(re)
      ensures Apart() && forall k, c :: 2 <= k <= curstat && 0 <= c <= 255 ==> gototab[k, c] == 0
    {
      HatStart(pat, re);
      StartNotEmpty(pat, re);
      OfferHat();
      r := curstat;
      if anchor {
        LeaveOutZero();
      }
    }

    lemma StartNotEmpty(p: Re, re: seq<Row>)
      requires Compiled(p, re)
      ensures AnchoredStart(re) != {} && AnchoredStart(re) <= ScanStart(re, 0)
    {
      CompiledShape(p, re);
      FirstNotEmpty(Penter(p, 1));
    }

    lemma {:induction false} FirstNotEmpty(r: Re)
      ensures FirstSet(r) != {}
    {
      match r
      case Leaf(_, p) => assert p in FirstSet(r);
      case Star(x) => FirstNotEmpty(x);
      case Plus(x) => FirstNotEmpty(x);
      case Quest(x) => FirstNotEmpty(x);
      case Cat(a, _) => FirstNotEmpty(a);
      case Or(a, _) => FirstNotEmpty(a);
    }

    /** The start set, and what `^` leads to, which becomes the last live state. */
    method OfferHat()
      requires Shape() && posns[1] == [] && out[1] == false && (forall c :: 0 <= c < NCHARS ==> gototab[1, c] <= 1)
      requires 0 in FreeStart(re) && 0 in Succ(re, FreeStart(re), HAT)
      modifies this`curstat, this`reset, this`faults, gototab, posns, out
      ensures Valid() && Exact() && curstat <= 3 && reset == old(reset) && faults == old(faults)
      ensures Set(2) == FreeStart(re) && Set(curstat) == Succ(re, FreeStart(re), HAT) && Apart()
      ensures forall k, c :: 2 <= k <= curstat && 0 <= c <= 255 ==> gototab[k, c] == 0
    {
      Restart();
      HatState();
    }

    /** The HAT successor of the start set: a new state, or the start state itself. In either case it is the last live
        state, so that makeinit's assignment of it to curstat changes nothing. */
    method HatState()
      requires Valid() && Exact() && curstat == 2 && Set(2) == FreeStart(re) && 0 in FreeStart(re)
      requires 0 in Succ(re, FreeStart(re), HAT) && forall c :: 0 <= c < NCHARS ==> gototab[2, c] == 0
      modifies this`curstat, this`reset, this`faults, gototab, posns, out
      ensures Valid() && Exact() && curstat <= 3 && reset == old(reset) && faults == old(faults)
      ensures Set(2) == FreeStart(re) && Set(curstat) == Succ(re, FreeStart(re), HAT) && Apart()
      ensures forall k, c :: 2 <= k <= curstat && 0 <= c <= 255 ==> gototab[k, c] == 0
    {
      NoElems(posns[2]);
      var r := Cgoto(2, HAT);
      assert 0 in Set(r);
      assert r == curstat;
    }

    /** The start set goes into slot 2; no other state is live. */
    method Restart()
      requires Shape() && posns[1] == [] && out[1] == false && (forall c :: 0 <= c < NCHARS ==> gototab[1, c] <= 1)
      requires 0 in FreeStart(re)
      modifies this`curstat, gototab, posns, out
      ensures Valid() && Exact() && curstat == 2 && Set(2) == FreeStart(re)
      ensures forall c :: 0 <= c < NCHARS ==> gototab[2, c] == 0
    {
      assert RowOk(re, 0);
      curstat := 2;
      posns[2] := re[0].lfollow;
      assert 0 in posns[2];
      GreatestFirst(posns[2], accept);
      out[2] := posns[2][0] == accept;
      ClearRow(2);
      FreshExact();
    }

    /** Anchored mode: position 0 is dropped from the start state and from what `^` led to. */
    method LeaveOutZero()
      requires Valid() && curstat <= 3 && accept != 0 && 0 in posns[2] && 0 in posns[curstat] && Apart()
      requires Set(2) - {0} != {} && Set(curstat) - {0} != {}
      requires forall k, c :: 2 <= k <= curstat && 0 <= c <= 255 ==> gototab[k, c] == 0
      modifies posns, out
      ensures Valid() && Exact() && IsState(0) && posns[0] == posns[2] && Apart()
      ensures Set(2) == old(Set(2)) - {0} && Set(curstat) == old(Set(curstat)) - {0}
    {
      var p, q := posns[2], posns[curstat];
      assert IsState(2) && IsState(curstat) && IsState(1);
      DropBoth(p, q);
      PutStarts(p[..|p| - 1], q[..|q| - 1]);
      StartsOk(p[..|p| - 1], q[..|q| - 1]);
    }

    method PutStarts(p: seq<nat>, q: seq<nat>)
      requires Shape() && 2 <= curstat < NSTATES && (curstat == 2 ==> p == q)
      modifies posns, out
      ensures posns[2] == posns[0] == p && posns[curstat] == q && out[0] == out[2] == old(out[2])
      ensures forall k :: 1 <= k < NSTATES ==> out[k] == old(out[k]) && (k != 2 && k != curstat ==> posns[k] == old(posns[k]))
    {
      posns[2] := p;
      posns[0] := posns[2];
      out[0] := out[2];
      if curstat != 2 {
        posns[curstat] := q;
      }
    }

    lemma DropBoth(p: seq<nat>, q: seq<nat>)
      requires IsList(p, accept) && IsList(q, accept) && 0 in p && 0 in q && accept != 0
      requires Elems(p) - {0} != {} && Elems(q) - {0} != {}
      ensures |p| > 0 && |q| > 0
      ensures var p', q' := p[..|p| - 1], q[..|q| - 1];
              && IsList(p', accept) && IsList(q', accept) && Elems(p') == Elems(p) - {0} && Elems(q') == Elems(q) - {0}
              && (accept in p' <==> accept in p) && (accept in q' <==> accept in q) && p' != [] && q' != [] && (p' == q' ==> p == q)
    {
      DropZero(p);
      DropZero(q);
      NoElems(p[..|p| - 1]);
      NoElems(q[..|q| - 1]);
      assert p == p[..|p| - 1] + [0] && q == q[..|q| - 1] + [0];
    }

    lemma StartsOk(p: seq<nat>, q: seq<nat>)
      requires Shape() && 2 <= curstat <= 3 && posns[1] == [] && IsState(1)
      requires posns[2] == posns[0] == p && posns[curstat] == q && out[0] == out[2]
      requires IsList(p, accept) && IsList(q, accept) && out[2] == (accept in p) && out[curstat] == (accept in q)
      requires p != [] && q != [] && (curstat == 3 ==> p != q)
      requires forall k, c :: 2 <= k <= curstat && 0 <= c <= 255 ==> gototab[k, c] == 0
      requires forall k, c :: 1 <= k <= curstat && 0 <= c < NCHARS ==> gototab[k, c] <= curstat
      requires forall c :: 0 <= c < NCHARS ==> gototab[1, c] <= 1
      ensures Valid() && Exact() && IsState(0) && Apart()
    {
      FreshExact();
    }

    /** When nothing but the dead state has cached transitions, the table is exact. */
    lemma FreshExact()
      requires Valid() && forall k, c :: 2 <= k <= curstat && 0 <= c <= 255 ==> gototab[k, c] == 0
      ensures Exact()
    {
      forall k, c | 1 <= k <= curstat && 0 <= c <= 255 && gototab[k, c] != 0
        ensures Set(gototab[k, c]) == Succ(re, Set(k), c)
      {
        assert k == 1 && gototab[1, c] <= 1;
        assert Set(1) == {} == Succ(re, {}, c);
      }
    }

    lemma GreatestFirst(s: seq<nat>, m: nat)
      requires IsList(s, m) && |s| > 0
      ensures s[0] == m <==> m in s
    {
      assert s[0] in s;
    }

    /** In a descending list position 0 can only come last. */
    lemma DropZero(s: seq<nat>)
      requires IsList(s, accept) && 0 in s
      ensures |s| > 0 && s[|s| - 1] == 0 && Elems(s[..|s| - 1]) == Elems(s) - {0}
      ensures IsList(s[..|s| - 1], accept) && (accept != 0 ==> (accept in s[..|s| - 1] <==> accept in s))
    {
      var n := |s| - 1;
      assert forall j :: 0 <= j < n ==> s[j] > s[n];
      var i :| 0 <= i < |s| && s[i] == 0;
      assert s[n] == 0;
      assert s == s[..n] + [0];
      assert forall q :: q in s[..n] ==> q in s;
      forall q | q in s && q != 0 ensures q in s[..n] {
        var j :| 0 <= j < |s| && s[j] == q;
        assert s[..n][j] == q;
      }
    }

    /** `makedfa`: compile the expression and enter the start states. */
    constructor (p: Re, anchor: bool, ghost family: set<set<nat>>)
      requires Plain(p) && Leaves(p) + 2 < MAXLIN
      ensures Ready() && pat == p && this.anchor == anchor && Newborn() && faults == 0
      ensures fits <==> Narrow(re, anchor, family)
      ensures fresh(gototab) && fresh(posns) && fresh(out)
    {
      var rows := MakeTable(p);
      pat, re, accept, this.anchor := p, rows, |rows| - 1, anchor;
      this.family, fits := family, Narrow(rows, anchor, family);
      gototab := new nat[NSTATES, NCHARS]((_, _) => 0);
      posns := new seq<nat>[NSTATES](_ => []);
      out := new bool[NSTATES](_ => false);
      initstat, curstat, reset, faults := 2, 2, false, 0;
      new;
      initstat := MakeInit();
      reset := false;
      if fits { StartsConfined(); }
    }

    lemma StartsConfined()
      requires Valid() && !reset && curstat <= 3 && Apart() && Set(curstat) == StartSet() && Narrow(re, anchor, family)
      requires Set(2) == if anchor then AnchoredStart(re) else FreeStart(re)
      ensures Confined()
    {
      assert Set(1) == {};
    }

    /** As makedfa leaves it. */
    ghost predicate Newborn()
      reads this, gototab, posns, out
    {
      && Live() && !reset && initstat == curstat <= 3 && Apart()
      && forall k, c :: 2 <= k <= curstat && 0 <= c <= 255 ==> gototab[k, c] == 0
    }

    // -------------------------------------------------------------------
    // Searching
    // -------------------------------------------------------------------

    ghost predicate IsSubject(s: seq<nat>) {
      forall i :: 0 <= i < |s| ==> 1 <= s[i] <= 255
    }

    /** Byte q of a subject, or the terminator. */
    function Byte(s: seq<nat>, q: nat): (c: nat)
      requires IsSubject(s)
      ensures c <= 255
    {
      if q < |s| then s[q] else 0
    }

    /** How every matcher begins: a flushed table is restarted. */
    method Begin() returns (s: nat)
      requires Ready()
      modifies this`curstat, this`reset, this`faults, gototab, posns, out
      ensures Live() && Exact() && 1 <= s <= curstat && Set(s) == StartSet()
      ensures faults == old(faults) && (anchor ==> Set(2) == AnchoredStart(re))
      ensures !old(reset) ==> s == initstat && !reset && curstat == old(curstat) && posns[..] == old(posns[..])
      ensures old(Newborn()) ==> Newborn()
    {
      assert IsState(1);
      if reset {
        s := MakeInit();
      } else {
        s := initstat;
      }
    }

    /** What a step from state s on c to state ns does to the table. */
    twostate predicate Stepped(s: nat, c: nat, ns: nat)
      requires old(Live()) && Live() && 1 <= s <= old(curstat) && c <= 255 && 1 <= ns <= curstat
      reads this, gototab, posns, out
    {
      && faults >= old(faults) && (reset || !old(reset)) && (!reset ==> faults == old(faults))
      && (old(Exact()) && faults == old(faults) ==> Exact() && Set(ns) == Succ(re, old(Set(s)), c))
      && (old(curstat) < NSTATES - 1 ==> faults == old(faults) && curstat <= old(curstat) + 1)
      && (old(gototab[s, c]) != 0 ==> ns == old(gototab[s, c]) && curstat == old(curstat))
      && (old(gototab[s, c] == 0 && Succ(re, Set(s), c) == {}) ==> ns == 1)
      && if old(Flushes(s, c)) then FlushedBy(s, c, ns) else KeptBy(s, c, ns)
    }

    /** The step has flushed the table. */
    twostate predicate FlushedBy(s: nat, c: nat, ns: nat)
      requires old(Live()) && Live() && 1 <= s <= old(curstat) && c <= 255
      reads this, gototab, posns, out
    {
      && (old(Recycles(s, c)) ==> faults == old(faults) + 1)
      && (s == 2 ==>
            && ns == 2 == curstat && reset && Set(2) == Succ(re, old(Set(2)), c)
            && forall d :: 0 <= d < NCHARS ==> gototab[2, d] == if d == c then 2 else 0)
    }

    /** The step has kept all states, and added one at most. */
    twostate predicate KeptBy(s: nat, c: nat, ns: nat)
      requires old(Live()) && Live()
      reads this, gototab, posns, out
    {
      && reset == old(reset) && old(curstat) <= curstat && faults == old(faults)
      && (forall k :: 1 <= k <= old(curstat) ==> posns[k] == old(posns[k]))
      && (forall d :: 0 <= d < NCHARS && !(s == 2 && d == c) ==> gototab[2, d] == old(gototab[2, d]))
      && (curstat > old(curstat) ==> ns == curstat && forall d :: 0 <= d < NCHARS ==> gototab[curstat, d] == 0)
    }

    /** One step of a matcher: the cached transition if there is one, else `cgoto`. */
    method Step(s: nat, c: nat) returns (ns: nat)
      requires Live() && 1 <= s <= curstat && c <= 255
      modifies this`curstat, this`reset, this`faults, gototab, posns, out
      ensures Live() && 1 <= ns <= curstat && Stepped(s, c, ns)
    {
      ns := gototab[s, c];
      if ns == 0 {
        ns := Computed(s, c);
      }
    }

    /** A step that is not cached. */
    method Computed(s: nat, c: nat) returns (ns: nat)
      requires Live() && 1 <= s <= curstat && c <= 255 && gototab[s, c] == 0
      modifies this`curstat, this`reset, this`faults, gototab, posns, out
      ensures Live() && 1 <= ns <= curstat && Stepped(s, c, ns)
    {
      ghost var last, T := curstat, Succ(re, Set(s), c);
      if fits { NeverFull(s, c); }
      ns := Cgoto(s, c);
      if fits {
        forall k | 1 <= k <= curstat ensures Set(k) in family {
          if k <= last { assert posns[k] == old(posns[k]) && old(Set(k)) in family; }
        }
      }
    }

    lemma Final(k: nat)
      requires Valid() && 1 <= k <= curstat
      ensures out[k] <==> accept in Set(k)
    {
      assert IsState(k);
    }

    /** `match`: does the subject contain a word of the expression? */
    method Match(s: seq<nat>) returns (r: bool)
      requires Ready() && !anchor && IsSubject(s)
      modifies this`curstat, this`reset, this`faults, gototab, posns, out
      ensures Ready() && faults >= old(faults)
      ensures faults == old(faults) ==> (r <==> Contains(pat, s))
      ensures fits ==> faults == old(faults)
    {
      var st := Begin();
      UnanchoredCorrect(pat, re, s);
      Final(st);
      AtFirst(s, Set(st));
      if out[st] {
        return true;
      }
      var p := 0;
      while p <= |s|
        invariant 0 <= p <= |s| + 1 && Live() && 1 <= st <= curstat && faults >= old(faults)
        invariant faults == old(faults) ==> Exact() && After(s, p + 1, Set(st))
        invariant fits ==> faults == old(faults)
      {
        st := MatchByte(s, p, st);
        Final(st);
        if out[st] {
          return true;
        }
        p := p + 1;
      }
      r := false;
    }

    method MatchByte(s: seq<nat>, p: nat, st: nat) returns (ns: nat)
      requires Live() && 1 <= st <= curstat && p <= |s| && IsSubject(s)
      modifies this`curstat, this`reset, this`faults, gototab, posns, out
      ensures Live() && 1 <= ns <= curstat && faults >= old(faults) && (fits ==> faults == old(faults))
      ensures old(Exact() && After(s, p + 1, Set(st))) && faults == old(faults) ==>
                && Exact() && (accept in Set(ns) <==> AcceptsAfter(re, s, p + 2))
                && (accept !in Set(ns) ==> After(s, p + 2, Set(ns)))
    {
      ghost var S, exact := Set(st), Exact();
      assert Byte(s, p) == Subject(s)[p + 1];
      ns := Step(st, Byte(s, p));
      if exact && After(s, p + 1, S) && faults == old(faults) { AfterNext(s, p + 1, S, Set(ns)); }
    }

    /** The set after HAT and p - 1 bytes, and no shorter prefix was accepted. */
    ghost predicate After(s: seq<nat>, p: nat, S: set<nat>)
      requires Shape() && 1 <= p <= |s| + 2
    {
      S == Steps(re, FreeStart(re), Subject(s), 0, p) && forall n :: 1 <= n <= p ==> !AcceptsAfter(re, s, n)
    }

    lemma AtFirst(s: seq<nat>, S: set<nat>)
      requires Shape() && S == Succ(re, FreeStart(re), HAT)
      ensures accept in S <==> AcceptsAfter(re, s, 1)
      ensures accept !in S ==> After(s, 1, S)
    {
      assert Steps(re, FreeStart(re), Subject(s), 0, 1) == Succ(re, FreeStart(re), HAT);
    }

    lemma AfterNext(s: seq<nat>, p: nat, S: set<nat>, T: set<nat>)
      requires Shape() && 1 <= p <= |s| + 1 && After(s, p, S) && T == Succ(re, S, Subject(s)[p])
      ensures accept in T <==> AcceptsAfter(re, s, p + 1)
      ensures accept !in T ==> After(s, p + 1, T)
    {
    }

    /** Among the lengths below `upto`: the longest match at byte p, or `none` if there is none. */
    ghost predicate Longest(s: seq<nat>, p: nat, none: int, upto: nat, patlen: int)
      requires p + upto <= |s| + 2
    {
      if exists l :: 0 <= l < upto && MatchAt(pat, s, p, l)
      then 0 <= patlen < upto && MatchAt(pat, s, p, patlen) && forall l :: patlen < l < upto ==> !MatchAt(pat, s, p, l)
      else patlen == none
    }

    /** The set in which the scan from byte p is after q - p bytes. */
    ghost function ScanSet(s: seq<nat>, p: nat, q: nat): set<nat>
      requires Shape() && p <= q <= |s| + 1
    {
      Steps(re, ScanStart(re, p), Subject(s), p + 1, q + 1)
    }

    lemma ScanAccepts(s: seq<nat>, p: nat, q: nat)
      requires Compiled(pat, re) && Shape() && p <= q <= |s| + 1
      ensures accept in ScanSet(s, p, q) <==> MatchAt(pat, s, p, q - p)
    {
      AnchoredCorrect(pat, re, s, p, q - p);
    }

    /** A scan that has come to byte q in the state of set S. */
    ghost predicate Scanned(s: seq<nat>, p: nat, q: nat, S: set<nat>, none: int, patlen: int)
      requires Shape() && p <= q <= |s| + 1
    {
      S == ScanSet(s, p, q) && Longest(s, p, none, q - p, patlen)
    }

    /** A final state makes the match longer. */
    lemma ScannedHere(s: seq<nat>, p: nat, q: nat, S: set<nat>, none: int, patlen: int)
      requires Compiled(pat, re) && Shape() && p <= q <= |s| + 1 && Scanned(s, p, q, S, none, patlen)
      ensures Longest(s, p, none, q + 1 - p, if accept in S then q - p else patlen)
    {
      ScanAccepts(s, p, q);
    }

    /** From the dead state there is no way out. */
    lemma ScannedDead(s: seq<nat>, p: nat, q: nat, none: int, patlen: int)
      requires Compiled(pat, re) && Shape() && p <= q <= |s| + 1 && Scanned(s, p, q, {}, none, patlen)
      ensures Longest(s, p, none, |s| + 2 - p, patlen)
    {
      forall l | q - p <= l <= |s| + 1 - p ensures !MatchAt(pat, s, p, l) {
        StepsStayEmpty(re, ScanStart(re, p), Subject(s), p + 1, q + 1, p + l + 1);
        ScanAccepts(s, p, p + l);
      }
    }

    /** The inner loop of `pmatch` and `nematch`: the longest match at byte p. */
    method ScanFrom(s: seq<nat>, p: nat, st0: nat, none: int) returns (patlen: int)
      requires Ready() && Exact() && anchor && p <= |s| && 1 <= st0 <= curstat && Set(st0) == ScanStart(re, p)
      requires IsSubject(s)
      modifies this`curstat, this`reset, this`faults, gototab, posns, out
      ensures Live() && faults >= old(faults) && (reset || !old(reset)) && (!reset ==> faults == old(faults))
      ensures faults == old(faults) ==> Exact() && Longest(s, p, none, |s| + 2 - p, patlen)
      ensures old(curstat) + |s| + 1 - p < NSTATES ==> faults == old(faults) && curstat <= old(curstat) + |s| + 1 - p
    {
      patlen := none;
      var st, q := st0, p;
      while q <= |s|
        invariant p <= q <= |s| + 1 && Live() && 1 <= st <= curstat
        invariant faults >= old(faults) && (reset || !old(reset)) && (!reset ==> faults == old(faults))
        invariant faults == old(faults) ==> Exact() && Scanned(s, p, q, Set(st), none, patlen)
        invariant old(curstat) + |s| + 1 - p < NSTATES ==> faults == old(faults) && curstat <= old(curstat) + q - p
      {
        st, patlen := ScanByte(s, p, q, st, none, patlen);
        if st == 1 {
          return;
        }
        q := q + 1;
      }
      Final(st);
      if faults == old(faults) { ScannedHere(s, p, q, Set(st), none, patlen); }
      if out[st] {
        patlen := q - p;
      }
    }

    /** One turn of the inner loop, up to the test for the dead state. */
    method ScanByte(s: seq<nat>, p: nat, q: nat, st: nat, none: int, was: int) returns (ns: nat, patlen: int)
      requires Ready() && anchor && p <= q <= |s| && 1 <= st <= curstat && IsSubject(s)
      modifies this`curstat, this`reset, this`faults, gototab, posns, out
      ensures Live() && 1 <= ns <= curstat && faults >= old(faults) && (reset || !old(reset)) && (!reset ==> faults == old(faults))
      ensures old(Exact() && Scanned(s, p, q, Set(st), none, was)) && faults == old(faults) ==>
                && Exact() && Scanned(s, p, q + 1, Set(ns), none, patlen)
                && (ns == 1 ==> Longest(s, p, none, |s| + 2 - p, patlen))
      ensures old(curstat) < NSTATES - 1 ==> faults == old(faults) && curstat <= old(curstat) + 1
    {
      ghost var S, exact := Set(st), Exact();
      assert Byte(s, q) == Subject(s)[q + 1];
      ns, patlen := TakeByte(s, p, q, st, was);
      if exact && Scanned(s, p, q, S, none, was) && faults == old(faults) {
        ScannedNext(s, p, q, S, none, was);
        if ns == 1 { ScannedDead(s, p, q + 1, none, patlen); }
      }
    }

    /** What the turn does, and what becomes of the table. */
    method TakeByte(s: seq<nat>, p: nat, q: nat, st: nat, was: int) returns (ns: nat, patlen: int)
      requires Live() && p <= q <= |s| && 1 <= st <= curstat && IsSubject(s)
      modifies this`curstat, this`reset, this`faults, gototab, posns, out
      ensures Live() && 1 <= ns <= curstat && Stepped(st, Byte(s, q), ns)
      ensures patlen == if old(accept in Set(st)) then q - p else was
    {
      Final(st);
      patlen := was;
      if out[st] {
        patlen := q - p;
      }
      ns := Step(st, Byte(s, q));
    }

    lemma ScannedNext(s: seq<nat>, p: nat, q: nat, S: set<nat>, none: int, was: int)
      requires Compiled(pat, re) && Shape() && p <= q <= |s| && Scanned(s, p, q, S, none, was)
      ensures Scanned(s, p, q + 1, Succ(re, S, Subject(s)[q + 1]), none, if accept in S then q - p else was)
    {
      ScannedHere(s, p, q, S, none, was);
    }

    /** The code at `nextin`: back to the start state, rebuilt from posns[0] after a flush. */
    method NextIn() returns (s: nat)
      requires Live() && anchor && (reset || Exact())
      modifies this`initstat, this`curstat, gototab, posns, out
      ensures Live() && Exact() && s == 2 && Set(2) == AnchoredStart(re)
      ensures reset == old(reset) && if reset then curstat == 2 else curstat == old(curstat) && posns[..] == old(posns[..])
      ensures forall d :: 0 <= d < NCHARS ==> gototab[2, d] == if reset then 0 else old(gototab[2, d])
    {
      s := 2;
      if reset {
        assert IsState(1);
        posns[2] := posns[0];
        initstat, curstat := 2, 2;
        out[2] := out[0];
        ClearRow(2);
        assert IsState(2);
        FreshExact();
      }
    }

    /** `pmatch`: the leftmost match, and the longest one there. */
    method Pmatch(s: seq<nat>) returns (found: bool, patbeg: nat, patlen: int)
      requires Ready() && anchor && IsSubject(s)
      modifies this`initstat, this`curstat, this`reset, this`faults, gototab, posns, out
      ensures Ready() && faults >= old(faults)
      ensures faults == old(faults) ==> Leftmost(s, found, patbeg, patlen)
      ensures fits ==> faults == old(faults)
    {
      var st := Begin();
      patbeg, patlen := 0, -1;
      var p := 0;
      while p <= |s|
        invariant 0 <= p <= |s| + 1 && Live() && Exact() && 1 <= st <= curstat && faults >= old(faults)
        invariant p <= |s| ==> Set(st) == ScanStart(re, p)
        invariant faults == old(faults) ==> patlen == -1 && NoneBefore(s, p)
        invariant fits ==> faults == old(faults)
      {
        patlen := ScanFrom(s, p, st, patlen);
        if patlen >= 0 {
          return true, p, patlen;
        }
        st := NextIn();
        p := p + 1;
      }
      found := false;
    }

    /** No match begins in front of byte p. */
    ghost predicate NoneBefore(s: seq<nat>, p: nat)
      requires p <= |s| + 1
    {
      forall j, l :: 0 <= j < p && 0 <= l <= |s| + 1 - j ==> !MatchAt(pat, s, j, l)
    }

    /** The first byte at which there is a match, and the longest one there. */
    ghost predicate Leftmost(s: seq<nat>, found: bool, patbeg: nat, patlen: int) {
      if found then patbeg <= |s| && patlen >= 0 && Longest(s, patbeg, -1, |s| + 2 - patbeg, patlen) && NoneBefore(s, patbeg)
      else NoneBefore(s, |s| + 1)
    }

    /** `nematch`: the leftmost byte with a nonempty match, and the longest one there. */
    method Nematch(s: seq<nat>) returns (found: bool, patbeg: nat, patlen: int)
      requires Ready() && anchor && IsSubject(s)
      modifies this`initstat, this`curstat, this`reset, this`faults, gototab, posns, out
      ensures Ready() && faults >= old(faults)
      ensures faults == old(faults) ==> LeftmostNonempty(s, found, patbeg, patlen)
      ensures fits ==> faults == old(faults)
    {
      var st := Begin();
      patbeg, patlen := 0, -1;
      var p := 0;
      while p < |s|
        invariant 0 <= p <= |s| && Live() && Exact() && 1 <= st <= curstat && faults >= old(faults)
        invariant Set(st) == ScanStart(re, p)
        invariant faults == old(faults) ==> patlen <= 0 && NoneNonemptyBefore(s, p)
        invariant fits ==> faults == old(faults)
      {
        patlen := ScanFrom(s, p, st, patlen);
        if patlen > 0 {
          return true, p, patlen;
        }
        st := NextIn();
        p := p + 1;
      }
      found := false;
    }

    ghost predicate NoneNonemptyBefore(s: seq<nat>, p: nat)
      requires p <= |s|
    {
      forall j, l :: 0 <= j < p && 0 < l <= |s| + 1 - j ==> !MatchAt(pat, s, j, l)
    }

    ghost predicate LeftmostNonempty(s: seq<nat>, found: bool, patbeg: nat, patlen: int) {
      if found then patbeg < |s| && patlen > 0 && Longest(s, patbeg, -1, |s| + 2 - patbeg, patlen) && NoneNonemptyBefore(s, patbeg)
      else NoneNonemptyBefore(s, |s|)
    }
  }
}
