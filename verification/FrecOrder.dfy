/**
  frec: in which order the nodes of the work list come up, and which of them find their blocks.

  The list is what is in front of the cursor and what is from the cursor on. The tape is read forward; only for a block
  in front of the last one read is it rewound.
*/
module FrecOrder {
  import opened FrecRing
  import opened FrecWork
  import opened Sequences

  // ---------------------------------------------------------------------
  // The cursor
  // ---------------------------------------------------------------------

  /** The list in front of the cursor, and from the cursor on. */
  datatype Cursor = Cursor(front: seq<Entry>, back: seq<Entry>)

  function Whole(s: Cursor): seq<Entry> { s.front + s.back }

  /** A node made while the cursor is at e, which is not in s. */
  function Beside(s: Cursor, e: Entry, n: Entry): Cursor {
    if n.blkno <= e.blkno then s.(front := Entered(s.front, n)) else s.(back := Entered(s.back, n))
  }

  function BesideAll(s: Cursor, e: Entry, ns: seq<Entry>): Cursor
    decreases |ns|
  {
    if ns == [] then s else BesideAll(Beside(s, e, ns[0]), e, ns[1..])
  }

  /** The whole list while the cursor is at e. */
  function With(s: Cursor, e: Entry): seq<Entry> { s.front + ([e] + s.back) }

  lemma {:induction false} PlaceInFront(f: seq<Entry>, e: Entry, b: seq<Entry>, blk: nat)
    requires blk <= e.blkno
    ensures Place(f + ([e] + b), blk) == Place(f, blk)
  {
    var c := f + ([e] + b);
    if f == [] {
      assert c[0] == e;
    } else {
      assert c[0] == f[0] && c[1..] == f[1..] + ([e] + b);
      if f[0].blkno < blk { PlaceInFront(f[1..], e, b, blk); }
    }
  }

  lemma {:induction false} PlaceBehind(f: seq<Entry>, e: Entry, b: seq<Entry>, blk: nat)
    requires e.blkno < blk && forall i :: 0 <= i < |f| ==> f[i].blkno < blk
    ensures Place(f + ([e] + b), blk) == |f| + 1 + Place(b, blk)
  {
    var c := f + ([e] + b);
    if f == [] {
      assert c[0] == e && c[1..] == b;
    } else {
      assert c[0] == f[0] && c[1..] == f[1..] + ([e] + b);
      PlaceBehind(f[1..], e, b, blk);
    }
  }

  lemma PutInFront(f: seq<Entry>, k: nat, n: Entry, r: seq<Entry>)
    requires k <= |f|
    ensures PutAt(f, k, n) + r == PutAt(f + r, k, n)
  {
    assert (f + r)[..k] == f[..k] && (f + r)[k..] == f[k..] + r;
  }

  lemma PutBehind(f: seq<Entry>, r: seq<Entry>, k: nat, n: Entry)
    requires k <= |r|
    ensures f + PutAt(r, k, n) == PutAt(f + r, |f| + k, n)
  {
    assert (f + r)[..|f| + k] == f + r[..k] && (f + r)[|f| + k..] == r[k..];
  }

  /** The cursor keeps apart what the list holds; a node comes to be where addnod puts it. */
  lemma BesideWhole(s: Cursor, e: Entry, n: Entry)
    requires InOrder(With(s, e))
    ensures With(Beside(s, e, n), e) == Entered(With(s, e), n)
  {
    var c := With(s, e);
    if n.blkno <= e.blkno {
      PlaceInFront(s.front, e, s.back, n.blkno);
      PutInFront(s.front, Place(s.front, n.blkno), n, [e] + s.back);
    } else {
      forall i | 0 <= i < |s.front| ensures s.front[i].blkno < n.blkno { assert c[i] == s.front[i] && c[|s.front|] == e; }
      PlaceBehind(s.front, e, s.back, n.blkno);
      var k := Place(s.back, n.blkno);
      PutBehind([e], s.back, k, n);
      PutBehind(s.front, [e] + s.back, 1 + k, n);
    }
  }

  function Cost(j: Job, s: Cursor): nat {
    TotalWeight(j, s.front) + TotalWeight(j, s.back)
  }

  ghost function Due(j: Job, s: Cursor): multiset<Write> {
    Pending(j, s.front) + Pending(j, s.back)
  }

  lemma BesideTotals(j: Job, s: Cursor, e: Entry, n: Entry)
    ensures Cost(j, Beside(s, e, n)) == Cost(j, s) + Weight(j, n.kind)
    ensures Due(j, Beside(s, e, n)) == Due(j, s) + Work(j, n)
  {
    if n.blkno <= e.blkno {
      EnteredInserts(s.front, n);
      InsertedTotals(j, s.front, Place(s.front, n.blkno), n, Entered(s.front, n));
    } else {
      EnteredInserts(s.back, n);
      InsertedTotals(j, s.back, Place(s.back, n.blkno), n, Entered(s.back, n));
    }
  }

  lemma {:induction false} BesideAllTotals(j: Job, s: Cursor, e: Entry, ns: seq<Entry>)
    ensures Cost(j, BesideAll(s, e, ns)) == Cost(j, s) + TotalWeight(j, ns)
    ensures Due(j, BesideAll(s, e, ns)) == Due(j, s) + Pending(j, ns)
    decreases |ns|
  {
    if ns != [] {
      BesideTotals(j, s, e, ns[0]);
      BesideAllTotals(j, Beside(s, e, ns[0]), e, ns[1..]);
      InsertedTotals(j, ns[1..], 0, ns[0], ns);
    }
  }

  /** The nodes that a node is replaced by when its block is there. */
  function ChildrenOf(j: Job, e: Entry): seq<Entry> {
    if (e.kind == Single || e.kind == Double) && Readable(j, e.blkno) then Children(j, e, j.tape[e.blkno], 0) else []
  }

  /** The cursor behind the first node, once that node was found. */
  function Passed(j: Job, s: Cursor): Cursor
    requires s.back != []
  {
    BesideAll(s.(back := s.back[1..]), s.back[0], ChildrenOf(j, s.back[0]))
  }

  lemma FirstTotals(j: Job, e: Entry, c: seq<Entry>)
    ensures TotalWeight(j, [e] + c) == Weight(j, e.kind) + TotalWeight(j, c) && Pending(j, [e] + c) == Work(j, e) + Pending(j, c)
  {
    assert Inserted(c, 0, e, [e] + c);
    InsertedTotals(j, c, 0, e, [e] + c);
  }

  /** What the node led to itself; what else it led to its children lead to. */
  ghost function Own(j: Job, e: Entry): multiset<Write> {
    if e.kind == Data && Readable(j, e.blkno) then multiset{WriteOf(e)} else multiset{}
  }

  function WriteOf(e: Entry): Write { Write(e.pip, e.bindex, e.blkno, e.count) }

  lemma PassedTotals(j: Job, s: Cursor)
    requires s.back != []
    ensures Cost(j, Passed(j, s)) < Cost(j, s)
    ensures Due(j, s) == Due(j, Passed(j, s)) + Own(j, s.back[0])
  {
    var e, c := s.back[0], ChildrenOf(j, s.back[0]);
    var t := s.(back := s.back[1..]);
    BesideAllTotals(j, t, e, c);
    assert s.back == [e] + s.back[1..];
    FirstTotals(j, e, s.back[1..]);
    if (e.kind == Single || e.kind == Double) && Readable(j, e.blkno) {
      ChildrenWeight(j, e, j.tape[e.blkno]);
      WorkIsChildren(j, e);
    }
  }

  lemma SkippedTotals(j: Job, s: Cursor)
    requires s.back != []
    ensures var t := s.(back := s.back[1..]); Cost(j, t) < Cost(j, s) && Due(j, s) == Due(j, t) + Work(j, s.back[0])
  {
    assert s.back == [s.back[0]] + s.back[1..];
    FirstTotals(j, s.back[0], s.back[1..]);
  }

  // ---------------------------------------------------------------------
  // Reading the tape
  // ---------------------------------------------------------------------

  const BSIZE: nat := 512

  /** The block is found; or it is not and the last block read is now another one; or the program ends. */
  datatype Locus = Hit | Miss(curb: int) | Stop

  /** Where a block is on the reel, in units of 512 bytes. */
  function OnReel(j: Job, blkno: nat): nat { blkno * j.bsize / BSIZE }

  /** The block at which Vrecover gives up. */
  function EndBlock(j: Job): nat {
    if 2 * j.reelblks < j.lstblk then 2 * j.reelblks else j.lstblk
  }

  /** The tape is rewound, or another reel is asked for. */
  predicate Turns(j: Job, curb: int, blkno: nat) {
    blkno < curb || OnReel(j, blkno) > j.reelblks
  }

  /** Vrecover's reading, when the last block read was curb. */
  function Locate(j: Job, curb: int, blkno: nat): Locus {
    if blkno == 0 then Miss(curb)
    else if Turns(j, curb, blkno) && OnReel(j, blkno) / j.reelblks > 0 then Stop
    else Forward(j, if Turns(j, curb, blkno) then -1 else curb, blkno)
  }

  function Forward(j: Job, curb: int, blkno: nat): Locus {
    if curb < blkno < EndBlock(j) && blkno < |j.tape| then Hit
    else
      var end := if curb + 1 < EndBlock(j) then EndBlock(j) else curb + 1;
      if end < |j.tape| then Miss(end) else Stop
  }

  // ---------------------------------------------------------------------
  // A run
  // ---------------------------------------------------------------------

  /** The nodes that were found, those that were not, and those that were left when the program ended. */
  datatype Trace = Trace(found: seq<Entry>, lost: seq<Entry>, rest: seq<Entry>)

  ghost function Run(j: Job, curb: int, s: Cursor): Trace
    decreases Cost(j, s), s.back == []
  {
    if s.back == [] then (if s.front == [] then Trace([], [], []) else Run(j, curb, Cursor([], s.front)))
    else
      var e := s.back[0];
      match Locate(j, curb, e.blkno)
      case Hit =>
        PassedTotals(j, s);
        var t := Run(j, e.blkno, Passed(j, s));
        t.(found := [e] + t.found)
      case Miss(curb') =>
        SkippedTotals(j, s);
        var t := Run(j, curb', s.(back := s.back[1..]));
        t.(lost := [e] + t.lost)
      case Stop => Trace([], [], Whole(s))
  }

  /** The writes for the data blocks among these nodes. */
  function WritesOf(es: seq<Entry>): seq<Write> {
    if es == [] then []
    else if es[0].kind == Data then [WriteOf(es[0])] + WritesOf(es[1..])
    else WritesOf(es[1..])
  }

  lemma WritesFirst(j: Job, e: Entry, f: seq<Entry>)
    requires Readable(j, e.blkno)
    ensures multiset(WritesOf([e] + f)) == Own(j, e) + multiset(WritesOf(f))
  {
    assert ([e] + f)[1..] == f;
  }

  ghost function Balance(j: Job, t: Trace): multiset<Write> {
    multiset(WritesOf(t.found)) + Pending(j, t.lost) + Pending(j, t.rest)
  }

  lemma BalanceFound(j: Job, e: Entry, t: Trace)
    requires Readable(j, e.blkno)
    ensures Balance(j, t.(found := [e] + t.found)) == Own(j, e) + Balance(j, t)
  {
    WritesFirst(j, e, t.found);
  }

  lemma BalanceLost(j: Job, e: Entry, t: Trace)
    ensures Balance(j, t.(lost := [e] + t.lost)) == Work(j, e) + Balance(j, t)
  {
    FirstTotals(j, e, t.lost);
  }

  /** What is written, what is lost and what is left make up what was due. */
  lemma {:induction false} RunBalance(j: Job, curb: int, s: Cursor)
    ensures Balance(j, Run(j, curb, s)) == Due(j, s)
    decreases Cost(j, s), s.back == [], 1
  {
    if s.back == [] {
      if s.front != [] { RunBalance(j, curb, Cursor([], s.front)); }
    } else {
      match Locate(j, curb, s.back[0].blkno) {
        case Hit => FoundBalance(j, curb, s);
        case Miss(curb') => LostBalance(j, curb, s, curb');
        case Stop => PendingWhole(j, s);
      }
    }
  }

  lemma {:induction false} FoundBalance(j: Job, curb: int, s: Cursor)
    requires s.back != [] && Locate(j, curb, s.back[0].blkno) == Hit
    ensures Balance(j, Run(j, curb, s)) == Due(j, s)
    decreases Cost(j, s), s.back == [], 0
  {
    var e, t := s.back[0], Passed(j, s);
    PassedTotals(j, s);
    RunBalance(j, e.blkno, t);
    BalanceFound(j, e, Run(j, e.blkno, t));
  }

  lemma {:induction false} LostBalance(j: Job, curb: int, s: Cursor, curb': int)
    requires s.back != [] && Locate(j, curb, s.back[0].blkno) == Miss(curb')
    ensures Balance(j, Run(j, curb, s)) == Due(j, s)
    decreases Cost(j, s), s.back == [], 0
  {
    var t := s.(back := s.back[1..]);
    SkippedTotals(j, s);
    RunBalance(j, curb', t);
    BalanceLost(j, s.back[0], Run(j, curb', t));
  }

  lemma PendingWhole(j: Job, s: Cursor)
    ensures Pending(j, Whole(s)) == Due(j, s)
  {
    PendingAppend(j, s.front, s.back);
  }

  lemma {:induction false} PendingAppend(j: Job, a: seq<Entry>, b: seq<Entry>)
    ensures Pending(j, a + b) == Pending(j, a) + Pending(j, b)
  {
    if a == [] {
      assert a + b == b;
    } else {
      PendingAppend(j, a[1..], b);
      FirstTotals(j, a[0], a[1..]);
      FirstTotals(j, a[0], a[1..] + b);
      assert a == [a[0]] + a[1..] && a + b == [a[0]] + (a[1..] + b);
    }
  }

  // ---------------------------------------------------------------------
  // When every node is found
  // ---------------------------------------------------------------------

  /** The nodes as they come up when all are found. */
  ghost function Order(j: Job, s: Cursor): seq<Entry>
    decreases Cost(j, s), s.back == []
  {
    if s.back == [] then (if s.front == [] then [] else Order(j, Cursor([], s.front)))
    else
      PassedTotals(j, s);
      [s.back[0]] + Order(j, Passed(j, s))
  }

  /** Each of the nodes is found where the one in front of it leaves the tape. */
  ghost predicate Good(j: Job, curb: int, o: seq<Entry>)
    decreases |o|
  {
    o == [] || (Locate(j, curb, o[0].blkno) == Hit && Good(j, o[0].blkno, o[1..]))
  }

  ghost predicate Flawless(t: Trace) { t.lost == [] && t.rest == [] }

  /** Nothing is lost and nothing left exactly when each node is found behind the one in front of it. */
  lemma {:induction false} FlawlessExactly(j: Job, curb: int, s: Cursor)
    ensures Flawless(Run(j, curb, s)) <==> Good(j, curb, Order(j, s))
    ensures Flawless(Run(j, curb, s)) ==> Run(j, curb, s).found == Order(j, s)
    decreases Cost(j, s), s.back == []
  {
    if s.back == [] {
      if s.front != [] { FlawlessExactly(j, curb, Cursor([], s.front)); }
    } else {
      var e, t := s.back[0], Passed(j, s);
      PassedTotals(j, s);
      assert ([e] + Order(j, t))[1..] == Order(j, t);
      if Locate(j, curb, e.blkno) == Hit { FlawlessExactly(j, e.blkno, t); }
    }
  }

  /** Then every write that the list leads to is made. */
  lemma FlawlessWrites(j: Job, curb: int, s: Cursor)
    requires Good(j, curb, Order(j, s))
    ensures multiset(WritesOf(Order(j, s))) == Pending(j, Whole(s))
  {
    FlawlessExactly(j, curb, s);
    RunBalance(j, curb, s);
    PendingWhole(j, s);
  }

  /** Well within the first reel and in front of the end of the file system. */
  predicate Near(j: Job, blkno: nat) {
    blkno < EndBlock(j) && OnReel(j, blkno) < j.reelblks
  }

  /** No node is unreadable or has the number of the one in front of it. */
  ghost predicate Apart(j: Job, curb: int, o: seq<Entry>) {
    && (forall i :: 0 <= i < |o| ==> Readable(j, o[i].blkno))
    && (o != [] ==> o[0].blkno != curb)
    && (forall i, k :: 0 <= i < k < |o| && k == i + 1 ==> o[i].blkno != o[k].blkno)
  }

  lemma ApartFirst(j: Job, curb: int, o: seq<Entry>)
    requires o != []
    ensures Apart(j, curb, o) <==> Readable(j, o[0].blkno) && o[0].blkno != curb && Apart(j, o[0].blkno, o[1..])
  {
    var r := o[1..];
    if Apart(j, curb, o) {
      forall i, k | 0 <= i < k < |r| && k == i + 1 ensures r[i].blkno != r[k].blkno { assert o[i + 1] == r[i] && o[k + 1] == r[k]; }
      forall i | 0 <= i < |r| ensures Readable(j, r[i].blkno) { assert o[i + 1] == r[i]; }
      assert r != [] ==> o[0].blkno != o[1].blkno;
    }
    if Apart(j, o[0].blkno, r) && Readable(j, o[0].blkno) && o[0].blkno != curb {
      forall i, k | 0 <= i < k < |o| && k == i + 1 ensures o[i].blkno != o[k].blkno {
        assert r[k - 1] == o[k];
        if i > 0 { assert r[i - 1] == o[i]; }
      }
      forall i | 0 <= i < |o| ensures Readable(j, o[i].blkno) { if i > 0 { assert o[i] == r[i - 1]; } }
    }
  }

  /** Within the reel nothing is lost exactly when every block can be read and no two neighbours have one number. */
  lemma {:induction false} GoodMeans(j: Job, curb: int, o: seq<Entry>)
    requires forall i :: 0 <= i < |o| ==> Near(j, o[i].blkno)
    ensures Good(j, curb, o) <==> Apart(j, curb, o)
    decreases |o|
  {
    if o != [] {
      Within(j, curb, o[0].blkno);
      GoodMeans(j, o[0].blkno, o[1..]);
      ApartFirst(j, curb, o);
    }
  }

  lemma Within(j: Job, curb: int, blkno: nat)
    requires Near(j, blkno)
    ensures Locate(j, curb, blkno) == Hit <==> Readable(j, blkno) && blkno != curb
  {
    assert OnReel(j, blkno) / j.reelblks == 0;
  }

  // ---------------------------------------------------------------------
  // Numbers that occur once, and numbers that occur twice
  // ---------------------------------------------------------------------

  /** How many of the nodes have this number. */
  ghost function Times(o: seq<Entry>, b: nat): nat {
    if o == [] then 0 else (if o[0].blkno == b then 1 else 0) + Times(o[1..], b)
  }

  ghost predicate NoHead(c: seq<Entry>) {
    forall i :: 0 <= i < |c| ==> c[i].kind != Head
  }

  ghost function UsesOf(j: Job, s: Cursor, b: nat): nat {
    UsesIn(j, s.front, b) + UsesIn(j, s.back, b)
  }

  lemma BesideUses(j: Job, s: Cursor, e: Entry, n: Entry, b: nat)
    requires NoHead(s.front) && NoHead(s.back) && n.kind != Head
    ensures UsesOf(j, Beside(s, e, n), b) == UsesOf(j, s, b) + Uses(j, n, b)
    ensures NoHead(Beside(s, e, n).front) && NoHead(Beside(s, e, n).back)
  {
    if n.blkno <= e.blkno {
      EnteredInserts(s.front, n);
      InsertedUses(j, s.front, Place(s.front, n.blkno), n, Entered(s.front, n), b);
    } else {
      EnteredInserts(s.back, n);
      InsertedUses(j, s.back, Place(s.back, n.blkno), n, Entered(s.back, n), b);
    }
  }

  lemma {:induction false} BesideAllUses(j: Job, s: Cursor, e: Entry, ns: seq<Entry>, b: nat)
    requires NoHead(s.front) && NoHead(s.back) && NoHead(ns)
    ensures UsesOf(j, BesideAll(s, e, ns), b) == UsesOf(j, s, b) + UsesIn(j, ns, b)
    ensures NoHead(BesideAll(s, e, ns).front) && NoHead(BesideAll(s, e, ns).back)
    decreases |ns|
  {
    if ns != [] {
      BesideUses(j, s, e, ns[0], b);
      BesideAllUses(j, Beside(s, e, ns[0]), e, ns[1..], b);
      InsertedUses(j, ns[1..], 0, ns[0], ns, b);
    }
  }

  lemma PassedUses(j: Job, s: Cursor, b: nat)
    requires s.back != [] && NoHead(s.front) && NoHead(s.back)
    ensures UsesOf(j, s, b) == (if s.back[0].blkno == b then 1 else 0) + UsesOf(j, Passed(j, s), b)
    ensures NoHead(Passed(j, s).front) && NoHead(Passed(j, s).back)
  {
    var e, c := s.back[0], ChildrenOf(j, s.back[0]);
    BesideAllUses(j, s.(back := s.back[1..]), e, c, b);
    InsertedUses(j, s.back[1..], 0, e, s.back, b);
    if (e.kind == Single || e.kind == Double) && Readable(j, e.blkno) { UsesBelow(j, c, Rank(e.kind), b); }
  }

  lemma {:induction false} OrderUses(j: Job, s: Cursor, b: nat)
    requires NoHead(s.front) && NoHead(s.back)
    ensures Times(Order(j, s), b) == UsesOf(j, s, b)
    decreases Cost(j, s), s.back == []
  {
    if s.back == [] {
      if s.front != [] { OrderUses(j, Cursor([], s.front), b); }
    } else {
      PassedTotals(j, s);
      PassedUses(j, s, b);
      OrderUses(j, Passed(j, s), b);
      assert Order(j, s)[1..] == Order(j, Passed(j, s));
    }
  }

  lemma {:induction false} OnceGood(j: Job, curb: int, o: seq<Entry>)
    requires forall b :: Times(o, b) <= if Near(j, b) && Readable(j, b) && b != curb then 1 else 0
    ensures Good(j, curb, o)
    decreases |o|
  {
    if o != [] {
      var b := o[0].blkno;
      assert Times(o, b) >= 1;
      Within(j, curb, b);
      forall a ensures Times(o[1..], a) <= if Near(j, a) && Readable(j, a) && a != b then 1 else 0 {
        assert Times(o, a) == (if b == a then 1 else 0) + Times(o[1..], a);
      }
      OnceGood(j, b, o[1..]);
    }
  }

  /** When no block occurs twice among those that the list leads to, each can be read, and the first is not the one
      just read, then nothing is lost. */
  lemma OnceEach(j: Job, curb: int, s: Cursor)
    requires NoHead(s.front) && NoHead(s.back)
    requires forall b :: UsesOf(j, s, b) <= if Near(j, b) && Readable(j, b) && b != curb then 1 else 0
    ensures Good(j, curb, Order(j, s))
  {
    forall b ensures Times(Order(j, s), b) == UsesOf(j, s, b) { OrderUses(j, s, b); }
    OnceGood(j, curb, Order(j, s));
  }

  /** Two nodes of the list have the same number. */
  ghost predicate Twins(c: seq<Entry>) {
    exists i, k :: 0 <= i < k < |c| && c[i].blkno == c[k].blkno
  }

  lemma EnteredTwins(c: seq<Entry>, n: Entry)
    requires InOrder(c) && Twins(c) && n.kind != Head
    ensures InOrder(Entered(c, n)) && Twins(Entered(c, n))
  {
    EnteredInserts(c, n);
    var p, d := Place(c, n.blkno), Entered(c, n);
    var i, k :| 0 <= i < k < |c| && c[i].blkno == c[k].blkno;
    var i', k' := if i < p then i else i + 1, if k < p then k else k + 1;
    assert d[i'].blkno == d[k'].blkno;
  }

  lemma {:induction false} BesideAllTwins(s: Cursor, e: Entry, ns: seq<Entry>)
    requires InOrder(s.back) && Twins(s.back) && NoHead(ns)
    ensures InOrder(BesideAll(s, e, ns).back) && Twins(BesideAll(s, e, ns).back)
    decreases |ns|
  {
    if ns != [] {
      if ns[0].blkno > e.blkno { EnteredTwins(s.back, ns[0]); }
      BesideAllTwins(Beside(s, e, ns[0]), e, ns[1..]);
    }
  }

  /** What is made beside a node does not come between it and one with the same number. */
  lemma {:induction false} BesideAllNext(s: Cursor, e: Entry, ns: seq<Entry>)
    requires s.back != [] && s.back[0].blkno == e.blkno
    ensures var t := BesideAll(s, e, ns); t.back != [] && t.back[0] == s.back[0]
    decreases |ns|
  {
    if ns != [] { BesideAllNext(Beside(s, e, ns[0]), e, ns[1..]); }
  }

  lemma TwinFirst(j: Job, s: Cursor)
    requires |s.back| > 1 && s.back[0].blkno == s.back[1].blkno
    ensures !Good(j, s.back[0].blkno, Order(j, Passed(j, s)))
  {
    var e, rest, t := s.back[0], s.back[1..], Passed(j, s);
    BesideAllNext(s.(back := rest), e, ChildrenOf(j, e));
    assert t.back[0] == rest[0];
    PassedTotals(j, t);
    assert Order(j, t)[0] == t.back[0];
    assert Locate(j, e.blkno, e.blkno) != Hit;
  }

  lemma TwinsLeft(j: Job, s: Cursor)
    requires InOrder(s.back) && Twins(s.back) && !(|s.back| > 1 && s.back[0].blkno == s.back[1].blkno)
    ensures InOrder(Passed(j, s).back) && Twins(Passed(j, s).back)
  {
    var rest := s.back[1..];
    var i, k :| 0 <= i < k < |s.back| && s.back[i].blkno == s.back[k].blkno;
    assert i > 0;
    assert rest[i - 1].blkno == rest[k - 1].blkno;
    BesideAllTwins(s.(back := rest), s.back[0], ChildrenOf(j, s.back[0]));
  }

  lemma GoodNext(j: Job, curb: int, e: Entry, o: seq<Entry>)
    ensures Good(j, curb, [e] + o) <==> Locate(j, curb, e.blkno) == Hit && Good(j, e.blkno, o)
  {
    assert ([e] + o)[1..] == o;
  }

  /** Two nodes with one number in the list at once: the second of them is not found behind the first. */
  lemma {:induction false} TwinsNeverGood(j: Job, curb: int, s: Cursor)
    requires InOrder(s.back) && Twins(s.back)
    ensures !Good(j, curb, Order(j, s))
    decreases Cost(j, s)
  {
    PassedTotals(j, s);
    GoodNext(j, curb, s.back[0], Order(j, Passed(j, s)));
    if |s.back| > 1 && s.back[0].blkno == s.back[1].blkno {
      TwinFirst(j, s);
    } else {
      TwinsLeft(j, s);
      TwinsNeverGood(j, s.back[0].blkno, Passed(j, s));
    }
  }

  /** The last node of the list, when its block is the one just read. */
  lemma LastTwin(j: Job, y: Entry)
    requires y.blkno != 0
    ensures var t := Run(j, y.blkno, Cursor([], [y])); t.found == [] && t.lost + t.rest == [y]
  {
    var s := Cursor([], [y]);
    SkippedTotals(j, s);
    assert s.back[1..] == [];
    assert Locate(j, y.blkno, y.blkno) != Hit;
    assert Run(j, y.blkno, Cursor([], [])) == Trace([], [], []);
    if Locate(j, y.blkno, y.blkno) == Stop {
      assert Whole(s) == [y];
    }
  }

  /** Two data blocks with one number: only the first is written. */
  lemma SharedBlock(j: Job, curb: int, x: Entry, y: Entry)
    requires x.kind == Data && y.kind == Data && x.blkno == y.blkno
    requires Locate(j, curb, x.blkno) == Hit
    ensures var t := Run(j, curb, Cursor([], [x, y]));
            t.found == [x] && WritesOf(t.found) == [WriteOf(x)] && t.lost + t.rest == [y]
  {
    var s := Cursor([], [x, y]);
    PassedTotals(j, s);
    assert s.back[1..] == [y];
    assert Passed(j, s) == Cursor([], [y]);
    LastTwin(j, y);
    assert WritesOf([x]) == [WriteOf(x)] + WritesOf([x][1..]);
  }
}
