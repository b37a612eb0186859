/**
  frec: recovering files from a dump tape, driven by a work list of blocks.

  The tape is one reel written by volcopy. The list is visited in ascending order, over and over, until it is empty
  or the tape ends in the middle of a search.
*/
module Frec {
  import opened Bytes
  import opened FrecOrder
  import opened FrecRing
  import opened FrecTape
  import opened FrecWork
  import opened Sequences

  // ---------------------------------------------------------------------
  // The job that a tape poses
  // ---------------------------------------------------------------------

  const SIZEOF_DADDR: nat := 4

  function WordOfBytes(b0: nat, b1: nat, b2: nat, b3: nat): nat { ((b0 * 256 + b1) * 256 + b2) * 256 + b3 }

  /** Word i of a block, the most significant byte first. */
  function WordAt(b: seq<byte>, i: nat): nat
    requires SIZEOF_DADDR * i + 3 < |b|
  {
    var k := SIZEOF_DADDR * i;
    WordOfBytes(b[k], b[k + 1], b[k + 2], b[k + 3])
  }

  function Words(b: seq<byte>): (w: seq<nat>)
    ensures |w| == |b| / SIZEOF_DADDR
  {
    seq(|b| / SIZEOF_DADDR, i requires 0 <= i < |b| / SIZEOF_DADDR => WordAt(b, i))
  }

  /** The bytes of addresses, the most significant one of each first. */
  function BytesOf(ws: seq<nat>): (b: seq<byte>)
    requires forall i :: 0 <= i < |ws| ==> ws[i] < 0x1_0000_0000
    ensures |b| == 4 * |ws|
  {
    if ws == [] then []
    else
      [ws[0] / 0x100_0000, ws[0] / 0x1_0000 % 256, ws[0] / 0x100 % 256, ws[0] % 256] + BytesOf(ws[1..])
  }

  lemma {:induction false} BytesAt(ws: seq<nat>, i: nat)
    requires (forall j :: 0 <= j < |ws| ==> ws[j] < 0x1_0000_0000) && i < |ws|
    ensures var b, k := BytesOf(ws), 4 * i;
            && b[k] == ws[i] / 0x100_0000 && b[k + 1] == ws[i] / 0x1_0000 % 256
            && b[k + 2] == ws[i] / 0x100 % 256 && b[k + 3] == ws[i] % 256
  {
    if i > 0 { BytesAt(ws[1..], i - 1); }
  }

  lemma OneWord(w: nat)
    requires w < 0x1_0000_0000
    ensures WordOfBytes(w / 0x100_0000, w / 0x1_0000 % 256, w / 0x100 % 256, w % 256) == w
  {
    assert w / 0x1_0000 == w / 0x100_0000 * 256 + w / 0x1_0000 % 256;
    assert w / 0x100 == w / 0x1_0000 * 256 + w / 0x100 % 256;
  }

  /** The addresses in an indirect block are those whose bytes it holds. */
  lemma WordsBack(ws: seq<nat>)
    requires forall i :: 0 <= i < |ws| ==> ws[i] < 0x1_0000_0000
    ensures Words(BytesOf(ws)) == ws
  {
    forall i: nat | i < |ws| ensures WordAt(BytesOf(ws), i) == ws[i] {
      BytesAt(ws, i);
      OneWord(ws[i]);
    }
  }

  /** Logical block k of a tape. */
  function PieceOf(stream: seq<byte>, bsize: nat, k: nat): seq<byte> {
    if k * bsize + bsize <= |stream| then stream[k * bsize..k * bsize + bsize] else []
  }

  /** The blocks of the job are the logical blocks that end in a whole tape block, as words. */
  ghost predicate OnTape(j: Job, stream: seq<byte>, bsize: nat, blksize: nat) {
    && 0 < bsize == j.bsize && blksize > 0
    && |j.tape| * bsize <= Usable(|stream|, blksize) < |j.tape| * bsize + bsize
    && forall k :: 0 <= k < |j.tape| ==> j.tape[k] == Words(PieceOf(stream, bsize, k))
  }

  /** The tape stands behind block curb. */
  predicate StandsBehind(curb: int, bsize: nat, next: nat) {
    curb >= -1 && next == (curb + 1) * bsize
  }

  lemma NextFits(n: nat, c: nat, b: nat, u: nat)
    requires n * b <= u < n * b + b
    ensures (c + 1) * b == c * b + b && (c * b + b <= u <==> c < n)
  {
    assert (c + 1) * b == c * b + b;
    if c < n { Ordered(c + 1, n, b); } else { Ordered(n, c, b); }
  }

  lemma Ordered(a: nat, b: nat, m: nat)
    requires a <= b
    ensures a * m <= b * m
  {
  }

  /** The next logical block is there exactly when the job has it, and its words are those of the job. */
  lemma NextOnTape(j: Job, stream: seq<byte>, bsize: nat, blksize: nat, curb: int, next: nat)
    requires OnTape(j, stream, bsize, blksize) && StandsBehind(curb, bsize, next)
    ensures StandsBehind(curb + 1, bsize, next + bsize)
    ensures next + bsize <= Usable(|stream|, blksize) <==> curb + 1 < |j.tape|
    ensures curb + 1 < |j.tape| ==>
              next + bsize <= |stream| && j.tape[curb + 1] == Words(stream[next..next + bsize])
  {
    NextFits(|j.tape|, curb + 1, bsize, Usable(|stream|, blksize));
    if curb + 1 < |j.tape| { assert PieceOf(stream, bsize, curb + 1) == stream[next..next + bsize]; }
  }

  // ---------------------------------------------------------------------
  // The list and the cursor
  // ---------------------------------------------------------------------

  /** A node entered beside the cursor: the node at the cursor stays there. */
  lemma BesideNode(s: Cursor, e: Entry, n: Entry, nodes: seq<Bdata>, x: Bdata)
    requires InOrder(With(s, e)) && |nodes| == |With(s, e)|
    ensures With(Beside(s, e, n), e) == Entered(With(s, e), n)
    ensures var k, m := Place(With(s, e), n.blkno), |Beside(s, e, n).front|;
            k <= |nodes| && m <= |nodes| && PutAt(nodes, k, x)[m] == nodes[|s.front|]
  {
    BesideWhole(s, e, n);
    if n.blkno <= e.blkno {
      PlaceInFront(s.front, e, s.back, n.blkno);
    } else {
      var c := With(s, e);
      forall i | 0 <= i < |s.front| ensures s.front[i].blkno < n.blkno { assert c[i] == s.front[i] && c[|s.front|] == e; }
      PlaceBehind(s.front, e, s.back, n.blkno);
    }
  }

  /** What ptrblk is still to enter. */
  function Rest(j: Job, e: Entry, buf: seq<nat>, i: nat, done: bool): seq<Entry>
    requires i <= |buf|
  {
    if done then [] else Children(j, e, buf, i)
  }

  /** What was found and lost so far, in front of a run. */
  function Then(found: seq<Entry>, lost: seq<Entry>, t: Trace): Trace {
    Trace(found + t.found, lost + t.lost, t.rest)
  }

  lemma ThenThen(f: seq<Entry>, l: seq<Entry>, f': seq<Entry>, l': seq<Entry>, t: Trace)
    ensures Then(f + f', l + l', t) == Then(f, l, Then(f', l', t))
  {
    Assoc(f, f', t.found);
    Assoc(l, l', t.lost);
  }

  lemma {:induction false} WritesAppend(a: seq<Entry>, b: seq<Entry>)
    ensures WritesOf(a + b) == WritesOf(a) + WritesOf(b)
  {
    if a == [] {
      assert a + b == b;
    } else {
      assert (a + b)[1..] == a[1..] + b;
      WritesAppend(a[1..], b);
    }
  }

  /** A turn that finds one node, or gives one up, or ends the program, or goes round. */
  datatype Step = Step(stop: bool, found: seq<Entry>, lost: seq<Entry>, left: Cursor)

  function StepAt(j: Job, s: Cursor, at: Locus): Step
    requires s.back != []
  {
    match at
    case Hit => Step(false, [s.back[0]], [], Passed(j, s))
    case Miss(_) => Step(false, [], [s.back[0]], s.(back := s.back[1..]))
    case Stop => Step(true, [], [], s)
  }

  /** The run over s is the turn and then the run over what it leaves, when the last block read is curb'. */
  ghost predicate Turned(j: Job, curb: int, s: Cursor, x: Step, curb': int) {
    if x.stop then Run(j, curb, s) == Then(x.found, x.lost, Trace([], [], Whole(x.left))) && Whole(x.left) != []
    else
      && Run(j, curb, s) == Then(x.found, x.lost, Run(j, curb', x.left))
      && (Cost(j, x.left) < Cost(j, s) || (Cost(j, x.left) == Cost(j, s) && s.back == [] != x.left.back))
  }

  lemma TurnedAt(j: Job, curb: int, s: Cursor)
    requires s.back != []
    ensures var at := Locate(j, curb, s.back[0].blkno);
            Turned(j, curb, s, StepAt(j, s, at), match at case Hit => s.back[0].blkno case Miss(c) => c case Stop => 0)
  {
    match Locate(j, curb, s.back[0].blkno)
    case Hit =>
      PassedTotals(j, s);
      var t := Run(j, s.back[0].blkno, Passed(j, s));
      assert [] + t.lost == t.lost;
    case Miss(c) =>
      SkippedTotals(j, s);
      var t := Run(j, c, s.(back := s.back[1..]));
      assert [] + t.found == t.found;
    case Stop =>
      var none: seq<Entry> := [];
      assert none + none == none;
  }

  lemma TurnedRound(j: Job, curb: int, s: Cursor)
    requires s.back == [] && s.front != []
    ensures Turned(j, curb, s, Step(false, [], [], Cursor([], s.front)), curb)
  {
    var t := Run(j, curb, Cursor([], s.front));
    assert [] + t.found == t.found && [] + t.lost == t.lost;
  }

  // ---------------------------------------------------------------------
  // Recovery
  // ---------------------------------------------------------------------

  /** How many reels the dump has. */
  const REELS: nat := 1

  class Recovery {
    const job: Job
    const ring: Ring
    const tape: Tape
    var written: seq<Write>

    constructor (job: Job, tape: Tape)
      ensures this.job == job && this.tape == tape && written == []
      ensures fresh(ring) && fresh(ring.repr) && ring.Valid() && ring.nodes == [] && ring.contents == []
    {
      this.job, this.tape, written := job, tape, [];
      ring := new Ring();
    }

    /** The job is that of the tape, and the tape stands behind the block read last. */
    ghost predicate Ready()
      reads tape, tape.ibuf
    {
      && tape.Valid() && OnTape(job, tape.stream, tape.bsize, tape.blksize)
      && StandsBehind(tape.curb, tape.bsize, tape.Next())
    }

    method NextBlock() returns (b: Block)
      requires Ready()
      modifies tape`pos, tape`bufoff, tape`curb, tape.ibuf, tape.lbbuf
      ensures b.Block? <==> old(tape.curb) + 1 < |job.tape|
      ensures b.Block? ==> Ready() && tape.curb == old(tape.curb) + 1 >= 0 && Words(b.bytes) == job.tape[tape.curb]
    {
      NextOnTape(job, tape.stream, tape.bsize, tape.blksize, tape.curb, tape.Next());
      b := tape.Getblk();
    }

    /** newtp: false when there is no such reel. */
    method Newtp(reel: nat) returns (ok: bool)
      requires Ready() && reel > 0
      modifies tape`pos, tape`bufoff, tape`curb
      ensures ok == (reel == REELS) && Ready() && tape.curb == if ok then -1 else old(tape.curb)
    {
      ok := reel <= REELS;
      if ok {
        tape.Rewind();
      }
    }

    /** Reading forward as far as the block, or the place where the search is given up. */
    method Scan(blkno: nat) returns (b: Block)
      requires Ready()
      modifies tape`pos, tape`bufoff, tape`curb, tape.ibuf, tape.lbbuf
      ensures b.NoBlock? <==> Forward(job, old(tape.curb), blkno) == Stop
      ensures b.Block? ==> Ready() && 0 <= tape.curb < |job.tape| && Words(b.bytes) == job.tape[tape.curb]
      ensures b.Block? ==>
                Forward(job, old(tape.curb), blkno) == if tape.curb == blkno < EndBlock(job) then Hit else Miss(tape.curb)
    {
      ghost var goal := Forward(job, tape.curb, blkno);
      var blksontp := if 2 * job.reelblks < job.lstblk then 2 * job.reelblks else job.lstblk;
      b := NextBlock();
      while b.Block? && tape.curb < blksontp
        invariant b.NoBlock? ==> goal == Stop
        invariant b.Block? ==> Ready() && 0 <= tape.curb < |job.tape| && Words(b.bytes) == job.tape[tape.curb]
        invariant b.Block? ==> goal == Forward(job, tape.curb - 1, blkno)
        decreases b.Block?, |job.tape| - tape.curb
      {
        if tape.curb == blkno {
          return;
        }
        b := NextBlock();
      }
    }

    /** Another reel, or this one again, if the block needs it. */
    method Mount(blkno: nat) returns (ok: bool)
      requires Ready()
      modifies tape`pos, tape`bufoff, tape`curb
      ensures ok == !(Turns(job, old(tape.curb), blkno) && OnReel(job, blkno) / job.reelblks > 0)
      ensures ok ==> Ready() && tape.curb == if Turns(job, old(tape.curb), blkno) then -1 else old(tape.curb)
    {
      ok := true;
      if blkno < tape.curb || OnReel(job, blkno) > REELS * job.reelblks {
        ok := Newtp(OnReel(job, blkno) / job.reelblks + 1);
      }
    }

    /** The search of Vrecover for a block, and the words in it. */
    method Find(blkno: nat) returns (at: Locus, buf: seq<nat>)
      requires Ready()
      modifies tape`pos, tape`bufoff, tape`curb, tape.ibuf, tape.lbbuf
      ensures at == Locate(job, old(tape.curb), blkno)
      ensures at.Hit? ==> Ready() && Readable(job, blkno) && tape.curb == blkno && buf == job.tape[blkno]
      ensures at.Miss? ==> Ready() && tape.curb == at.curb
    {
      if blkno == 0 {
        return Miss(tape.curb), [];
      }
      var ok := Mount(blkno);
      if !ok {
        return Stop, [];
      }
      var b := Scan(blkno);
      if b.NoBlock? {
        return Stop, [];
      }
      at := if tape.curb == blkno && blkno < EndBlock(job) then Hit else Miss(tape.curb);
      buf := Words(b.bytes);
    }

    /** datablk */
    method Datablk(bp: Bdata)
      modifies this`written
      ensures written == old(written) + [WriteOf(bp.Value())]
    {
      written := written + [Write(bp.pip, bp.bindex, bp.blkno, bp.count)];
    }

    /** The list is s with e at the cursor, where bp is. */
    ghost predicate InHand(bp: Bdata, e: Entry, s: Cursor)
      reads ring, ring.repr
    {
      ring.Valid() && ring.contents == With(s, e) && |s.front| < |ring.nodes| && ring.nodes[|s.front|] == bp
    }

    /** One word of an indirect block: the switch of ptrblk, unless the word is zero. */
    method Word(bp: Bdata, e: Entry, buf: seq<nat>, i: nat, ghost s: Cursor) returns (done: bool, ghost t: Cursor)
      requires InHand(bp, e, s) && (e.kind == Single || e.kind == Double) && i < |buf|
      modifies ring, ring.repr`rlink, ring.repr`llink
      ensures InHand(bp, e, t) && fresh(ring.repr - old(ring.repr))
      ensures BesideAll(s, e, Rest(job, e, buf, i, false)) == BesideAll(t, e, Rest(job, e, buf, i + 1, done))
    {
      done, t := false, s;
      if buf[i] != 0 {
        done := e.kind == Single && IsLast(job, e.pip, e.bindex + i);
        t := EnterBeside(bp, e, Child(job, e, buf[i], i), s);
        NextChild(job, e, buf, i, done, s);
      }
    }

    static lemma NextChild(j: Job, e: Entry, buf: seq<nat>, i: nat, done: bool, s: Cursor)
      requires i < |buf| && buf[i] != 0 && done == (e.kind == Single && IsLast(j, e.pip, e.bindex + i))
      ensures BesideAll(s, e, Rest(j, e, buf, i, false)) == BesideAll(Beside(s, e, Child(j, e, buf[i], i)), e, Rest(j, e, buf, i + 1, done))
    {
      var r, r', c := Rest(j, e, buf, i, false), Rest(j, e, buf, i + 1, done), Child(j, e, buf[i], i);
      assert r == [c] + r';
      assert r[1..] == r';
    }

    /** addnod while bp is at the cursor. */
    method EnterBeside(bp: Bdata, ghost e: Entry, n: Entry, ghost s: Cursor) returns (ghost t: Cursor)
      requires InHand(bp, e, s) && n.kind != Head
      modifies ring, ring.repr`rlink, ring.repr`llink
      ensures t == Beside(s, e, n) && InHand(bp, e, t) && fresh(ring.repr - old(ring.repr))
    {
      t := Beside(s, e, n);
      ghost var olds := ring.nodes;
      var x, k := ring.Addnod(n);
      BesideNode(s, e, n, olds, x);
    }

    /** ptrblk: a node for every word that is not zero, as far as the last block of the file. */
    method Ptrblk(bp: Bdata, buf: seq<nat>, ghost s: Cursor) returns (ghost t: Cursor)
      requires InHand(bp, bp.Value(), s) && (bp.kind == Single || bp.kind == Double) && |buf| == job.nindir
      modifies ring, ring.repr`rlink, ring.repr`llink
      ensures t == BesideAll(s, old(bp.Value()), Children(job, old(bp.Value()), buf, 0)) && InHand(bp, old(bp.Value()), t)
      ensures fresh(ring.repr - old(ring.repr))
    {
      var i, done := 0, false;
      var e := bp.Value();
      t := s;
      while i < job.nindir && !done
        invariant 0 <= i <= job.nindir && InHand(bp, e, t)
        invariant forall n :: n in ring.repr ==> n in old(ring.repr) || fresh(n)
        invariant BesideAll(s, e, Rest(job, e, buf, 0, false)) == BesideAll(t, e, Rest(job, e, buf, i, done))
      {
        done, t := Word(bp, e, buf, i, t);
        i := i + 1;
      }
    }

    /** The list is s, and bp is at the cursor. */
    ghost predicate AtCursor(bp: Bdata, s: Cursor)
      reads ring, ring.repr
    {
      && ring.Valid() && ring.contents == Whole(s) && |ring.nodes| == |ring.contents|
      && bp == if s.back == [] then ring.head else ring.nodes[|s.front|]
    }

    /** What is done with a block that was found. */
    method Use(bp: Bdata, buf: seq<nat>, ghost s: Cursor) returns (ghost t: Cursor)
      requires InHand(bp, bp.Value(), s) && bp.kind != Head && Readable(job, bp.blkno) && buf == job.tape[bp.blkno]
      modifies this`written, ring, ring.repr`rlink, ring.repr`llink
      ensures t == BesideAll(s, old(bp.Value()), ChildrenOf(job, old(bp.Value()))) && InHand(bp, old(bp.Value()), t)
      ensures written == old(written) + WritesOf([old(bp.Value())]) && fresh(ring.repr - old(ring.repr))
    {
      ghost var e := bp.Value();
      assert WritesOf([e]) == (if e.kind == Data then [WriteOf(e)] else []) + WritesOf([e][1..]);
      t := s;
      if bp.kind == Data {
        Datablk(bp);
      } else {
        t := Ptrblk(bp, buf, s);
      }
    }

    /** delnode of the node at the cursor. */
    method Drop(bp: Bdata, ghost e: Entry, ghost s: Cursor) returns (next: Bdata)
      requires InHand(bp, e, s)
      modifies ring, ring.repr`rlink, ring.repr`llink
      ensures AtCursor(next, s) && ring.repr == old(ring.repr)
    {
      WithoutIt(e, s);
      next := ring.Delnode(bp, |s.front|);
    }

    static lemma WithoutIt(e: Entry, s: Cursor)
      ensures |s.front| < |With(s, e)| && WithoutAt(With(s, e), |s.front|) == Whole(s)
    {
      assert With(s, e)[..|s.front|] == s.front && With(s, e)[|s.front| + 1..] == s.back;
    }

    /** Vrecover, up to the deletion of the node. */
    method Vrecover(bp: Bdata, ghost s: Cursor) returns (at: Locus, ghost t: Cursor)
      requires Ready() && AtCursor(bp, s) && s.back != []
      modifies this`written, tape`pos, tape`bufoff, tape`curb, tape.ibuf, tape.lbbuf, ring, ring.repr`rlink, ring.repr`llink
      ensures at == Locate(job, old(tape.curb), s.back[0].blkno) && fresh(ring.repr - old(ring.repr))
      ensures at.Hit? ==> Ready() && tape.curb == s.back[0].blkno && t == Passed(job, s)
      ensures at.Miss? ==> Ready() && tape.curb == at.curb && t == s.(back := s.back[1..])
      ensures !at.Hit? ==> ring.contents == old(ring.contents)
      ensures InHand(bp, s.back[0], t)
      ensures written == old(written) + if at.Hit? then WritesOf([s.back[0]]) else []
    {
      t := s.(back := s.back[1..]);
      AtFirst(bp, s);
      var buf;
      at, buf := Find(bp.blkno);
      if at.Hit? {
        t := Use(bp, buf, t);
      }
    }

    lemma AtFirst(bp: Bdata, s: Cursor)
      requires AtCursor(bp, s) && s.back != []
      ensures InHand(bp, s.back[0], s.(back := s.back[1..])) && bp.Value() == s.back[0] && bp != ring.head && bp.kind != Head
    {
      var t := s.(back := s.back[1..]);
      assert ring.contents[|s.front|] == s.back[0];
      assert With(t, s.back[0]) == Whole(s) by { assert [s.back[0]] + s.back[1..] == s.back; }
    }

    /** One turn of the loop in recover. */
    method Turn(bp: Bdata, ghost s: Cursor) returns (next: Bdata, stop: bool, lost: seq<Entry>, ghost x: Step)
      requires Ready() && AtCursor(bp, s) && ring.head.rlink != ring.head
      modifies this`written, tape`pos, tape`bufoff, tape`curb, tape.ibuf, tape.lbbuf, ring, ring.repr`rlink, ring.repr`llink
      ensures (forall n :: n in ring.repr ==> n in old(ring.repr) || fresh(n)) && stop == x.stop && lost == x.lost
      ensures ring.Valid() && ring.contents == Whole(x.left) && written == old(written) + WritesOf(x.found)
      ensures !stop ==> Ready() && AtCursor(next, x.left)
      ensures Turned(job, old(tape.curb), s, x, tape.curb)
    {
      ring.FirstIs();
      AtHead(bp, s);
      if bp.kind == Head {
        stop, lost := false, [];
        next, x := Around(s);
      } else {
        next, stop, lost, x := Try(bp, s);
      }
    }

    /** The turn at the head. */
    method Around(ghost s: Cursor) returns (next: Bdata, ghost x: Step)
      requires ring.Valid() && ring.contents == Whole(s) != [] && s.back == []
      ensures x == Step(false, [], [], Cursor([], s.front)) && ring.contents == Whole(x.left) && AtCursor(next, x.left)
      ensures forall curb :: Turned(job, curb, s, x, curb)
    {
      x := Step(false, [], [], Cursor([], s.front));
      assert Whole(s) == s.front;
      forall curb ensures Turned(job, curb, s, x, curb) { TurnedRound(job, curb, s); }
      next := First(s.front);
    }

    lemma AtHead(bp: Bdata, s: Cursor)
      requires AtCursor(bp, s)
      ensures bp.kind == Head <==> s.back == []
    {
      if s.back != [] { AtFirst(bp, s); }
    }

    /** The first node, or the head. */
    method First(ghost c: seq<Entry>) returns (bp: Bdata)
      requires ring.Valid() && ring.contents == c
      ensures AtCursor(bp, Cursor([], c))
    {
      bp := ring.First();
    }

    /** The turn at a node. */
    method Try(bp: Bdata, ghost s: Cursor) returns (next: Bdata, stop: bool, lost: seq<Entry>, ghost x: Step)
      requires Ready() && AtCursor(bp, s) && s.back != []
      modifies this`written, tape`pos, tape`bufoff, tape`curb, tape.ibuf, tape.lbbuf, ring, ring.repr`rlink, ring.repr`llink
      ensures fresh(ring.repr - old(ring.repr)) && stop == x.stop && lost == x.lost
      ensures ring.Valid() && ring.contents == Whole(x.left) && written == old(written) + WritesOf(x.found)
      ensures !stop ==> Ready() && AtCursor(next, x.left)
      ensures Turned(job, old(tape.curb), s, x, tape.curb)
    {
      TurnedAt(job, tape.curb, s);
      var at;
      ghost var t;
      at, t := Vrecover(bp, s);
      x := StepAt(job, s, at);
      stop, next, lost := at.Stop?, bp, [];
      if at.Miss? {
        lost := [bp.Value()];
      }
      if !stop {
        next := Drop(bp, s.back[0], t);
      }
    }

    /** recover: what is written, what is reported, and what is left are those of the run over the list; false when
        the program ends in the middle. */
    method Recover() returns (ok: bool, lost: seq<Entry>)
      requires Ready() && ring.Valid()
      modifies this`written, tape`pos, tape`bufoff, tape`curb, tape.ibuf, tape.lbbuf, ring, ring.repr`rlink, ring.repr`llink
      ensures var run := Run(job, old(tape.curb), Cursor([], old(ring.contents)));
              && written == old(written) + WritesOf(run.found) && lost == run.lost
              && ring.contents == run.rest && ok == (run.rest == [])
    {
      ghost var s, found := Cursor([], ring.contents), [];
      ghost var run := Run(job, tape.curb, s);
      var bp := First(ring.contents);
      ok, lost := true, [];
      while ring.head.rlink != ring.head
        invariant Ready() && AtCursor(bp, s) && forall n :: n in ring.repr ==> n in old(ring.repr) || fresh(n)
        invariant Then(found, lost, Run(job, tape.curb, s)) == run
        invariant written == old(written) + WritesOf(found)
        decreases Cost(job, s), s.back == []
      {
        ghost var x, curb;
        curb := tape.curb;
        var stop, l;
        bp, stop, l, x := Turn(bp, s);
        Onward(job, curb, s, x, tape.curb, found, lost, run, old(written));
        s, found := x.left, found + x.found;
        lost := lost + l;
        if stop {
          ok := false;
          return;
        }
      }
      ring.FirstIs();
      Finished(job, tape.curb, s, found, lost, run);
    }

    /** What is known after a turn. */
    static lemma Onward(j: Job, curb: int, s: Cursor, x: Step, curb': int, found: seq<Entry>, lost: seq<Entry>,
                        run: Trace, was: seq<Write>)
      requires Turned(j, curb, s, x, curb') && Then(found, lost, Run(j, curb, s)) == run
      ensures !x.stop ==> Then(found + x.found, lost + x.lost, Run(j, curb', x.left)) == run
      ensures x.stop ==> run == Trace(found + x.found, lost + x.lost, Whole(x.left)) && run.rest != []
      ensures was + WritesOf(found + x.found) == was + WritesOf(found) + WritesOf(x.found)
    {
      var t := if x.stop then Trace([], [], Whole(x.left)) else Run(j, curb', x.left);
      ThenThen(found, lost, x.found, x.lost, t);
      WritesAppend(found, x.found);
      Assoc(was, WritesOf(found), WritesOf(x.found));
      var f, l := found + x.found, lost + x.lost;
      assert f + [] == f && l + [] == l;
    }

    static lemma Finished(j: Job, curb: int, s: Cursor, found: seq<Entry>, lost: seq<Entry>, run: Trace)
      requires Whole(s) == [] && Then(found, lost, Run(j, curb, s)) == run
      ensures run == Trace(found, lost, [])
    {
      assert |s.front| == 0 && |s.back| == 0;
      assert found + [] == found && lost + [] == lost;
    }
  }
}
