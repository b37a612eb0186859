/**
  frec: what the nodes of its work list stand for.

  The tape is the sequence of the blocks that can be read, each as the words in it.
*/
module FrecWork {
  import opened FrecRing
  import opened Sequences

  const DIRECT: nat := 10

  /** A request: the index of the last block of the file, and how many bytes are in it. */
  datatype Request = Request(lastblk: int, residual: int)

  /** What datablk does: block blkno goes to place bindex of the file of request pip. */
  datatype Write = Write(pip: nat, bindex: nat, blkno: nat, count: int)

  /** What does not change: the tape, the words in a block, its bytes, the requests, the size of the file system in
      blocks, and of the reel in units of 512 bytes. */
  datatype AnyJob = Job(tape: seq<seq<nat>>, nindir: nat, bsize: nat, reqs: seq<Request>, lstblk: nat, reelblks: nat)

  ghost predicate JobOk(j: AnyJob) {
    j.nindir > 0 && j.bsize > 0 && j.reelblks > 0 && forall b :: 0 <= b < |j.tape| ==> |j.tape[b]| == j.nindir
  }

  type Job = j: AnyJob | JobOk(j) ghost witness AnyJob.Job([], 1, 1, [], 0, 1)

  /** There is such a block. */
  predicate Readable(j: Job, blkno: nat) {
    0 < blkno < |j.tape|
  }

  predicate IsLast(j: Job, pip: nat, bindex: nat) {
    pip < |j.reqs| && j.reqs[pip].lastblk == bindex
  }

  function CountFor(j: Job, pip: nat, bindex: nat): int {
    if IsLast(j, pip, bindex) then j.reqs[pip].residual else j.bsize
  }

  // ---------------------------------------------------------------------
  // What a node stands for
  // ---------------------------------------------------------------------

  function Rank(k: Kind): nat {
    match k case Data => 0 case Single => 1 case Double => 2 case Head => 3
  }

  /** The node that ptrblk makes of word i of an indirect block. */
  function Child(j: Job, e: Entry, w: nat, i: nat): Entry {
    if e.kind == Single then Entry(Data, w, CountFor(j, e.pip, e.bindex + i), e.bindex + i, e.pip)
    else Entry(Single, w, j.bsize, e.bindex + i * j.nindir, e.pip)
  }

  /** The nodes made of the words from i on; the last block of the file ends them. */
  function Children(j: Job, e: Entry, words: seq<nat>, i: nat): (c: seq<Entry>)
    requires i <= |words|
    ensures |c| <= |words| - i && forall x :: 0 <= x < |c| ==> c[x].kind == if e.kind == Single then Data else Single
    decreases |words| - i
  {
    if i == |words| then []
    else if words[i] == 0 then Children(j, e, words, i + 1)
    else if e.kind == Single && IsLast(j, e.pip, e.bindex + i) then [Child(j, e, words[i], i)]
    else [Child(j, e, words[i], i)] + Children(j, e, words, i + 1)
  }

  ghost predicate Below(c: seq<Entry>, r: nat) {
    forall i :: 0 <= i < |c| ==> Rank(c[i].kind) < r
  }

  /** The writes that a node leads to. */
  ghost function Work(j: Job, e: Entry): multiset<Write>
    decreases Rank(e.kind), 1, 0
  {
    if e.kind == Head || !Readable(j, e.blkno) then multiset{}
    else if e.kind == Data then multiset{Write(e.pip, e.bindex, e.blkno, e.count)}
    else WorkAll(j, Children(j, e, j.tape[e.blkno], 0), Rank(e.kind))
  }

  /** The writes of the nodes of c whose rank is below r. */
  ghost function WorkAll(j: Job, c: seq<Entry>, r: nat): multiset<Write>
    decreases r, 0, |c|
  {
    if c == [] then multiset{}
    else if Rank(c[|c| - 1].kind) < r then WorkAll(j, c[..|c| - 1], r) + Work(j, c[|c| - 1])
    else WorkAll(j, c[..|c| - 1], r)
  }

  /** The writes of all nodes. */
  ghost function Pending(j: Job, c: seq<Entry>): multiset<Write> {
    WorkAll(j, c, 3)
  }

  /** How often block b is among the blocks that a node leads to. */
  ghost function Uses(j: Job, e: Entry, b: nat): nat
    decreases Rank(e.kind), 1, 0
  {
    (if e.blkno == b then 1 else 0)
    + if (e.kind == Single || e.kind == Double) && Readable(j, e.blkno)
      then UsesAll(j, Children(j, e, j.tape[e.blkno], 0), Rank(e.kind), b) else 0
  }

  ghost function UsesAll(j: Job, c: seq<Entry>, r: nat, b: nat): nat
    decreases r, 0, |c|
  {
    if c == [] then 0
    else UsesAll(j, c[..|c| - 1], r, b) + if Rank(c[|c| - 1].kind) < r then Uses(j, c[|c| - 1], b) else 0
  }

  ghost function UsesIn(j: Job, c: seq<Entry>, b: nat): nat {
    UsesAll(j, c, 3, b)
  }

  /** How many turns a node can cost. */
  function Weight(j: Job, k: Kind): (w: nat)
    ensures w >= 1
  {
    match k
    case Data => 1
    case Single => j.nindir + 1
    case _ => j.nindir * (j.nindir + 1) + 1
  }

  function TotalWeight(j: Job, c: seq<Entry>): nat {
    if c == [] then 0 else TotalWeight(j, c[..|c| - 1]) + Weight(j, c[|c| - 1].kind)
  }

  lemma {:induction false} InsertedTotals(j: Job, s: seq<Entry>, k: nat, x: Entry, t: seq<Entry>)
    requires Inserted(s, k, x, t)
    ensures Pending(j, t) == Pending(j, s) + Work(j, x)
    ensures TotalWeight(j, t) == TotalWeight(j, s) + Weight(j, x.kind)
    decreases |s|
  {
    var n := |s|;
    if k == n {
      assert t[..n] == s;
    } else {
      assert t[n] == s[n - 1];
      assert Inserted(s[..n - 1], k, x, t[..n]);
      InsertedTotals(j, s[..n - 1], k, x, t[..n]);
    }
  }

  lemma {:induction false} InsertedUses(j: Job, s: seq<Entry>, k: nat, x: Entry, t: seq<Entry>, b: nat)
    requires Inserted(s, k, x, t) && x.kind != Head
    ensures UsesIn(j, t, b) == UsesIn(j, s, b) + Uses(j, x, b)
    decreases |s|
  {
    var n := |s|;
    if k == n {
      assert t[..n] == s;
    } else {
      assert t[n] == s[n - 1];
      assert Inserted(s[..n - 1], k, x, t[..n]);
      InsertedUses(j, s[..n - 1], k, x, t[..n], b);
    }
  }

  lemma RemovedTotals(j: Job, s: seq<Entry>, k: nat, t: seq<Entry>)
    requires Removed(s, k, t)
    ensures Pending(j, s) == Pending(j, t) + Work(j, s[k])
    ensures TotalWeight(j, s) == TotalWeight(j, t) + Weight(j, s[k].kind)
  {
    assert Inserted(t, k, s[k], s);
    InsertedTotals(j, t, k, s[k], s);
  }

  lemma {:induction false} WeightBound(j: Job, c: seq<Entry>, k: Kind)
    requires forall i :: 0 <= i < |c| ==> c[i].kind == k
    ensures TotalWeight(j, c) == |c| * Weight(j, k)
  {
    if c != [] { WeightBound(j, c[..|c| - 1], k); }
  }

  /** The children of a node cost less than the node. */
  lemma ChildrenWeight(j: Job, e: Entry, words: seq<nat>)
    requires |words| == j.nindir && (e.kind == Single || e.kind == Double)
    ensures TotalWeight(j, Children(j, e, words, 0)) < Weight(j, e.kind)
  {
    var c := Children(j, e, words, 0);
    var k := if e.kind == Single then Data else Single;
    WeightBound(j, c, k);
    MulLeft(|c|, j.nindir, Weight(j, k));
  }

  lemma MulLeft(a: nat, b: nat, m: nat)
    requires a <= b
    ensures a * m <= b * m
  {
  }

  /** The bound does not matter. */
  lemma {:induction false} PendingBelow(j: Job, c: seq<Entry>, r: nat)
    requires Below(c, r) && r <= 3
    ensures WorkAll(j, c, r) == Pending(j, c)
    decreases |c|
  {
    if c != [] { PendingBelow(j, c[..|c| - 1], r); }
  }

  lemma {:induction false} UsesBelow(j: Job, c: seq<Entry>, r: nat, b: nat)
    requires Below(c, r) && r <= 3
    ensures UsesAll(j, c, r, b) == UsesIn(j, c, b)
    decreases |c|
  {
    if c != [] { UsesBelow(j, c[..|c| - 1], r, b); }
  }

  /** An indirect block that can be read stands for its children. */
  lemma WorkIsChildren(j: Job, e: Entry)
    requires (e.kind == Single || e.kind == Double) && Readable(j, e.blkno)
    ensures Work(j, e) == Pending(j, Children(j, e, j.tape[e.blkno], 0))
  {
    PendingBelow(j, Children(j, e, j.tape[e.blkno], 0), Rank(e.kind));
  }
}
