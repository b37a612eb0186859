/**
  frec: the blocks of a file, from its inode to the writes that recover it.
*/
module FrecFile {
  import opened Frec
  import opened FrecOrder
  import opened FrecRing
  import opened FrecTape
  import opened FrecWork
  import opened Numbers
  import opened Sequences

  /** An inode: thirteen block addresses and the size in bytes. */
  datatype Inode = Inode(l: seq<nat>, size: nat)

  const NADDR: nat := 13

  /** The request is set up from the inode: lastblk and residual. */
  ghost predicate IsRequest(j: Job, ino: Inode, pip: nat) {
    && |ino.l| == NADDR && pip < |j.reqs|
    && j.reqs[pip] == Request((ino.size + j.bsize - 1) / j.bsize - 1,
                              if ino.size % j.bsize == 0 then j.bsize else ino.size % j.bsize)
  }

  // ---------------------------------------------------------------------
  // saveblks
  // ---------------------------------------------------------------------

  /** The nodes of the direct blocks from i on, with `size` bytes not yet accounted for. */
  function DirectNodes(j: Job, l: seq<nat>, pip: nat, i: nat, size: int): seq<Entry>
    requires i <= DIRECT <= |l|
    decreases DIRECT - i
  {
    if i == DIRECT || size <= 0 then []
    else if l[i] == 0 then DirectNodes(j, l, pip, i + 1, size)
    else
      var rest := if size > j.bsize then size - j.bsize else size;
      [Entry(Data, l[i], if size > j.bsize then j.bsize else size, i, pip)] + DirectNodes(j, l, pip, i + 1, rest)
  }

  /** The node of an indirect block, unless there is none. */
  function IndirectNode(j: Job, k: Kind, blkno: nat, bindex: nat, pip: nat): seq<Entry> {
    if blkno == 0 then [] else [Entry(k, blkno, j.bsize, bindex, pip)]
  }

  /** The nodes of a file, as they are made. */
  function FileNodes(j: Job, ino: Inode, pip: nat): seq<Entry>
    requires |ino.l| == NADDR
  {
    DirectNodes(j, ino.l, pip, 0, ino.size)
    + (IndirectNode(j, Single, ino.l[10], DIRECT, pip) + IndirectNode(j, Double, ino.l[11], DIRECT + j.nindir, pip))
  }

  lemma {:induction false} DirectNoHead(j: Job, l: seq<nat>, pip: nat, i: nat, size: int)
    requires i <= DIRECT <= |l|
    ensures NoHead(DirectNodes(j, l, pip, i, size))
    decreases DIRECT - i
  {
    if i < DIRECT && size > 0 {
      var rest := if l[i] != 0 && size > j.bsize then size - j.bsize else size;
      DirectNoHead(j, l, pip, i + 1, rest);
    }
  }

  lemma FileNoHead(j: Job, ino: Inode, pip: nat)
    requires |ino.l| == NADDR
    ensures NoHead(FileNodes(j, ino, pip))
  {
    DirectNoHead(j, ino.l, pip, 0, ino.size);
  }

  /** The writes that the nodes of a file lead to. */
  ghost function FileWork(j: Job, ino: Inode, pip: nat): multiset<Write>
    requires |ino.l| == NADDR
  {
    Pending(j, FileNodes(j, ino, pip))
  }

  /** The list with these nodes entered one after the other. */
  function EnterAll(c: seq<Entry>, ns: seq<Entry>): seq<Entry>
    decreases |ns|
  {
    if ns == [] then c else EnterAll(Entered(c, ns[0]), ns[1..])
  }

  lemma {:induction false} EnterAppend(c: seq<Entry>, a: seq<Entry>, b: seq<Entry>)
    ensures EnterAll(c, a + b) == EnterAll(EnterAll(c, a), b)
    decreases |a|
  {
    if a == [] {
      assert a + b == b;
    } else {
      assert (a + b)[1..] == a[1..] + b;
      EnterAppend(Entered(c, a[0]), a[1..], b);
    }
  }

  lemma EnterFirst(c: seq<Entry>, e: Entry, ns: seq<Entry>)
    ensures EnterAll(c, [e] + ns) == EnterAll(Entered(c, e), ns)
  {
    assert ([e] + ns)[1..] == ns;
  }

  /** What entering nodes adds. */
  lemma {:induction false} EnterTotals(j: Job, c: seq<Entry>, ns: seq<Entry>, b: nat)
    requires InOrder(c) && NoHead(ns)
    ensures var d := EnterAll(c, ns);
            && InOrder(d) && Pending(j, d) == Pending(j, c) + Pending(j, ns)
            && UsesIn(j, d, b) == UsesIn(j, c, b) + UsesIn(j, ns, b) && Times(d, b) == Times(c, b) + Times(ns, b)
    decreases |ns|
  {
    if ns != [] {
      var e, r := ns[0], ns[1..];
      EnteredTotals(j, c, e, b);
      EnterTotals(j, Entered(c, e), r, b);
      assert Inserted(r, 0, e, ns);
      InsertedTotals(j, r, 0, e, ns);
      InsertedUses(j, r, 0, e, ns, b);
    }
  }

  lemma EnteredTotals(j: Job, c: seq<Entry>, e: Entry, b: nat)
    requires InOrder(c) && e.kind != Head
    ensures var d := Entered(c, e);
            && InOrder(d) && Pending(j, d) == Pending(j, c) + Work(j, e)
            && UsesIn(j, d, b) == UsesIn(j, c, b) + Uses(j, e, b) && Times(d, b) == Times(c, b) + if e.blkno == b then 1 else 0
  {
    EnteredInserts(c, e);
    InsertedTotals(j, c, Place(c, e.blkno), e, Entered(c, e));
    InsertedUses(j, c, Place(c, e.blkno), e, Entered(c, e), b);
    InsertedTimes(c, Place(c, e.blkno), e, Entered(c, e), b);
  }

  lemma {:induction false} InsertedTimes(c: seq<Entry>, k: nat, e: Entry, d: seq<Entry>, b: nat)
    requires Inserted(c, k, e, d)
    ensures Times(d, b) == Times(c, b) + if e.blkno == b then 1 else 0
    decreases |c|
  {
    if k == 0 {
      assert d[1..] == c;
    } else {
      assert Inserted(c[1..], k - 1, e, d[1..]);
      InsertedTimes(c[1..], k - 1, e, d[1..], b);
    }
  }

  lemma PendingCons(j: Job, e: Entry, c: seq<Entry>)
    ensures Pending(j, [e] + c) == Work(j, e) + Pending(j, c)
  {
    FirstTotals(j, e, c);
  }

  /** saveblks on a file that is allocated: false for a file with a triple indirect block. */
  method Saveblks(r: Recovery, ino: Inode, pip: nat) returns (ok: bool)
    requires r.ring.Valid() && IsRequest(r.job, ino, pip)
    modifies r.ring, r.ring.repr`rlink, r.ring.repr`llink
    ensures r.ring.Valid() && ok == (ino.l[NADDR - 1] == 0) && fresh(r.ring.repr - old(r.ring.repr))
    ensures r.ring.contents == if ok then EnterAll(old(r.ring.contents), FileNodes(r.job, ino, pip)) else old(r.ring.contents)
  {
    if ino.l[NADDR - 1] != 0 {
      return false;
    }
    ghost var c := r.ring.contents;
    Directs(r, ino, pip);
    Indirects(r, ino, pip);
    EnterParts(r.job, c, ino, pip);
    ok := true;
  }

  /** The single and the double indirect block. */
  method Indirects(r: Recovery, ino: Inode, pip: nat)
    requires r.ring.Valid() && |ino.l| == NADDR
    modifies r.ring, r.ring.repr`rlink, r.ring.repr`llink
    ensures r.ring.Valid() && forall n :: n in r.ring.repr ==> n in old(r.ring.repr) || fresh(n)
    ensures var s, d := IndirectNode(r.job, Single, ino.l[10], DIRECT, pip), IndirectNode(r.job, Double, ino.l[11], DIRECT + r.job.nindir, pip);
            r.ring.contents == EnterAll(EnterAll(old(r.ring.contents), s), d)
  {
    Indirect(r, Single, ino.l[NADDR - 3], DIRECT, pip);
    Indirect(r, Double, ino.l[NADDR - 2], DIRECT + r.job.nindir, pip);
  }

  lemma EnterParts(j: Job, c: seq<Entry>, ino: Inode, pip: nat)
    requires |ino.l| == NADDR
    ensures var s, d := IndirectNode(j, Single, ino.l[10], DIRECT, pip), IndirectNode(j, Double, ino.l[11], DIRECT + j.nindir, pip);
            EnterAll(c, FileNodes(j, ino, pip)) == EnterAll(EnterAll(EnterAll(c, DirectNodes(j, ino.l, pip, 0, ino.size)), s), d)
  {
    var s, d := IndirectNode(j, Single, ino.l[10], DIRECT, pip), IndirectNode(j, Double, ino.l[11], DIRECT + j.nindir, pip);
    var direct := DirectNodes(j, ino.l, pip, 0, ino.size);
    EnterAppend(c, direct, s + d);
    EnterAppend(EnterAll(c, direct), s, d);
  }

  method Indirect(r: Recovery, k: Kind, blkno: nat, bindex: nat, pip: nat)
    requires r.ring.Valid() && k != Head
    modifies r.ring, r.ring.repr`rlink, r.ring.repr`llink
    ensures r.ring.Valid() && fresh(r.ring.repr - old(r.ring.repr))
    ensures r.ring.contents == EnterAll(old(r.ring.contents), IndirectNode(r.job, k, blkno, bindex, pip))
  {
    if blkno != 0 {
      var e := Entry(k, blkno, r.job.bsize, bindex, pip);
      EnterFirst(r.ring.contents, e, []);
      assert [e] + [] == [e];
      var _, _ := r.ring.Addnod(e);
    }
  }

  /** The loop over the direct blocks. */
  method Directs(r: Recovery, ino: Inode, pip: nat)
    requires r.ring.Valid() && |ino.l| == NADDR
    modifies r.ring, r.ring.repr`rlink, r.ring.repr`llink
    ensures r.ring.Valid() && fresh(r.ring.repr - old(r.ring.repr))
    ensures r.ring.contents == EnterAll(old(r.ring.contents), DirectNodes(r.job, ino.l, pip, 0, ino.size))
  {
    var size: int := ino.size;
    var i := 0;
    ghost var goal := EnterAll(r.ring.contents, DirectNodes(r.job, ino.l, pip, 0, size));
    while i < NADDR - 3 && size > 0
      invariant 0 <= i <= DIRECT && r.ring.Valid() && fresh(r.ring.repr - old(r.ring.repr))
      invariant EnterAll(r.ring.contents, DirectNodes(r.job, ino.l, pip, i, size)) == goal
    {
      size := Direct(r, ino.l, pip, i, size, goal);
      i := i + 1;
    }
  }

  /** One direct block. */
  method Direct(r: Recovery, l: seq<nat>, pip: nat, i: nat, size: int, ghost goal: seq<Entry>) returns (left: int)
    requires r.ring.Valid() && |l| == NADDR && i < DIRECT && size > 0
    requires EnterAll(r.ring.contents, DirectNodes(r.job, l, pip, i, size)) == goal
    modifies r.ring, r.ring.repr`rlink, r.ring.repr`llink
    ensures r.ring.Valid() && fresh(r.ring.repr - old(r.ring.repr))
    ensures EnterAll(r.ring.contents, DirectNodes(r.job, l, pip, i + 1, left)) == goal
  {
    left := size;
    if l[i] == 0 {
      return;
    }
    var e := Entry(Data, l[i], if size > r.job.bsize then r.job.bsize else size, i, pip);
    left := if size > r.job.bsize then size - r.job.bsize else size;
    EnterFirst(r.ring.contents, e, DirectNodes(r.job, l, pip, i + 1, left));
    var _, _ := r.ring.Addnod(e);
  }

  // ---------------------------------------------------------------------
  // Where the blocks of a file are
  // ---------------------------------------------------------------------

  /** Word i of block b, which need not be there. */
  function WordOf(j: Job, b: nat, i: nat): nat {
    if 0 < b < |j.tape| && i < |j.tape[b]| then j.tape[b][i] else 0
  }

  /** The block that holds logical block x of the file; 0 for a hole. */
  function BlockAt(j: Job, ino: Inode, x: nat): nat
    requires |ino.l| == NADDR
  {
    var n := j.nindir;
    if x < DIRECT then (if ino.size > 0 then ino.l[x] else 0)
    else if x < DIRECT + n then WordOf(j, ino.l[10], x - DIRECT)
    else if x < DIRECT + n + n * n then WordOf(j, WordOf(j, ino.l[11], (x - DIRECT - n) / n), (x - DIRECT - n) % n)
    else 0
  }

  /** The number of bytes that go to direct block x, when i is the next block and `size` what is left. */
  function DirectCount(j: Job, l: seq<nat>, i: nat, size: int, x: nat): int
    requires i <= x < DIRECT <= |l|
    decreases x - i
  {
    if i == x then (if size > j.bsize then j.bsize else size)
    else DirectCount(j, l, i + 1, if l[i] != 0 && size > j.bsize then size - j.bsize else size, x)
  }

  function CountAt(j: Job, ino: Inode, pip: nat, x: nat): int
    requires |ino.l| == NADDR
  {
    if x < DIRECT then DirectCount(j, ino.l, 0, ino.size, x) else CountFor(j, pip, x)
  }

  /** Every block that the inode leads to can be read, and none lies behind the last block of the file. */
  ghost predicate Intact(j: Job, ino: Inode, pip: nat)
    requires |ino.l| == NADDR && pip < |j.reqs|
  {
    && (ino.l[10] != 0 ==> Readable(j, ino.l[10]))
    && (ino.l[11] != 0 ==> Readable(j, ino.l[11]))
    && (forall i :: 0 <= i < j.nindir && WordOf(j, ino.l[11], i) != 0 ==> Readable(j, WordOf(j, ino.l[11], i)))
    && (forall x: nat :: BlockAt(j, ino, x) != 0 ==> Readable(j, BlockAt(j, ino, x)) && x <= j.reqs[pip].lastblk)
  }

  // ---------------------------------------------------------------------
  // Each block once
  // ---------------------------------------------------------------------

  function OneIf(b: bool): nat {
    if b then 1 else 0
  }

  /** w writes block b to place x. */
  predicate IsWrite(w: Write, pip: nat, x: nat, b: nat, count: int) {
    b != 0 && w == Write(pip, x, b, count)
  }

  lemma DataWork(j: Job, e: Entry, w: Write)
    requires e.kind == Data && Readable(j, e.blkno)
    ensures Work(j, e)[w] == OneIf(IsWrite(w, e.pip, e.bindex, e.blkno, e.count))
  {
  }

  /** w writes a direct block from i on, with `size` bytes not yet accounted for. */
  predicate IsDirect(j: Job, l: seq<nat>, pip: nat, i: nat, size: int, w: Write)
    requires i <= DIRECT <= |l|
  {
    i <= w.bindex < DIRECT && size > 0 && IsWrite(w, pip, w.bindex, l[w.bindex], DirectCount(j, l, i, size, w.bindex))
  }

  lemma DirectFirst(j: Job, l: seq<nat>, pip: nat, i: nat, size: int, w: Write)
    requires i < DIRECT <= |l| && size > 0
    ensures var left, here := if l[i] != 0 && size > j.bsize then size - j.bsize else size, if size > j.bsize then j.bsize else size;
            OneIf(IsDirect(j, l, pip, i, size, w)) == OneIf(IsWrite(w, pip, i, l[i], here)) + OneIf(IsDirect(j, l, pip, i + 1, left, w))
  {
  }

  lemma {:induction false} DirectOnce(j: Job, l: seq<nat>, pip: nat, i: nat, size: int, w: Write)
    requires i <= DIRECT <= |l| && forall x :: i <= x < DIRECT && l[x] != 0 ==> Readable(j, l[x])
    ensures Pending(j, DirectNodes(j, l, pip, i, size))[w] == OneIf(IsDirect(j, l, pip, i, size, w))
    decreases DIRECT - i
  {
    if i < DIRECT && size > 0 {
      DirectFirst(j, l, pip, i, size, w);
      if l[i] == 0 {
        DirectOnce(j, l, pip, i + 1, size, w);
      } else {
        var e := Entry(Data, l[i], if size > j.bsize then j.bsize else size, i, pip);
        var left := if size > j.bsize then size - j.bsize else size;
        DirectOnce(j, l, pip, i + 1, left, w);
        PendingCons(j, e, DirectNodes(j, l, pip, i + 1, left));
        DataWork(j, e, w);
      }
    }
  }

  /** The words of a single indirect block from i on. */
  lemma {:induction false} SingleOnce(j: Job, e: Entry, words: seq<nat>, i: nat, w: Write)
    requires e.kind == Single && i <= |words|
    requires forall x :: i <= x < |words| && words[x] != 0 ==>
               Readable(j, words[x]) && e.pip < |j.reqs| && e.bindex + x <= j.reqs[e.pip].lastblk
    ensures Pending(j, Children(j, e, words, i))[w]
            == OneIf(e.bindex + i <= w.bindex < e.bindex + |words|
                     && IsWrite(w, e.pip, w.bindex, words[w.bindex - e.bindex], CountFor(j, e.pip, w.bindex)))
    decreases |words| - i
  {
    if i < |words| {
      if words[i] == 0 {
        SingleOnce(j, e, words, i + 1, w);
      } else {
        var c := Child(j, e, words[i], i);
        DataWork(j, c, w);
        SingleOnce(j, e, words, i + 1, w);
        if IsLast(j, e.pip, e.bindex + i) {
          PendingCons(j, c, []);
          assert [c] + [] == [c];
        } else {
          PendingCons(j, c, Children(j, e, words, i + 1));
        }
      }
    }
  }

  /** Place d behind a double indirect block. */
  function WordBehind(j: Job, words: seq<nat>, d: nat): nat {
    if d / j.nindir < |words| then WordOf(j, words[d / j.nindir], d % j.nindir) else 0
  }

  /** The words of a double indirect block from i on. */
  lemma {:induction false} DoubleOnce(j: Job, e: Entry, words: seq<nat>, i: nat, w: Write)
    requires e.kind == Double && i <= |words|
    requires forall x :: 0 <= x < |words| && words[x] != 0 ==> Readable(j, words[x])
    requires forall d: nat :: WordBehind(j, words, d) != 0 ==>
               Readable(j, WordBehind(j, words, d)) && e.pip < |j.reqs| && e.bindex + d <= j.reqs[e.pip].lastblk
    ensures Pending(j, Children(j, e, words, i))[w]
            == OneIf(w.bindex >= e.bindex && (w.bindex - e.bindex) / j.nindir >= i
                     && IsWrite(w, e.pip, w.bindex, WordBehind(j, words, w.bindex - e.bindex), CountFor(j, e.pip, w.bindex)))
    decreases |words| - i
  {
    if i == |words| {
    } else if words[i] == 0 {
      DoubleOnce(j, e, words, i + 1, w);
    } else {
      var c := Child(j, e, words[i], i);
      DoubleOnce(j, e, words, i + 1, w);
      PendingCons(j, c, Children(j, e, words, i + 1));
      ChildOnce(j, e, words, i, c, w);
    }
  }

  /** One single indirect block behind a double one. */
  lemma ChildOnce(j: Job, e: Entry, words: seq<nat>, i: nat, c: Entry, w: Write)
    requires e.kind == Double && i < |words| && words[i] != 0 && Readable(j, words[i]) && c == Child(j, e, words[i], i)
    requires forall d: nat :: WordBehind(j, words, d) != 0 ==>
               Readable(j, WordBehind(j, words, d)) && e.pip < |j.reqs| && e.bindex + d <= j.reqs[e.pip].lastblk
    ensures Work(j, c)[w]
            == OneIf(w.bindex >= e.bindex && (w.bindex - e.bindex) / j.nindir == i
                     && IsWrite(w, e.pip, w.bindex, WordBehind(j, words, w.bindex - e.bindex), CountFor(j, e.pip, w.bindex)))
  {
    var n, block := j.nindir, j.tape[words[i]];
    WorkIsChildren(j, c);
    forall x | 0 <= x < |block| && block[x] != 0
      ensures Readable(j, block[x]) && c.pip < |j.reqs| && c.bindex + x <= j.reqs[c.pip].lastblk
    {
      DivMod(i * n + x, n, i);
      assert WordBehind(j, words, i * n + x) == block[x];
    }
    SingleOnce(j, c, block, 0, w);
    if w.bindex >= e.bindex { DivMod(w.bindex - e.bindex, n, i); }
  }

  /** The node of an indirect block. */
  lemma NodeWork(j: Job, k: Kind, blkno: nat, bindex: nat, pip: nat)
    ensures Pending(j, IndirectNode(j, k, blkno, bindex, pip))
            == if blkno == 0 then multiset{} else Work(j, Entry(k, blkno, j.bsize, bindex, pip))
  {
    if blkno != 0 {
      var e := Entry(k, blkno, j.bsize, bindex, pip);
      PendingCons(j, e, []);
      assert [e] + [] == [e];
    }
  }

  lemma SinglePart(j: Job, ino: Inode, pip: nat, w: Write)
    requires |ino.l| == NADDR && pip < |j.reqs| && Intact(j, ino, pip)
    ensures Pending(j, IndirectNode(j, Single, ino.l[10], DIRECT, pip))[w]
            == OneIf(DIRECT <= w.bindex < DIRECT + j.nindir
                     && IsWrite(w, pip, w.bindex, BlockAt(j, ino, w.bindex), CountFor(j, pip, w.bindex)))
  {
    NodeWork(j, Single, ino.l[10], DIRECT, pip);
    if ino.l[10] != 0 {
      var e, block := Entry(Single, ino.l[10], j.bsize, DIRECT, pip), j.tape[ino.l[10]];
      WorkIsChildren(j, e);
      forall x | 0 <= x < |block| && block[x] != 0
        ensures Readable(j, block[x]) && DIRECT + x <= j.reqs[pip].lastblk
      {
        assert BlockAt(j, ino, DIRECT + x) == block[x];
      }
      SingleOnce(j, e, block, 0, w);
    }
  }

  lemma DoubleRange(n: nat, d: nat)
    requires n > 0
    ensures d < n * n <==> d / n < n
  {
    DivMod(d, n, d / n);
    if d / n < n { MulStep(d / n, n, n); } else if n < d / n { MulStep(n, d / n, n); }
  }

  /** What lies behind the double indirect block of an intact file. */
  ghost predicate SoundBehind(j: Job, words: seq<nat>, from: nat, pip: nat) {
    && (forall x :: 0 <= x < |words| && words[x] != 0 ==> Readable(j, words[x]))
    && (forall d: nat :: WordBehind(j, words, d) != 0 ==>
          Readable(j, WordBehind(j, words, d)) && pip < |j.reqs| && from + d <= j.reqs[pip].lastblk)
  }

  lemma IntactBehind(j: Job, ino: Inode, pip: nat)
    requires |ino.l| == NADDR && pip < |j.reqs| && Intact(j, ino, pip) && ino.l[11] != 0
    ensures Readable(j, ino.l[11]) && SoundBehind(j, j.tape[ino.l[11]], DIRECT + j.nindir, pip)
  {
    var words := j.tape[ino.l[11]];
    forall x | 0 <= x < |words| && words[x] != 0 ensures Readable(j, words[x]) {
      assert WordOf(j, ino.l[11], x) == words[x];
    }
    forall d: nat | WordBehind(j, words, d) != 0
      ensures Readable(j, WordBehind(j, words, d)) && DIRECT + j.nindir + d <= j.reqs[pip].lastblk
    {
      BehindDouble(j, ino, d);
    }
  }

  lemma AllDouble(j: Job, e: Entry, words: seq<nat>, w: Write)
    requires e.kind == Double && SoundBehind(j, words, e.bindex, e.pip)
    ensures Pending(j, Children(j, e, words, 0))[w]
            == OneIf(w.bindex >= e.bindex
                     && IsWrite(w, e.pip, w.bindex, WordBehind(j, words, w.bindex - e.bindex), CountFor(j, e.pip, w.bindex)))
  {
    DoubleOnce(j, e, words, 0, w);
    if w.bindex >= e.bindex { assert (w.bindex - e.bindex) / j.nindir >= 0; }
  }

  lemma DoublePresent(j: Job, blkno: nat, from: nat, pip: nat, w: Write)
    requires Readable(j, blkno) && SoundBehind(j, j.tape[blkno], from, pip)
    ensures Pending(j, IndirectNode(j, Double, blkno, from, pip))[w]
            == OneIf(w.bindex >= from
                     && IsWrite(w, pip, w.bindex, WordBehind(j, j.tape[blkno], w.bindex - from), CountFor(j, pip, w.bindex)))
  {
    NodeWork(j, Double, blkno, from, pip);
    var e := Entry(Double, blkno, j.bsize, from, pip);
    WorkIsChildren(j, e);
    AllDouble(j, e, j.tape[blkno], w);
  }

  lemma DoublePart(j: Job, ino: Inode, pip: nat, w: Write)
    requires |ino.l| == NADDR && pip < |j.reqs| && Intact(j, ino, pip)
    ensures Pending(j, IndirectNode(j, Double, ino.l[11], DIRECT + j.nindir, pip))[w]
            == OneIf(w.bindex >= DIRECT + j.nindir
                     && IsWrite(w, pip, w.bindex, BlockAt(j, ino, w.bindex), CountFor(j, pip, w.bindex)))
  {
    var from := DIRECT + j.nindir;
    if ino.l[11] == 0 {
      NodeWork(j, Double, ino.l[11], from, pip);
    } else {
      IntactBehind(j, ino, pip);
      DoublePresent(j, ino.l[11], from, pip, w);
      if w.bindex >= from { BehindDouble(j, ino, w.bindex - from); }
    }
  }

  lemma BehindDouble(j: Job, ino: Inode, d: nat)
    requires |ino.l| == NADDR && 0 < ino.l[11] < |j.tape|
    ensures WordBehind(j, j.tape[ino.l[11]], d) == BlockAt(j, ino, DIRECT + j.nindir + d)
  {
    var n, words := j.nindir, j.tape[ino.l[11]];
    DoubleRange(n, d);
    if d < n * n { assert WordOf(j, ino.l[11], d / n) == words[d / n]; }
  }

  /** The nodes of an intact file lead to exactly one write for each logical block that is not a hole, to the place
      of that block; and to no other write. */
  lemma EachBlockOnce(j: Job, ino: Inode, pip: nat, w: Write)
    requires |ino.l| == NADDR && pip < |j.reqs| && Intact(j, ino, pip)
    ensures FileWork(j, ino, pip)[w]
            == OneIf(IsWrite(w, pip, w.bindex, BlockAt(j, ino, w.bindex), CountAt(j, ino, pip, w.bindex)))
  {
    forall x | 0 <= x < DIRECT && ino.l[x] != 0 && ino.size > 0 ensures Readable(j, ino.l[x]) {
      assert BlockAt(j, ino, x) == ino.l[x];
    }
    if ino.size > 0 { DirectOnce(j, ino.l, pip, 0, ino.size, w); }
    SinglePart(j, ino, pip, w);
    DoublePart(j, ino, pip, w);
    var s, d := IndirectNode(j, Single, ino.l[10], DIRECT, pip), IndirectNode(j, Double, ino.l[11], DIRECT + j.nindir, pip);
    PendingAppend(j, DirectNodes(j, ino.l, pip, 0, ino.size), s + d);
    PendingAppend(j, s, d);
  }

  // ---------------------------------------------------------------------
  // How many bytes of a direct block
  // ---------------------------------------------------------------------

  ghost predicate NoHole(l: seq<nat>, i: nat, x: nat)
    requires i <= x <= |l|
  {
    forall y :: i <= y < x ==> l[y] != 0
  }

  /** What is left of the size comes to the last block only when all blocks in front of it are there. */
  lemma {:induction false} CountedDown(j: Job, l: seq<nat>, i: nat, size: int, x: nat)
    requires i <= x < DIRECT <= |l| && size > (x - i) * j.bsize
    ensures var left := size - (x - i) * j.bsize;
            DirectCount(j, l, i, size, x) == if NoHole(l, i, x) && left <= j.bsize then left else j.bsize
    decreases x - i
  {
    if i < x {
      var rest := (x - (i + 1)) * j.bsize;
      assert (x - i) * j.bsize == rest + j.bsize;
      assert rest >= 0;
      CountedDown(j, l, i + 1, if l[i] != 0 then size - j.bsize else size, x);
      assert NoHole(l, i, x) <==> l[i] != 0 && NoHole(l, i + 1, x);
    }
  }

  /** A direct block is written with the count that it should have, the residual for the last one and a whole block for
      the others, if and only if it is not the last one, or the last one is full, or there is no hole in front of it. */
  lemma DirectBytes(j: Job, ino: Inode, pip: nat, x: nat)
    requires IsRequest(j, ino, pip) && x < DIRECT && x <= j.reqs[pip].lastblk
    ensures CountAt(j, ino, pip, x) == CountFor(j, pip, x)
            <==> x < j.reqs[pip].lastblk || ino.size % j.bsize == 0 || forall y :: 0 <= y < x ==> ino.l[y] != 0
  {
    var b := j.bsize;
    var last := (ino.size + b - 1) / b - 1;
    LastBlock(ino.size, b, last);
    if x < last { MulStep(x, last, b); }
    CountedDown(j, ino.l, 0, ino.size, x);
    assert NoHole(ino.l, 0, x) <==> forall y :: 0 <= y < x ==> ino.l[y] != 0;
  }

  /** The file of a hole and a block that is not full: the write for that block is of a whole one, so that what comes
      back is longer than the file. */
  lemma BehindHole(j: Job, ino: Inode, pip: nat, w: Write)
    requires IsRequest(j, ino, pip) && Intact(j, ino, pip) && j.bsize < ino.size < 2 * j.bsize
    requires ino.l[0] == 0 && ino.l[1] != 0 && forall y :: 2 <= y < NADDR ==> ino.l[y] == 0
    ensures FileWork(j, ino, pip)[w] == OneIf(IsWrite(w, pip, 1, ino.l[1], j.bsize))
    ensures CountFor(j, pip, 1) == ino.size - j.bsize < j.bsize
  {
    LastBlock(ino.size, j.bsize, 1);
    EachBlockOnce(j, ino, pip, w);
  }

  /** Where the last byte is. */
  lemma LastBlock(size: nat, b: nat, last: int)
    requires b > 0 && last == (size + b - 1) / b - 1 && last >= 0
    ensures last * b < size <= last * b + b
    ensures size - last * b == if size % b == 0 then b else size % b
  {
    DivMod(size + b - 1, b, last + 1);
    assert (last + 1) * b == last * b + b;
    DivMod(size, b, if size == last * b + b then last + 1 else last);
  }

  // ---------------------------------------------------------------------
  // A whole run
  // ---------------------------------------------------------------------

  ghost predicate AreRequests(j: Job, files: seq<Inode>) {
    |files| <= |j.reqs| && forall i :: 0 <= i < |files| ==> |files[i].l| == NADDR && IsRequest(j, files[i], i)
  }

  /** The writes for the first n files. */
  ghost function FilesWork(j: Job, files: seq<Inode>, n: nat): multiset<Write>
    requires n <= |files| && AreRequests(j, files)
  {
    if n == 0 then multiset{}
    else if files[n - 1].l[NADDR - 1] != 0 then FilesWork(j, files, n - 1)
    else FilesWork(j, files, n - 1) + FileWork(j, files[n - 1], n - 1)
  }

  /** The list that the first n files are entered in. */
  function FilesList(j: Job, files: seq<Inode>, n: nat): seq<Entry>
    requires n <= |files| && AreRequests(j, files)
  {
    if n == 0 then []
    else if files[n - 1].l[NADDR - 1] != 0 then FilesList(j, files, n - 1)
    else EnterAll(FilesList(j, files, n - 1), FileNodes(j, files[n - 1], n - 1))
  }

  /** How often a block is among those that the first n files lead to. */
  ghost function FilesUses(j: Job, files: seq<Inode>, n: nat, b: nat): nat
    requires n <= |files| && AreRequests(j, files)
  {
    if n == 0 then 0
    else if files[n - 1].l[NADDR - 1] != 0 then FilesUses(j, files, n - 1, b)
    else FilesUses(j, files, n - 1, b) + UsesIn(j, FileNodes(j, files[n - 1], n - 1), b)
  }

  /** How often an address is in the inodes of the first n files. */
  ghost function FilesTimes(j: Job, files: seq<Inode>, n: nat, b: nat): nat
    requires n <= |files| && AreRequests(j, files)
  {
    if n == 0 then 0
    else if files[n - 1].l[NADDR - 1] != 0 then FilesTimes(j, files, n - 1, b)
    else FilesTimes(j, files, n - 1, b) + Times(FileNodes(j, files[n - 1], n - 1), b)
  }

  lemma {:induction false} ListPending(j: Job, files: seq<Inode>, n: nat)
    requires n <= |files| && AreRequests(j, files)
    ensures var c := FilesList(j, files, n); InOrder(c) && Pending(j, c) == FilesWork(j, files, n)
  {
    if n > 0 {
      ListPending(j, files, n - 1);
      if files[n - 1].l[NADDR - 1] == 0 {
        FileNoHead(j, files[n - 1], n - 1);
        EnterTotals(j, FilesList(j, files, n - 1), FileNodes(j, files[n - 1], n - 1), 0);
      }
    }
  }

  lemma {:induction false} ListTimes(j: Job, files: seq<Inode>, n: nat, b: nat)
    requires n <= |files| && AreRequests(j, files)
    ensures var c := FilesList(j, files, n);
            UsesIn(j, c, b) == FilesUses(j, files, n, b) && Times(c, b) == FilesTimes(j, files, n, b)
  {
    if n > 0 {
      ListTimes(j, files, n - 1, b);
      if files[n - 1].l[NADDR - 1] == 0 { OneMoreFile(j, files, n - 1, b); }
    }
  }

  lemma OneMoreFile(j: Job, files: seq<Inode>, n: nat, b: nat)
    requires n < |files| && AreRequests(j, files) && files[n].l[NADDR - 1] == 0
    ensures var c, c', nodes := FilesList(j, files, n), FilesList(j, files, n + 1), FileNodes(j, files[n], n);
            UsesIn(j, c', b) == UsesIn(j, c, b) + UsesIn(j, nodes, b) && Times(c', b) == Times(c, b) + Times(nodes, b)
  {
    FileNoHead(j, files[n], n);
    ListPending(j, files, n);
    EnterTotals(j, FilesList(j, files, n), FileNodes(j, files[n], n), b);
  }

  /** The run for these files, when the last block read is curb. */
  ghost function RunFor(j: Job, files: seq<Inode>, curb: int): Trace
    requires AreRequests(j, files)
  {
    Run(j, curb, Cursor([], FilesList(j, files, |files|)))
  }

  /** The blocks in the order in which the run comes to them. */
  ghost function OrderFor(j: Job, files: seq<Inode>): seq<Entry>
    requires AreRequests(j, files)
  {
    Order(j, Cursor([], FilesList(j, files, |files|)))
  }

  /** The second half of ilist, and recover: the writes, the reports, and whether the program came to its end. */
  method RecoverFiles(job: Job, tape: Tape, files: seq<Inode>) returns (ok: bool, written: seq<Write>, lost: seq<Entry>)
    requires AreRequests(job, files) && tape.Valid()
    requires OnTape(job, tape.stream, tape.bsize, tape.blksize) && StandsBehind(tape.curb, tape.bsize, tape.Next())
    modifies tape`pos, tape`bufoff, tape`curb, tape.ibuf, tape.lbbuf
    ensures var run := RunFor(job, files, old(tape.curb));
            written == WritesOf(run.found) && lost == run.lost && ok == (run.rest == [])
  {
    var r := new Recovery(job, tape);
    SaveAll(r, files);
    ok, lost := r.Recover();
    written := r.written;
  }

  method SaveAll(r: Recovery, files: seq<Inode>)
    requires r.ring.Valid() && AreRequests(r.job, files) && r.ring.contents == []
    modifies r.ring, r.ring.repr`rlink, r.ring.repr`llink
    ensures r.ring.Valid() && fresh(r.ring.repr - old(r.ring.repr)) && r.ring.contents == FilesList(r.job, files, |files|)
  {
    var i := 0;
    while i < |files|
      invariant 0 <= i <= |files| && r.ring.Valid() && r.ring.contents == FilesList(r.job, files, i)
      invariant forall n :: n in r.ring.repr ==> n in old(r.ring.repr) || fresh(n)
    {
      SaveFile(r, files, i);
      i := i + 1;
    }
  }

  method SaveFile(r: Recovery, files: seq<Inode>, i: nat)
    requires r.ring.Valid() && AreRequests(r.job, files) && i < |files| && r.ring.contents == FilesList(r.job, files, i)
    modifies r.ring, r.ring.repr`rlink, r.ring.repr`llink
    ensures r.ring.Valid() && r.ring.contents == FilesList(r.job, files, i + 1)
    ensures forall n :: n in r.ring.repr ==> n in old(r.ring.repr) || fresh(n)
  {
    var _ := Saveblks(r, files[i], i);
  }

  /** The run reports nothing and comes to its end exactly when each block is found behind the one in front of it. */
  lemma RunFlawless(j: Job, files: seq<Inode>, curb: int)
    requires AreRequests(j, files)
    ensures Flawless(RunFor(j, files, curb)) <==> Good(j, curb, OrderFor(j, files))
  {
    FlawlessExactly(j, curb, Cursor([], FilesList(j, files, |files|)));
  }

  /** Whatever the tape, what was written, what was reported and what was left make up what the files lead to. */
  lemma RunConserves(j: Job, files: seq<Inode>, curb: int)
    requires AreRequests(j, files)
    ensures Balance(j, RunFor(j, files, curb)) == FilesWork(j, files, |files|)
  {
    ListPending(j, files, |files|);
    RunBalance(j, curb, Cursor([], FilesList(j, files, |files|)));
  }

  /** When no block is shared, and each can be read and is not the one read last, nothing is lost. */
  lemma UnsharedIsFlawless(j: Job, files: seq<Inode>, curb: int)
    requires AreRequests(j, files)
    requires forall b :: FilesUses(j, files, |files|, b) <= if Near(j, b) && Readable(j, b) && b != curb then 1 else 0
    ensures Flawless(RunFor(j, files, curb))
  {
    var c := FilesList(j, files, |files|);
    forall b ensures UsesIn(j, c, b) == FilesUses(j, files, |files|, b) { ListTimes(j, files, |files|, b); }
    assert forall b :: UsesOf(j, Cursor([], c), b) == UsesIn(j, c, b);
    ListPending(j, files, |files|);
    OnceEach(j, curb, Cursor([], c));
    RunFlawless(j, files, curb);
  }

  lemma {:induction false} TimesIn(c: seq<Entry>, b: nat) returns (i: nat)
    requires Times(c, b) > 0
    ensures i < |c| && c[i].blkno == b
  {
    if c[0].blkno == b {
      i := 0;
    } else {
      i := TimesIn(c[1..], b);
      i := i + 1;
    }
  }

  lemma {:induction false} TimesTwins(c: seq<Entry>, b: nat)
    requires Times(c, b) > 1
    ensures Twins(c)
  {
    if c[0].blkno == b {
      var i := TimesIn(c[1..], b);
      assert c[0].blkno == c[i + 1].blkno;
    } else {
      TimesTwins(c[1..], b);
      var i, k :| 0 <= i < k < |c[1..]| && c[1..][i].blkno == c[1..][k].blkno;
      assert c[i + 1].blkno == c[k + 1].blkno;
    }
  }

  /** When the inodes share an address, something is lost, whatever the tape. */
  lemma SharedIsFlawed(j: Job, files: seq<Inode>, curb: int, b: nat)
    requires AreRequests(j, files) && FilesTimes(j, files, |files|, b) > 1
    ensures !Flawless(RunFor(j, files, curb))
  {
    var c := FilesList(j, files, |files|);
    ListPending(j, files, |files|);
    ListTimes(j, files, |files|, b);
    TimesTwins(c, b);
    TwinsNeverGood(j, curb, Cursor([], c));
    RunFlawless(j, files, curb);
  }

  /** A file of one block. */
  ghost predicate OneBlock(j: Job, ino: Inode, b: nat) {
    |ino.l| == NADDR && b != 0 && ino.l[0] == b && (forall x :: 0 < x < NADDR ==> ino.l[x] == 0) && 0 < ino.size <= j.bsize
  }

  lemma OneNode(j: Job, ino: Inode, pip: nat, b: nat)
    requires OneBlock(j, ino, b)
    ensures FileNodes(j, ino, pip) == [Entry(Data, b, ino.size, 0, pip)]
  {
    NoMore(j, ino.l, pip, 1, ino.size);
  }

  lemma {:induction false} NoMore(j: Job, l: seq<nat>, pip: nat, i: nat, size: int)
    requires i <= DIRECT <= |l| && forall x :: i <= x < DIRECT ==> l[x] == 0
    ensures DirectNodes(j, l, pip, i, size) == []
    decreases DIRECT - i
  {
    if i < DIRECT && size > 0 { NoMore(j, l, pip, i + 1, size); }
  }

  /** The list of two files of one block that share it. */
  lemma TwoEntered(j: Job, files: seq<Inode>, b: nat)
    requires AreRequests(j, files) && |files| == 2 && OneBlock(j, files[0], b) && OneBlock(j, files[1], b)
    ensures FilesList(j, files, 2) == [Entry(Data, b, files[1].size, 0, 1), Entry(Data, b, files[0].size, 0, 0)]
  {
    var x, y := Entry(Data, b, files[0].size, 0, 0), Entry(Data, b, files[1].size, 0, 1);
    OneNode(j, files[0], 0, b);
    OneNode(j, files[1], 1, b);
    EnterFirst([], x, []);
    EnterFirst([x], y, []);
    assert [x] + [] == [x] && [y] + [] == [y] && [y] + [x] == [y, x];
    assert FilesList(j, files, 1) == [x];
  }

  lemma TwoWrites(j: Job, files: seq<Inode>, b: nat)
    requires AreRequests(j, files) && |files| == 2 && OneBlock(j, files[0], b) && OneBlock(j, files[1], b) && Readable(j, b)
    ensures FilesWork(j, files, 2) == multiset{Write(0, 0, b, files[0].size), Write(1, 0, b, files[1].size)}
  {
    var x, y := Entry(Data, b, files[0].size, 0, 0), Entry(Data, b, files[1].size, 0, 1);
    OneNode(j, files[0], 0, b);
    OneNode(j, files[1], 1, b);
    assert [x] + [] == [x] && [y] + [] == [y];
    PendingCons(j, x, []);
    PendingCons(j, y, []);
    assert FilesWork(j, files, 1) == multiset{Write(0, 0, b, files[0].size)};
  }

  /** Of two files of one block that share it, only the one requested last gets it. */
  lemma SharedBlockFiles(j: Job, files: seq<Inode>, curb: int, b: nat)
    requires AreRequests(j, files) && |files| == 2 && OneBlock(j, files[0], b) && OneBlock(j, files[1], b)
    requires Locate(j, curb, b) == Hit
    ensures WritesOf(RunFor(j, files, curb).found) == [Write(1, 0, b, files[1].size)]
    ensures FilesWork(j, files, 2) == multiset{Write(0, 0, b, files[0].size), Write(1, 0, b, files[1].size)}
  {
    TwoEntered(j, files, b);
    SharedBlock(j, curb, Entry(Data, b, files[1].size, 0, 1), Entry(Data, b, files[0].size, 0, 0));
    assert Readable(j, b);
    TwoWrites(j, files, b);
  }

  /** In a run that loses nothing each block of an intact file is written exactly once, to its own place, and nothing
      else is written for that file. */
  lemma RunIsExact(j: Job, files: seq<Inode>, curb: int, w: Write)
    requires AreRequests(j, files) && Good(j, curb, OrderFor(j, files))
    requires forall i :: 0 <= i < |files| && files[i].l[NADDR - 1] == 0 ==> Intact(j, files[i], i)
    ensures multiset(WritesOf(RunFor(j, files, curb).found))[w]
            == OneIf(w.pip < |files| && files[w.pip].l[NADDR - 1] == 0
                     && IsWrite(w, w.pip, w.bindex, BlockAt(j, files[w.pip], w.bindex), CountAt(j, files[w.pip], w.pip, w.bindex)))
  {
    RunFlawless(j, files, curb);
    RunConserves(j, files, curb);
    FilesOnce(j, files, |files|, w);
  }

  lemma {:induction false} FilesOnce(j: Job, files: seq<Inode>, n: nat, w: Write)
    requires n <= |files| && AreRequests(j, files)
    requires forall i :: 0 <= i < n && files[i].l[NADDR - 1] == 0 ==> Intact(j, files[i], i)
    ensures FilesWork(j, files, n)[w]
            == OneIf(w.pip < n && files[w.pip].l[NADDR - 1] == 0
                     && IsWrite(w, w.pip, w.bindex, BlockAt(j, files[w.pip], w.bindex), CountAt(j, files[w.pip], w.pip, w.bindex)))
  {
    if n > 0 {
      FilesOnce(j, files, n - 1, w);
      if files[n - 1].l[NADDR - 1] == 0 { EachBlockOnce(j, files[n - 1], n - 1, w); }
    }
  }
}
