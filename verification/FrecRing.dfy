/**
  The work list of frec: a ring of nodes, doubly linked, in ascending order of block numbers.
*/
module FrecRing {
  import opened Sequences

  /** The type of a node: what the block is that it stands for. */
  datatype Kind = Data | Single | Double | Head

  /** A node without its links. */
  datatype Entry = Entry(kind: Kind, blkno: nat, count: int, bindex: nat, pip: nat)

  class Bdata {
    var kind: Kind
    var blkno: nat
    var count: int
    var bindex: nat
    var pip: nat
    var rlink: Bdata
    var llink: Bdata

    /** A node that points to itself; the head of an empty ring. */
    constructor (kind: Kind)
      ensures this.kind == kind && blkno == 0 && rlink == this == llink
    {
      this.kind, blkno, count, bindex, pip := kind, 0, 0, 0, 0;
      rlink, llink := this, this;
    }

    method Fill(e: Entry)
      modifies this`kind, this`blkno, this`count, this`bindex, this`pip
      ensures Value() == e
    {
      kind, blkno, count, bindex, pip := e.kind, e.blkno, e.count, e.bindex, e.pip;
    }

    function Value(): Entry
      reads this`kind, this`blkno, this`count, this`bindex, this`pip
    {
      Entry(kind, blkno, count, bindex, pip)
    }
  }

  /** Neighbours point to each other. */
  ghost predicate Linked(ext: seq<Bdata>)
    reads ext`rlink, ext`llink
  {
    forall i, j :: 0 <= i < j < |ext| && j == i + 1 ==> ext[i].rlink == ext[j] && ext[j].llink == ext[i]
  }

  /** In ascending order, and no head among them. */
  ghost predicate InOrder(c: seq<Entry>) {
    && (forall i, j :: 0 <= i < j < |c| ==> c[i].blkno <= c[j].blkno)
    && (forall i :: 0 <= i < |c| ==> c[i].kind != Head)
  }

  /** The nodes have these values. */
  ghost predicate Shows(nodes: seq<Bdata>, c: seq<Entry>)
    reads nodes`kind, nodes`blkno, nodes`count, nodes`bindex, nodes`pip
  {
    |nodes| == |c| && forall i :: 0 <= i < |c| ==> nodes[i].Value() == c[i]
  }

  /** The ring from the head round to the head. */
  ghost function Ext(head: Bdata, nodes: seq<Bdata>): (ext: seq<Bdata>)
    ensures |ext| == |nodes| + 2 && ext[0] == head && ext[|nodes| + 1] == head
    ensures forall i :: 0 <= i < |nodes| ==> ext[i + 1] == nodes[i]
  {
    [head] + nodes + [head]
  }

  ghost predicate Shape(head: Bdata, nodes: seq<Bdata>) {
    head !in nodes && Distinct(nodes)
  }

  /** The list goes round, and no node is in it twice. */
  ghost predicate Circle(ext: seq<Bdata>) {
    |ext| >= 2 && ext[0] == ext[|ext| - 1] && forall i, j :: 0 < i < j < |ext| ==> ext[i] != ext[j]
  }

  lemma ExtCircle(head: Bdata, nodes: seq<Bdata>)
    requires Shape(head, nodes)
    ensures Circle(Ext(head, nodes))
  {
    var e := Ext(head, nodes);
    forall i, j | 0 < i < j < |e| ensures e[i] != e[j] {
      assert e[i] == nodes[i - 1];
      if j <= |nodes| { assert e[j] == nodes[j - 1]; }
    }
  }

  lemma ExtInsert(head: Bdata, nodes: seq<Bdata>, k: nat, n: Bdata, after: seq<Bdata>)
    requires Inserted(nodes, k, n, after)
    ensures Inserted(Ext(head, nodes), k + 1, n, Ext(head, after))
  {
    var e, t := Ext(head, nodes), Ext(head, after);
    forall i | k + 1 < i < |t| ensures t[i] == e[i - 1] {
      if i <= |after| { assert t[i] == after[i - 1] && e[i - 1] == nodes[i - 2]; }
    }
  }

  lemma ExtRemove(head: Bdata, nodes: seq<Bdata>, k: nat, after: seq<Bdata>)
    requires Removed(nodes, k, after)
    ensures Removed(Ext(head, nodes), k + 1, Ext(head, after))
  {
    var e, t := Ext(head, nodes), Ext(head, after);
    forall i | k + 1 <= i < |t| ensures t[i] == e[i + 1] {
      if i <= |after| { assert t[i] == after[i - 1] && e[i + 1] == nodes[i]; }
    }
  }

  lemma ShapeInsert(head: Bdata, nodes: seq<Bdata>, k: nat, n: Bdata, after: seq<Bdata>)
    requires Shape(head, nodes) && n !in nodes && n != head && Inserted(nodes, k, n, after)
    ensures Shape(head, after)
  {
  }

  lemma ShapeRemove(head: Bdata, nodes: seq<Bdata>, k: nat, after: seq<Bdata>)
    requires Shape(head, nodes) && Removed(nodes, k, after)
    ensures Shape(head, after)
  {
  }

  /** Where a block number belongs. */
  ghost predicate IsPlace(c: seq<Entry>, blk: nat, k: nat) {
    k <= |c| && (forall i :: 0 <= i < k ==> c[i].blkno < blk) && (k < |c| ==> c[k].blkno >= blk)
  }

  lemma OrderInsert(c: seq<Entry>, k: nat, e: Entry, after: seq<Entry>)
    requires InOrder(c) && e.kind != Head && IsPlace(c, e.blkno, k) && Inserted(c, k, e, after)
    ensures InOrder(after)
  {
  }

  lemma OrderRemove(c: seq<Entry>, k: nat, after: seq<Entry>)
    requires InOrder(c) && Removed(c, k, after)
    ensures InOrder(after)
  {
  }

  /** Where addnod puts a node. */
  function Place(c: seq<Entry>, blk: nat): (k: nat)
    ensures k <= |c|
  {
    if c == [] || c[0].blkno >= blk then 0 else 1 + Place(c[1..], blk)
  }

  lemma {:induction false} PlaceIs(c: seq<Entry>, blk: nat, k: nat)
    requires IsPlace(c, blk, k)
    ensures Place(c, blk) == k
  {
    if k > 0 { PlaceIs(c[1..], blk, k - 1); }
  }

  lemma {:induction false} PlaceOk(c: seq<Entry>, blk: nat)
    ensures IsPlace(c, blk, Place(c, blk))
  {
    if c != [] && c[0].blkno < blk { PlaceOk(c[1..], blk); }
  }

  /** The list with a node entered. */
  function Entered(c: seq<Entry>, e: Entry): seq<Entry> {
    PutAt(c, Place(c, e.blkno), e)
  }

  lemma EnteredInserts(c: seq<Entry>, e: Entry)
    ensures Inserted(c, Place(c, e.blkno), e, Entered(c, e)) && (InOrder(c) && e.kind != Head ==> InOrder(Entered(c, e)))
  {
    PlaceOk(c, e.blkno);
    if InOrder(c) && e.kind != Head { OrderInsert(c, Place(c, e.blkno), e, Entered(c, e)); }
  }

  /** A ring of nodes with these contents, in order. */
  ghost predicate IsRing(head: Bdata, nodes: seq<Bdata>, contents: seq<Entry>)
    reads head, nodes
  {
    && Shape(head, nodes) && Linked(Ext(head, nodes))
    && head.kind == Head && head.blkno == 0
    && Shows(nodes, contents) && InOrder(contents)
  }

  class Ring {
    const head: Bdata
    ghost var nodes: seq<Bdata>
    ghost var contents: seq<Entry>
    ghost var repr: set<Bdata>

    ghost predicate Valid()
      reads this, repr
    {
      head in repr && (forall n :: n in nodes ==> n in repr) && IsRing(head, nodes, contents)
    }

    constructor ()
      ensures Valid() && fresh(repr) && nodes == [] && contents == []
    {
      head := new Bdata(Head);
      nodes, contents, repr := [], [], {head};
    }

    /** The first node, or the head when there is none. */
    lemma FirstIs()
      requires Valid()
      ensures if nodes == [] then head.rlink == head else head.rlink == nodes[0] != head
    {
      var ext := Ext(head, nodes);
      assert ext[0].rlink == ext[1];
    }

    method First() returns (bp: Bdata)
      requires Valid()
      ensures bp == (if nodes == [] then head else nodes[0]) && (nodes != [] ==> bp != head && bp in nodes)
    {
      FirstIs();
      bp := head.rlink;
    }

    /** The first node whose block number is not smaller, or the head. */
    method Find(blk: nat) returns (bp: Bdata, ghost k: nat)
      requires Valid()
      ensures k <= |nodes| && bp == Ext(head, nodes)[k + 1] && IsPlace(contents, blk, k)
    {
      bp := head.rlink;
      k := 0;
      ghost var ext := Ext(head, nodes);
      assert ext[0].rlink == ext[1];
      while bp.kind != Head && blk > bp.blkno
        invariant 0 <= k <= |nodes| && bp == ext[k + 1]
        invariant forall i :: 0 <= i < k ==> contents[i].blkno < blk
        decreases |nodes| - k
      {
        assert ext[k + 1].rlink == ext[k + 2];
        bp := bp.rlink;
        k := k + 1;
      }
      assert k < |nodes| ==> contents[k].kind != Head;
    }

    /** addnod: the new node goes in front of the first one whose block number is not smaller; the callers
        set its fields. */
    method Addnod(e: Entry) returns (n: Bdata, ghost k: nat)
      requires Valid() && e.kind != Head
      modifies this, repr`rlink, repr`llink
      ensures Valid() && fresh(n) && repr == old(repr) + {n}
      ensures k == Place(old(contents), e.blkno) <= |old(nodes)| && nodes == PutAt(old(nodes), k, n) && contents == Entered(old(contents), e)
    {
      var bp;
      bp, k := Find(e.blkno);
      PlaceIs(contents, e.blkno, k);
      n := NewNode(e);
      ghost var after := Insert(nodes, k, n);
      ghost var shown := Insert(contents, k, e);
      InsertedNodes(nodes, k, n, after);
      Settle(n, bp, e, head, nodes, contents, k, after, shown);
      Adopt(after, shown, repr + {n});
    }

    ghost method Adopt(nodes: seq<Bdata>, contents: seq<Entry>, repr: set<Bdata>)
      requires head in repr && (forall n :: n in nodes ==> n in repr) && IsRing(head, nodes, contents)
      modifies this
      ensures Valid() && this.nodes == nodes && this.contents == contents && this.repr == repr
    {
      this.nodes, this.contents, this.repr := nodes, contents, repr;
    }

    static method NewNode(e: Entry) returns (n: Bdata)
      ensures fresh(n) && n.Value() == e
    {
      n := new Bdata(e.kind);
      n.Fill(e);
    }

    static method Settle(n: Bdata, bp: Bdata, ghost e: Entry, ghost head: Bdata, ghost olds: seq<Bdata>, ghost was: seq<Entry>,
                         ghost k: nat, ghost nodes: seq<Bdata>, ghost contents: seq<Entry>)
      requires IsRing(head, olds, was) && n !in olds && n != head && n.Value() == e && e.kind != Head
      requires IsPlace(was, e.blkno, k) && bp == Ext(head, olds)[k + 1] && Inserted(olds, k, n, nodes) && Inserted(was, k, e, contents)
      modifies n`rlink, n`llink, head`rlink, head`llink, olds`rlink, olds`llink
      ensures IsRing(head, nodes, contents)
    {
      Splice(n, bp, head, olds, k, nodes);
      Added(head, olds, was, k, n, e, nodes, contents);
    }

    static lemma Added(head: Bdata, olds: seq<Bdata>, was: seq<Entry>, k: nat, n: Bdata, e: Entry, nodes: seq<Bdata>, contents: seq<Entry>)
      requires Shape(head, olds) && n !in olds && n != head && Inserted(olds, k, n, nodes)
      requires Shows(olds, was) && InOrder(was) && e.kind != Head && IsPlace(was, e.blkno, k) && Inserted(was, k, e, contents)
      requires n.Value() == e
      ensures Shape(head, nodes) && InOrder(contents) && Shows(nodes, contents)
    {
      ShapeInsert(head, olds, k, n, nodes);
      OrderInsert(was, k, e, contents);
      forall i | 0 <= i < |nodes| ensures nodes[i].Value() == contents[i] {
        if i < k { assert nodes[i] == olds[i]; }
        if i > k { assert nodes[i] == olds[i - 1]; }
      }
    }

    static lemma Deleted(head: Bdata, olds: seq<Bdata>, was: seq<Entry>, k: nat, nodes: seq<Bdata>, contents: seq<Entry>)
      requires Linked(Ext(head, nodes)) && head.kind == Head && head.blkno == 0
      requires Shape(head, olds) && Removed(olds, k, nodes) && Shows(olds, was) && InOrder(was) && Removed(was, k, contents)
      ensures IsRing(head, nodes, contents)
    {
      ShapeRemove(head, olds, k, nodes);
      OrderRemove(was, k, contents);
    }

    /** delnode: the node is taken out, and the next one returned. */
    method Delnode(bp: Bdata, ghost k: nat) returns (next: Bdata)
      requires Valid() && k < |nodes| && bp == nodes[k]
      modifies this, repr`rlink, repr`llink
      ensures Valid() && repr == old(repr) && k < |old(contents)| && contents == WithoutAt(old(contents), k)
      ensures |nodes| == |contents| && next == if k < |nodes| then nodes[k] else head
    {
      ghost var after := Remove(nodes, k);
      ghost var shown := Remove(contents, k);
      RemovedNodes(nodes, k, after);
      next := TakeOut(bp, head, nodes, contents, k, after, shown);
      Adopt(after, shown, repr);
    }

    static method TakeOut(bp: Bdata, ghost head: Bdata, ghost olds: seq<Bdata>, ghost was: seq<Entry>, ghost k: nat,
                          ghost nodes: seq<Bdata>, ghost contents: seq<Entry>) returns (next: Bdata)
      requires IsRing(head, olds, was) && Removed(olds, k, nodes) && Removed(was, k, contents) && bp == olds[k]
      modifies head`rlink, head`llink, olds`rlink, olds`llink
      ensures IsRing(head, nodes, contents) && next == if k < |nodes| then nodes[k] else head
    {
      next := Cut(bp, head, olds, k, nodes);
      Deleted(head, olds, was, k, nodes, contents);
    }

    static lemma InsertedNodes(s: seq<Bdata>, k: nat, x: Bdata, t: seq<Bdata>)
      requires Inserted(s, k, x, t)
      ensures forall n :: n in t ==> n == x || n in s
    {
      forall n | n in t ensures n == x || n in s {
        var i: nat :| i < |t| && t[i] == n;
        assert i != k ==> s[if i < k then i else i - 1] == n;
      }
    }

    static lemma RemovedNodes(s: seq<Bdata>, k: nat, t: seq<Bdata>)
      requires Removed(s, k, t)
      ensures forall n :: n in t ==> n in s
    {
      forall n | n in t ensures n in s {
        var i: nat :| i < |t| && t[i] == n;
        assert s[if i < k then i else i + 1] == n;
      }
    }

    /** A new node in front of bp. */
    static method Splice(n: Bdata, bp: Bdata, ghost head: Bdata, ghost nodes: seq<Bdata>, ghost k: nat, ghost after: seq<Bdata>)
      requires Linked(Ext(head, nodes)) && Shape(head, nodes) && n !in nodes && n != head
      requires k <= |nodes| && bp == Ext(head, nodes)[k + 1] && Inserted(nodes, k, n, after)
      modifies n`rlink, n`llink, head`rlink, head`llink, nodes`rlink, nodes`llink
      ensures Linked(Ext(head, after))
    {
      ghost var ext := Ext(head, nodes);
      ExtCircle(head, nodes);
      ExtInsert(head, nodes, k, n, after);
      NotInExt(head, nodes, n);
      Link(n, bp, ext[k], ext, k, Ext(head, after));
    }

    static lemma NotInExt(head: Bdata, nodes: seq<Bdata>, n: Bdata)
      requires n !in nodes && n != head
      ensures n !in Ext(head, nodes)
    {
    }

    static method Cut(bp: Bdata, ghost head: Bdata, ghost nodes: seq<Bdata>, ghost k: nat, ghost after: seq<Bdata>) returns (next: Bdata)
      requires Linked(Ext(head, nodes)) && Shape(head, nodes) && Removed(nodes, k, after) && bp == nodes[k]
      modifies head`rlink, head`llink, nodes`rlink, nodes`llink
      ensures Linked(Ext(head, after)) && next == if k < |after| then after[k] else head
    {
      ghost var ext := Ext(head, nodes);
      ExtCircle(head, nodes);
      ExtRemove(head, nodes, k, after);
      Unlink(bp, ext[k], ext[k + 2], ext, k, Ext(head, after));
      next := bp.rlink;
    }

    /** The two assignments of delnode. */
    static method Unlink(bp: Bdata, ghost left: Bdata, ghost right: Bdata, ghost ext: seq<Bdata>, ghost k: nat, ghost e: seq<Bdata>)
      requires Removed(ext, k + 1, e)
      requires k + 2 < |ext| && Linked(ext) && Circle(ext)
      requires left == ext[k] && bp == ext[k + 1] && right == ext[k + 2]
      modifies left`rlink, right`llink
      ensures Linked(e) && bp.rlink == right
    {
      assert ext[k].rlink == ext[k + 1] && ext[k + 1].llink == ext[k];
      assert ext[k + 1].rlink == ext[k + 2] && ext[k + 2].llink == ext[k + 1];
      RlinkFirst(ext, k, k + 1);
      bp.llink.rlink := bp.rlink;
      bp.rlink.llink := bp.llink;
      forall i, j | 0 <= i < j < |e| && j == i + 1 ensures e[i].rlink == e[j] && e[j].llink == e[i] {
        if i < k {
          assert e[i] == ext[i] && e[i + 1] == ext[i + 1];
          RlinkFirst(ext, i, k);
          LlinkFirst(ext, i + 1, k + 2);
        } else if i > k {
          assert e[i] == ext[i + 1] && e[i + 1] == ext[i + 2];
          RlinkFirst(ext, i + 1, k);
          LlinkFirst(ext, i + 2, k + 2);
        }
      }
    }

    /** The four assignments of addnod. */
    static method Link(n: Bdata, bp: Bdata, ghost left: Bdata, ghost ext: seq<Bdata>, ghost k: nat, ghost e: seq<Bdata>)
      requires k + 1 < |ext| && Linked(ext) && n !in ext && bp == ext[k + 1] && left == ext[k] && Circle(ext)
      requires Inserted(ext, k + 1, n, e)
      modifies n`rlink, n`llink, left`rlink, bp`llink
      ensures Linked(e)
    {
      assert bp.llink == left;
      n.rlink := bp;
      n.llink := bp.llink;
      bp.llink.rlink := n;
      bp.llink := n;
      forall i, j | 0 <= i < j < |e| && j == i + 1 ensures e[i].rlink == e[j] && e[j].llink == e[i] {
        if i < k {
          assert e[i] == ext[i] && e[i + 1] == ext[i + 1];
          RlinkFirst(ext, i, k);
          LlinkFirst(ext, i + 1, k + 1);
        } else if i > k + 1 {
          assert e[i] == ext[i - 1] && e[i + 1] == ext[i];
          RlinkFirst(ext, i - 1, k);
          LlinkFirst(ext, i, k + 1);
        }
      }
    }

    /** Different places in front of the end hold different nodes. */
    static lemma RlinkFirst(ext: seq<Bdata>, i: nat, j: nat)
      requires Circle(ext) && i < |ext| - 1 && j < |ext| - 1 && i != j
      ensures ext[i] != ext[j]
    {
      var n := |ext| - 1;
      assert ext[if i == 0 then n else i] != ext[if j == 0 then n else j];
    }

    static lemma LlinkFirst(ext: seq<Bdata>, i: nat, j: nat)
      requires Circle(ext) && 0 < i < |ext| && 0 < j < |ext| && i != j
      ensures ext[i] != ext[j]
    {
    }
  }
}
