/**
  dag: the nodes in a search tree by name, their links in chunks of eight, and the printing of the graph.
*/
module Dag {
  import opened CStrings
  import opened DagWalk
  import opened Sequences

  const NLINK: nat := 8

  // ---------------------------------------------------------------------
  // The search tree. A pointer to a node is its number, and -1 is NULL.
  // ---------------------------------------------------------------------

  datatype Tree = Tree(root: int, names: seq<Field>, left: seq<int>, right: seq<int>)

  /** A pointer that may lead to a node. */
  datatype Slot = Root | LeftOf(p: nat) | RightOf(p: nat)

  datatype Spot = Found(node: nat) | Free(slot: Slot)

  /** Children were made after their parents. */
  ghost predicate Shape(t: Tree) {
    && |t.left| == |t.right| == |t.names| && -1 <= t.root < |t.names|
    && (forall i :: 0 <= i < |t.left| ==> t.left[i] == -1 || i < t.left[i] < |t.names|)
    && (forall i :: 0 <= i < |t.right| ==> t.right[i] == -1 || i < t.right[i] < |t.names|)
  }

  predicate HasSlot(t: Tree, s: Slot) {
    match s
    case Root => true
    case LeftOf(p) => p < |t.left|
    case RightOf(p) => p < |t.right|
  }

  function At(t: Tree, s: Slot): int
    requires HasSlot(t, s)
  {
    match s
    case Root => t.root
    case LeftOf(p) => t.left[p]
    case RightOf(p) => t.right[p]
  }

  /** A bound on the nodes behind a slot. */
  ghost function Depth(t: Tree, s: Slot): nat
    requires Shape(t) && HasSlot(t, s)
  {
    if At(t, s) == -1 then 0 else |t.names| - At(t, s)
  }

  /** Where the search from this slot ends. */
  ghost function Where(t: Tree, s: Slot, name: Field): (w: Spot)
    requires Shape(t) && HasSlot(t, s)
    ensures match w case Found(i) => i < |t.names| && t.names[i] == name case Free(s') => HasSlot(t, s') && At(t, s') == -1
    decreases Depth(t, s)
  {
    var i := At(t, s);
    if i == -1 then Free(s)
    else if Cmp(name, t.names[i]) > 0 then Where(t, RightOf(i), name)
    else if Cmp(name, t.names[i]) < 0 then Where(t, LeftOf(i), name)
    else
      CmpEqual(name, t.names[i]);
      Found(i)
  }

  /** Every node is found by its name. */
  ghost predicate IsTree(t: Tree) {
    Shape(t) && forall i: nat :: i < |t.names| ==> FoundAt(t, i)
  }

  ghost predicate FoundAt(t: Tree, i: nat)
    requires Shape(t) && i < |t.names|
  {
    Where(t, Root, t.names[i]) == Found(i)
  }

  /** A new node with this name in a free slot. */
  ghost function Put(t: Tree, s: Slot, name: Field): Tree
    requires HasSlot(t, s)
  {
    var n := |t.names|;
    Tree(if s.Root? then n else t.root, t.names + [name],
         (if s.LeftOf? then t.left[s.p := n] else t.left) + [-1],
         (if s.RightOf? then t.right[s.p := n] else t.right) + [-1])
  }

  lemma PutShape(t: Tree, s: Slot, name: Field)
    requires Shape(t) && HasSlot(t, s) && At(t, s) == -1 && (s.Root? || s.p < |t.names|)
    ensures Shape(Put(t, s, name))
    ensures forall s' :: HasSlot(t, s') && s' != s ==> HasSlot(Put(t, s, name), s') && At(Put(t, s, name), s') == At(t, s')
  {
  }

  lemma {:induction false} StillFound(t: Tree, s: Slot, name: Field, s': Slot, name': Field)
    requires Shape(t) && HasSlot(t, s) && At(t, s) == -1 && HasSlot(t, s') && Where(t, s', name').Found?
    ensures Shape(Put(t, s, name)) && HasSlot(Put(t, s, name), s') && Where(Put(t, s, name), s', name') == Where(t, s', name')
    decreases Depth(t, s')
  {
    PutShape(t, s, name);
    var i := At(t, s');
    assert Put(t, s, name).names[i] == t.names[i];
    if Cmp(name', t.names[i]) > 0 {
      StillFound(t, s, name, RightOf(i), name');
    } else if Cmp(name', t.names[i]) < 0 {
      StillFound(t, s, name, LeftOf(i), name');
    }
  }

  lemma {:induction false} NowFound(t: Tree, s: Slot, name: Field, s': Slot)
    requires Shape(t) && HasSlot(t, s) && At(t, s) == -1 && HasSlot(t, s') && Where(t, s', name) == Free(s)
    ensures Shape(Put(t, s, name)) && HasSlot(Put(t, s, name), s') && Where(Put(t, s, name), s', name) == Found(|t.names|)
    decreases Depth(t, s')
  {
    PutShape(t, s, name);
    var i := At(t, s');
    var t' := Put(t, s, name);
    if i == -1 {
      CmpEqual(name, name);
      assert t'.names[|t.names|] == name && At(t', s) == |t.names|;
    } else {
      assert t'.names[i] == t.names[i] && At(t', s') == i;
      if Cmp(name, t.names[i]) > 0 {
        NowFound(t, s, name, RightOf(i));
      } else {
        NowFound(t, s, name, LeftOf(i));
      }
    }
  }

  lemma PutTree(t: Tree, s: Slot, name: Field)
    requires IsTree(t) && Where(t, Root, name) == Free(s)
    ensures name !in t.names && IsTree(Put(t, s, name))
  {
    PutShape(t, s, name);
    var t' := Put(t, s, name);
    forall i: nat | i < |t.names| ensures t.names[i] != name { assert FoundAt(t, i); }
    forall i: nat | i < |t'.names| ensures FoundAt(t', i) {
      if i < |t.names| {
        assert FoundAt(t, i);
        StillFound(t, s, name, Root, t.names[i]);
      } else {
        NowFound(t, s, name, Root);
      }
    }
  }

  // ---------------------------------------------------------------------
  // Links
  // ---------------------------------------------------------------------

  /** The links of a node, eight to a chunk. */
  ghost predicate Chunked(chunks: seq<seq<int>>, links: seq<nat>) {
    && |chunks| == (|links| + 7) / 8
    && (forall q :: 0 <= q < |chunks| ==> |chunks[q]| == 8)
    && forall k :: 0 <= k < |links| ==> InChunks(chunks, k, links[k])
  }

  ghost predicate InChunks(chunks: seq<seq<int>>, k: nat, x: int) {
    k / 8 < |chunks| && k % 8 < |chunks[k / 8]| && chunks[k / 8][k % 8] == x
  }

  lemma NextSlot(i: nat)
    ensures if i % 8 == 7 then (i + 1) / 8 == i / 8 + 1 && (i + 1) % 8 == 0 else (i + 1) / 8 == i / 8 && (i + 1) % 8 == i % 8 + 1
    ensures (i + 8) / 8 == i / 8 + 1 && (i + 7) / 8 == if i % 8 == 0 then i / 8 else i / 8 + 1
  {
  }

  lemma SameSlot(i: nat, k: nat)
    ensures i / 8 == k / 8 && i % 8 == k % 8 ==> i == k
  {
  }

  /** Putting a link in the next place, in a new chunk if need be. */
  lemma ChunkedMore(chunks: seq<seq<int>>, links: seq<nat>, fresh_: seq<int>, x: nat)
    requires Chunked(chunks, links) && |fresh_| == 8
    ensures var q, j := |links| / 8, |links| % 8;
            var c := if q == |chunks| then chunks + [fresh_] else chunks;
            q < |c| && |c[q]| == 8 && Chunked(c[q := c[q][j := x]], links + [x])
  {
    var q, j := |links| / 8, |links| % 8;
    NextSlot(|links|);
    var c := if q == |chunks| then chunks + [fresh_] else chunks;
    var c' := c[q := c[q][j := x]];
    forall k | 0 <= k < |links + [x]| ensures InChunks(c', k, (links + [x])[k]) {
      if k < |links| {
        assert InChunks(chunks, k, links[k]);
        SameSlot(k, |links|);
      }
    }
  }

  /** How many of the first n nodes, other than r, link to r. */
  function Refs(succ: seq<seq<nat>>, r: nat, n: nat): nat
    requires n <= |succ|
  {
    if n == 0 then 0 else Refs(succ, r, n - 1) + if n - 1 != r && r in succ[n - 1] then 1 else 0
  }

  lemma {:induction false} RefsLink(succ: seq<seq<nat>>, np: nat, rp: nat, r: nat, n: nat)
    requires np < |succ| && rp !in succ[np] && n <= |succ|
    ensures Refs(succ[np := succ[np] + [rp]], r, n) == Refs(succ, r, n) + if np < n && np != rp && r == rp then 1 else 0
  {
    if n > 0 { RefsLink(succ, np, rp, r, n - 1); }
  }

  lemma {:induction false} RefsNode(succ: seq<seq<nat>>, r: nat, n: nat)
    requires n <= |succ|
    ensures Refs(succ + [[]], r, n) == Refs(succ, r, n)
  {
    if n > 0 { RefsNode(succ, r, n - 1); }
  }

  lemma {:induction false} NoRefs(succ: seq<seq<nat>>, r: nat, n: nat)
    requires n <= |succ|
    ensures Refs(succ, r, n) == 0 <==> forall i :: 0 <= i < n && i != r ==> r !in succ[i]
  {
    if n > 0 { NoRefs(succ, r, n - 1); }
  }

  /** Every node holds its links, none of them twice. */
  ghost predicate Linked(chunks: seq<seq<seq<int>>>, lcnt: seq<nat>, succ: seq<seq<nat>>) {
    && |chunks| == |lcnt| == |succ|
    && forall i :: 0 <= i < |succ| ==> Chunked(chunks[i], succ[i]) && lcnt[i] == |succ[i]| && Distinct(succ[i])
  }

  /** Every node counts the others that link to it. */
  ghost predicate Counted(rcnt: seq<nat>, succ: seq<seq<nat>>) {
    |rcnt| == |succ| && forall r :: 0 <= r < |rcnt| ==> rcnt[r] == Refs(succ, r, |succ|)
  }

  lemma CountedLink(rcnt: seq<nat>, succ: seq<seq<nat>>, np: nat, rp: nat)
    requires Counted(rcnt, succ) && np < |succ| && rp < |succ| && rp !in succ[np]
    ensures Counted(if np != rp then rcnt[rp := rcnt[rp] + 1] else rcnt, succ[np := succ[np] + [rp]])
  {
    forall r | 0 <= r < |succ| ensures Refs(succ[np := succ[np] + [rp]], r, |succ|) == Refs(succ, r, |succ|) + if np != rp && r == rp then 1 else 0 {
      RefsLink(succ, np, rp, r, |succ|);
    }
  }

  lemma CountedNode(rcnt: seq<nat>, succ: seq<seq<nat>>)
    requires Counted(rcnt, succ) && IsGraph(succ)
    ensures Counted(rcnt + [0], succ + [[]])
  {
    var succ', n := succ + [[]], |succ|;
    forall r | 0 <= r <= n ensures (rcnt + [0])[r] == Refs(succ', r, n + 1) {
      RefsNode(succ, r, n);
      if r == n { NoRefs(succ, n, n); }
    }
  }

  lemma LinkedNode(chunks: seq<seq<seq<int>>>, lcnt: seq<nat>, succ: seq<seq<nat>>)
    requires Linked(chunks, lcnt, succ) && IsGraph(succ)
    ensures Linked(chunks + [[]], lcnt + [0], succ + [[]]) && IsGraph(succ + [[]])
  {
  }

  lemma LinkedLink(chunks: seq<seq<seq<int>>>, c: seq<seq<int>>, lcnt: seq<nat>, succ: seq<seq<nat>>, np: nat, rp: nat)
    requires Linked(chunks, lcnt, succ) && IsGraph(succ) && np < |succ| && rp < |succ| && rp !in succ[np] && Chunked(c, succ[np] + [rp])
    ensures Linked(chunks[np := c], lcnt[np := lcnt[np] + 1], succ[np := succ[np] + [rp]]) && IsGraph(succ[np := succ[np] + [rp]])
  {
  }

  /** The nodes that no other node links to, of the first n. */
  function RootsOf(succ: seq<seq<nat>>, n: nat): seq<nat>
    requires n <= |succ|
  {
    if n == 0 then []
    else if Refs(succ, n - 1, |succ|) == 0 then RootsOf(succ, n - 1) + [n - 1]
    else RootsOf(succ, n - 1)
  }

  /** In dfs: node np has its line and the first i of its links were followed. */
  ghost predicate Expanding(succ: seq<seq<nat>>, roots: seq<nat>, data: seq<Data>, v0: seq<nat>, v: seq<nat>,
                            out0: seq<Line>, out: seq<Line>, np: nat, lv: nat, i: nat, full: bool)
  {
    && np < |succ| == |v0| && i <= |succ[np]| && New(v0, v, np)
    && |out0| < |out| && out[|out0|].node == np && out[|out0|].level == lv && out[|out0|].what.Shows?
    && Count(v0, |v0|) < Count(v, |v|)
    && Walked(succ, roots, data, v0, v, out0, out, np, 1 - |succ[np]| + i, full)
    && (full ==> AllVisited(succ[np][..i], v) && Blocks(succ, out, |out0| + 1, |out|, succ[np], i, lv + 1))
  }

  lemma Started(succ: seq<seq<nat>>, roots: seq<nat>, data: seq<Data>, v: seq<nat>, out: seq<Line>, np: nat, lv: nat, full: bool)
    requires Good(out, v, data) && np < |v| == |succ| && v[np] == 0 && Reachable(succ, roots, np)
    ensures Expanding(succ, roots, data, v, v[np := |out| + 1], out, out + [Line(|out| + 1, lv, np, Shows(data[np]))], np, lv, 0, full)
  {
    Marked(succ, roots, data, v, out, np, lv, full);
    MarkCounts(succ, v, np, |out| + 1, |v|);
  }

  lemma VisitedOn(list: seq<nat>, i: nat, v: seq<nat>, v': seq<nat>)
    requires i < |list| && AllVisited(list[..i], v) && Kept(v, v') && list[i] < |v'| && v'[list[i]] > 0
    ensures AllVisited(list[..i + 1], v')
  {
    var t := list[..i + 1];
    forall k | 0 <= k < |t| ensures t[k] < |v'| && v'[t[k]] > 0 {
      if k < i { assert list[..i][k] == t[k]; }
    }
  }

  lemma ExpandingOn(succ: seq<seq<nat>>, roots: seq<nat>, data: seq<Data>, v0: seq<nat>, v: seq<nat>, v': seq<nat>,
                    out0: seq<Line>, out: seq<Line>, out': seq<Line>, np: nat, lv: nat, i: nat, full: bool)
    requires Expanding(succ, roots, data, v0, v, out0, out, np, lv, i, full) && i < |succ[np]| && IsGraph(succ)
    requires Walked(succ, roots, data, v, v', out, out', -1, 1, full)
    requires full ==> v'[succ[np][i]] > 0 && Block(succ, out', |out|, |out'|, succ[np][i], lv + 1)
    ensures Expanding(succ, roots, data, v0, v', out0, out', np, lv, i + 1, full)
  {
    WalkedOn(succ, roots, data, v0, v, v', out0, out, out', np, 1 - |succ[np]| + i, full);
    CountKept(v, v', |v|);
    assert out'[|out0|] == out[|out0|];
    if full {
      BlocksMore(succ, out, out', |out0| + 1, succ[np], i, lv + 1);
      VisitedOn(succ[np], i, v, v');
    }
  }

  lemma ExpandingEnd(succ: seq<seq<nat>>, roots: seq<nat>, data: seq<Data>, v0: seq<nat>, v: seq<nat>,
                     out0: seq<Line>, out: seq<Line>, np: nat, lv: nat, full: bool)
    requires np < |succ| && Expanding(succ, roots, data, v0, v, out0, out, np, lv, |succ[np]|, full)
    ensures Walked(succ, roots, data, v0, v, out0, out, -1, 1, full)
    ensures full ==> v[np] > 0 && Block(succ, out, |out0|, |out|, np, lv)
  {
    assert succ[np][..|succ[np]|] == succ[np];
    if full { Expanded(succ, roots, data, v0, v, out0, out, np, lv); }
  }

  ghost predicate IsStore(t: Tree, data: seq<Data>, rcnt: seq<nat>, lcnt: seq<nat>, chunks: seq<seq<seq<int>>>, succ: seq<seq<nat>>) {
    && IsTree(t) && |data| == |succ| == |t.names|
    && IsGraph(succ) && Linked(chunks, lcnt, succ) && Counted(rcnt, succ)
  }

  lemma StoreNode(t: Tree, s: Slot, name: Field, data: seq<Data>, rcnt: seq<nat>, lcnt: seq<nat>, chunks: seq<seq<seq<int>>>, succ: seq<seq<nat>>)
    requires IsStore(t, data, rcnt, lcnt, chunks, succ) && Where(t, Root, name) == Free(s)
    ensures name !in t.names && IsStore(Put(t, s, name), data + [NoData], rcnt + [0], lcnt + [0], chunks + [[]], succ + [[]])
  {
    PutTree(t, s, name);
    CountedNode(rcnt, succ);
    LinkedNode(chunks, lcnt, succ);
  }

  /** The chunks of a node after one more link, which goes to slot j of chunk q. */
  function ChunksMore(chunks: seq<seq<int>>, q: nat, j: nat, x: int): seq<seq<int>>
    requires q <= |chunks| && j < NLINK && (q < |chunks| ==> |chunks[q]| == NLINK)
  {
    var c := if q == |chunks| then chunks + [NewChunk()] else chunks;
    c[q := c[q][j := x]]
  }

  /** A chunk of null pointers. */
  function NewChunk(): (c: seq<int>)
    ensures |c| == NLINK
  {
    seq(NLINK, _ => -1)
  }

  lemma StoreLink(t: Tree, data: seq<Data>, rcnt: seq<nat>, lcnt: seq<nat>, chunks: seq<seq<seq<int>>>, succ: seq<seq<nat>>, np: nat, rp: nat)
    requires IsStore(t, data, rcnt, lcnt, chunks, succ) && np < |succ| && rp < |succ| && rp !in succ[np]
    ensures var q, j := lcnt[np] / 8, lcnt[np] % 8;
            && q <= |chunks[np]| && (q < |chunks[np]| ==> |chunks[np][q]| == NLINK)
            && IsStore(t, data, if np != rp then rcnt[rp := rcnt[rp] + 1] else rcnt, lcnt[np := lcnt[np] + 1],
                       chunks[np := ChunksMore(chunks[np], q, j, rp)], succ[np := succ[np] + [rp]])
  {
    var q, j := lcnt[np] / 8, lcnt[np] % 8;
    NextSlot(lcnt[np]);
    ChunkedMore(chunks[np], succ[np], NewChunk(), rp);
    CountedLink(rcnt, succ, np, rp);
    LinkedLink(chunks, ChunksMore(chunks[np], q, j, rp), lcnt, succ, np, rp);
  }

  // ---------------------------------------------------------------------
  // What dfs does, as a function
  // ---------------------------------------------------------------------

  datatype State = State(visit: seq<nat>, out: seq<Line>)

  ghost function Walk(succ: seq<seq<nat>>, data: seq<Data>, lvmax: nat, np: nat, lv: nat, s: State): (r: State)
    requires IsGraph(succ) && np < |succ| == |data| == |s.visit|
    ensures |r.visit| == |succ| && Count(r.visit, |succ|) >= Count(s.visit, |succ|)
    decreases |succ| - Count(s.visit, |succ|), 0
  {
    var n := |s.out| + 1;
    if lv > lvmax then s
    else if s.visit[np] > 0 then State(s.visit, s.out + [Line(n, lv, np, Cites(s.visit[np]))])
    else
      MarkCounts(succ, s.visit, np, n, |succ|);
      WalkList(succ, data, lvmax, succ[np], 0, lv + 1, State(s.visit[np := n], s.out + [Line(n, lv, np, Shows(data[np]))]))
  }

  /** The nodes of the list, from the i-th on. */
  ghost function WalkList(succ: seq<seq<nat>>, data: seq<Data>, lvmax: nat, list: seq<nat>, i: nat, lv: nat, s: State): (r: State)
    requires IsGraph(succ) && i <= |list| && Nodes(list, |succ|) && |succ| == |data| == |s.visit|
    ensures |r.visit| == |succ| && Count(r.visit, |succ|) >= Count(s.visit, |succ|)
    decreases |succ| - Count(s.visit, |succ|), 1, |list| - i
  {
    if i == |list| then s
    else WalkList(succ, data, lvmax, list, i + 1, lv, Walk(succ, data, lvmax, list[i], lv, s))
  }

  lemma {:induction false} WalkIsWalked(succ: seq<seq<nat>>, roots: seq<nat>, data: seq<Data>, lvmax: nat, np: nat, lv: nat, s: State)
    requires IsGraph(succ) && np < |succ| == |data| == |s.visit|
    requires Good(s.out, s.visit, data) && Reachable(succ, roots, np) && lv <= Count(s.visit, |succ|)
    ensures var r := Walk(succ, data, lvmax, np, lv, s);
            && Walked(succ, roots, data, s.visit, r.visit, s.out, r.out, -1, 1, |succ| <= lvmax)
            && (|succ| <= lvmax ==> r.visit[np] > 0 && Block(succ, r.out, |s.out|, |r.out|, np, lv))
    decreases |succ| - Count(s.visit, |succ|), 0
  {
    var full := |succ| <= lvmax;
    if lv > lvmax {
    } else if s.visit[np] > 0 {
      Cited(succ, roots, data, s.visit, s.out, np, lv, full);
    } else {
      var n := |s.out| + 1;
      var t := State(s.visit[np := n], s.out + [Line(n, lv, np, Shows(data[np]))]);
      Started(succ, roots, data, s.visit, s.out, np, lv, full);
      WalkListExpands(succ, roots, data, lvmax, np, 0, lv, s, t);
      var r := WalkList(succ, data, lvmax, succ[np], 0, lv + 1, t);
      ExpandingEnd(succ, roots, data, s.visit, r.visit, s.out, r.out, np, lv, full);
    }
  }

  lemma {:induction false} WalkListExpands(succ: seq<seq<nat>>, roots: seq<nat>, data: seq<Data>, lvmax: nat, np: nat, i: nat, lv: nat,
                                           s: State, t: State)
    requires IsGraph(succ) && np < |succ| == |data| == |s.visit| == |t.visit| && Reachable(succ, roots, np) && lv <= Count(s.visit, |succ|)
    requires Expanding(succ, roots, data, s.visit, t.visit, s.out, t.out, np, lv, i, |succ| <= lvmax)
    ensures var r := WalkList(succ, data, lvmax, succ[np], i, lv + 1, t);
            Expanding(succ, roots, data, s.visit, r.visit, s.out, r.out, np, lv, |succ[np]|, |succ| <= lvmax)
    decreases |succ| - Count(t.visit, |succ|), 1, |succ[np]| - i
  {
    if i < |succ[np]| {
      ReachableOn(succ, roots, np, i);
      WalkIsWalked(succ, roots, data, lvmax, succ[np][i], lv + 1, t);
      var t' := Walk(succ, data, lvmax, succ[np][i], lv + 1, t);
      ExpandingOn(succ, roots, data, s.visit, t.visit, t'.visit, s.out, t.out, t'.out, np, lv, i, |succ| <= lvmax);
      WalkListExpands(succ, roots, data, lvmax, np, i + 1, lv, s, t');
    }
  }

  // ---------------------------------------------------------------------
  // The whole listing
  // ---------------------------------------------------------------------

  lemma {:induction false} RootsPrefix(succ: seq<seq<nat>>, k: nat, n: nat)
    requires k <= n <= |succ|
    ensures RootsOf(succ, k) <= RootsOf(succ, n)
    decreases n - k
  {
    if k < n { RootsPrefix(succ, k, n - 1); }
  }

  lemma {:induction false} RootsAre(succ: seq<seq<nat>>, n: nat)
    requires n <= |succ|
    ensures Nodes(RootsOf(succ, n), n) && Distinct(RootsOf(succ, n))
    ensures forall r: nat :: r in RootsOf(succ, n) <==> r < n && Refs(succ, r, |succ|) == 0
  {
    if n > 0 { RootsAre(succ, n - 1); }
  }

  lemma {:induction false} RefsMean(succ: seq<seq<nat>>, r: nat, n: nat)
    requires n <= |succ|
    ensures Refs(succ, r, n) == 0 <==> forall np :: 0 <= np < n && np != r ==> r !in succ[np]
  {
    if n > 0 { RefsMean(succ, r, n - 1); }
  }

  /** The roots are the nodes that no other node links to, in the order of the nodes. */
  lemma RootsMean(succ: seq<seq<nat>>)
    ensures forall r: nat :: r in RootsOf(succ, |succ|)
                             <==> r < |succ| && forall np :: 0 <= np < |succ| && np != r ==> r !in succ[np]
    ensures forall i, k :: 0 <= i < k < |RootsOf(succ, |succ|)| ==> RootsOf(succ, |succ|)[i] < RootsOf(succ, |succ|)[k]
  {
    RootsAre(succ, |succ|);
    RootsAscend(succ, |succ|);
    forall r: nat | r < |succ|
      ensures Refs(succ, r, |succ|) == 0 <==> forall np :: 0 <= np < |succ| && np != r ==> r !in succ[np]
    {
      RefsMean(succ, r, |succ|);
    }
  }

  lemma {:induction false} RootsAscend(succ: seq<seq<nat>>, n: nat)
    requires n <= |succ|
    ensures forall i, k :: 0 <= i < k < |RootsOf(succ, n)| ==> RootsOf(succ, n)[i] < RootsOf(succ, n)[k]
  {
    if n > 0 {
      RootsAscend(succ, n - 1);
      RootsAre(succ, n - 1);
      var roots := RootsOf(succ, n - 1);
      forall i | 0 <= i < |roots| ensures roots[i] < n - 1 { assert roots[i] in roots; }
    }
  }

  /** The first i roots are listed. */
  ghost predicate Listed(succ: seq<seq<nat>>, roots: seq<nat>, data: seq<Data>, v0: seq<nat>, s: State, i: nat, full: bool) {
    && i <= |roots| && Walked(succ, roots, data, v0, s.visit, [], s.out, -1, i, full)
    && (full ==> AllVisited(roots[..i], s.visit) && Blocks(succ, s.out, 0, |s.out|, roots, i, 0))
  }

  lemma {:induction false} WalkListLists(succ: seq<seq<nat>>, roots: seq<nat>, data: seq<Data>, lvmax: nat, v0: seq<nat>, i: nat, s: State)
    requires IsGraph(succ) && |succ| == |data| == |s.visit| == |v0| && Nodes(roots, |succ|)
    requires Listed(succ, roots, data, v0, s, i, |succ| <= lvmax)
    ensures Listed(succ, roots, data, v0, WalkList(succ, data, lvmax, roots, i, 0, s), |roots|, |succ| <= lvmax)
    decreases |roots| - i
  {
    if i < |roots| {
      var p := [roots[i]];
      assert IsPath(succ, roots, p);
      WalkIsWalked(succ, roots, data, lvmax, roots[i], 0, s);
      var t := Walk(succ, data, lvmax, roots[i], 0, s);
      WalkedOn(succ, roots, data, v0, s.visit, t.visit, [], s.out, t.out, -1, i, |succ| <= lvmax);
      if |succ| <= lvmax {
        BlocksMore(succ, s.out, t.out, 0, roots, i, 0);
        VisitedOn(roots, i, s.visit, t.visit);
      }
      WalkListLists(succ, roots, data, lvmax, v0, i + 1, t);
    }
  }

  /** The listing of a graph from these roots, when it is not cut off. */
  ghost predicate IsListing(succ: seq<seq<nat>>, roots: seq<nat>, data: seq<Data>, visit: seq<nat>, out: seq<Line>) {
    && |visit| == |succ| && Good(out, visit, data)
    && (forall n: nat :: n < |succ| ==> (visit[n] > 0 <==> Reachable(succ, roots, n)))
    && |out| == |roots| + Weight(succ, visit, |visit|)
    && Blocks(succ, out, 0, |out|, roots, |roots|, 0)
  }

  ghost predicate Unvisited(visit: seq<nat>) {
    forall i :: 0 <= i < |visit| ==> visit[i] == 0
  }

  lemma {:induction false} NoWeight(succ: seq<seq<nat>>, visit: seq<nat>, n: nat)
    requires n <= |visit| == |succ| && Unvisited(visit)
    ensures Weight(succ, visit, n) == 0
  {
    if n > 0 { NoWeight(succ, visit, n - 1); }
  }

  lemma ListedAll(succ: seq<seq<nat>>, roots: seq<nat>, data: seq<Data>, v0: seq<nat>, s: State)
    requires IsGraph(succ) && |succ| == |v0| && Unvisited(v0)
    requires Listed(succ, roots, data, v0, s, |roots|, true)
    ensures IsListing(succ, roots, data, s.visit, s.out)
  {
    NoWeight(succ, v0, |v0|);
    assert roots[..|roots|] == roots;
    forall i: nat | i < |succ| && s.visit[i] > 0 ensures AllVisited(succ[i], s.visit) && Reachable(succ, roots, i) {
      assert New(v0, s.visit, i);
    }
    forall n: nat | n < |succ| && Reachable(succ, roots, n) ensures s.visit[n] > 0 {
      var p :| IsPath(succ, roots, p) && p[|p| - 1] == n;
      AllReached(succ, roots, s.visit, p);
    }
  }

  lemma ListingOf(succ: seq<seq<nat>>, data: seq<Data>, lvmax: nat, v0: seq<nat>, s: State)
    requires IsGraph(succ) && |succ| == |data| == |v0| && Unvisited(v0) && Nodes(RootsOf(succ, |succ|), |succ|)
    requires s == WalkList(succ, data, lvmax, RootsOf(succ, |succ|), 0, 0, State(v0, []))
    ensures Good(s.out, s.visit, data)
    ensures |succ| <= lvmax ==> IsListing(succ, RootsOf(succ, |succ|), data, s.visit, s.out)
  {
    var roots := RootsOf(succ, |succ|);
    assert Listed(succ, roots, data, v0, State(v0, []), 0, |succ| <= lvmax);
    WalkListLists(succ, roots, data, lvmax, v0, 0, State(v0, []));
    if |succ| <= lvmax { ListedAll(succ, roots, data, v0, s); }
  }

  /** Nothing at all is listed if and only if every node is called by another one. */
  lemma NothingListed(succ: seq<seq<nat>>, data: seq<Data>, visit: seq<nat>, out: seq<Line>)
    requires IsListing(succ, RootsOf(succ, |succ|), data, visit, out)
    ensures out == [] <==> forall r :: 0 <= r < |succ| ==> Refs(succ, r, |succ|) > 0
  {
    var roots := RootsOf(succ, |succ|);
    RootsAre(succ, |succ|);
    if roots == [] {
      forall n | 0 <= n < |succ| ensures visit[n] == 0 && Refs(succ, n, |succ|) > 0 {
        assert !Reachable(succ, roots, n);
        assert n !in roots;
      }
      NoWeight(succ, visit, |visit|);
    } else {
      var r := roots[0];
      assert r in roots && Refs(succ, r, |succ|) == 0;
      assert |out| > 0 && !(Refs(succ, r, |succ|) > 0);
    }
  }

  class Graph {
    var root: int
    var names: seq<Field>
    var left: seq<int>
    var right: seq<int>
    var data: seq<Data>
    var rcnt: seq<nat>
    var visit: seq<nat>
    var lcnt: seq<nat>
    var chunks: seq<seq<seq<int>>>
    const lvmax: nat
    var lineno: nat
    var out: seq<Line>
    /** The links of every node. */
    ghost var succ: seq<seq<nat>>

    function TreeOf(): Tree
      reads this`root, this`names, this`left, this`right
    {
      Tree(root, names, left, right)
    }

    ghost predicate Valid()
      reads this`root, this`names, this`left, this`right, this`data, this`rcnt, this`lcnt, this`chunks, this`succ
    {
      IsStore(TreeOf(), data, rcnt, lcnt, chunks, succ)
    }

    ghost predicate Printable()
      reads this`data, this`lcnt, this`chunks, this`succ, this`visit
    {
      |data| == |visit| == |succ| && IsGraph(succ) && Linked(chunks, lcnt, succ)
    }

    constructor (lvmax: nat)
      ensures Valid() && names == [] && visit == [] && lineno == 0 && out == [] && this.lvmax == lvmax
    {
      this.lvmax, root, names, left, right, data, rcnt, visit, lcnt, chunks := lvmax, -1, [], [], [], [], [], [], [], [];
      lineno, out, succ := 0, [], [];
    }

    /** getnode: the node with this name, a new one if there is none. */
    method Getnode(name: Field) returns (np: nat)
      requires Valid() && |visit| == |names|
      modifies this`root, this`names, this`left, this`right, this`data, this`rcnt, this`visit, this`lcnt, this`chunks, this`succ
      ensures Valid() && np < |names| && names[np] == name
      ensures if name in old(names) then names == old(names) && succ == old(succ) && data == old(data) && visit == old(visit)
              else names == old(names) + [name] && succ == old(succ) + [[]] && data == old(data) + [NoData] && visit == old(visit) + [0]
    {
      var pp := Root;
      var np' := root;
      while np' != -1
        invariant HasSlot(TreeOf(), pp) && np' == At(TreeOf(), pp) && Where(TreeOf(), Root, name) == Where(TreeOf(), pp, name)
        decreases Depth(TreeOf(), pp)
      {
        var i := Cmp(name, names[np']);
        if i > 0 {
          pp := RightOf(np');
          np' := right[np'];
        } else if i < 0 {
          pp := LeftOf(np');
          np' := left[np'];
        } else {
          return np';
        }
      }
      np := Newnode(pp, name);
    }

    /** The part of getnode that makes a node. */
    method Newnode(pp: Slot, name: Field) returns (np: nat)
      requires Valid() && |visit| == |names| && Where(TreeOf(), Root, name) == Free(pp)
      modifies this`root, this`names, this`left, this`right, this`data, this`rcnt, this`visit, this`lcnt, this`chunks, this`succ
      ensures Valid() && name !in old(names) && np == |old(names)| && names == old(names) + [name]
      ensures succ == old(succ) + [[]] && data == old(data) + [NoData] && visit == old(visit) + [0]
    {
      StoreNode(TreeOf(), pp, name, data, rcnt, lcnt, chunks, succ);
      ghost var t := Put(TreeOf(), pp, name);
      np := |names|;
      match pp {
        case Root => root := np;
        case LeftOf(p) => left := left[p := np];
        case RightOf(p) => right := right[p := np];
      }
      names, left, right := names + [name], left + [-1], right + [-1];
      assert TreeOf() == t;
      data, rcnt, lcnt, visit, chunks := data + [NoData], rcnt + [0], lcnt + [0], visit + [0], chunks + [[]];
      succ := succ + [[]];
    }

    /** The loop of addlink: whether there is a link from np to rp, or else the place for a new one. */
    method Findlink(np: nat, rp: nat) returns (found: bool, q: nat, j: nat)
      requires Valid() && np < |succ|
      ensures np < |lcnt| && (found <==> rp in succ[np]) && (!found ==> q == lcnt[np] / 8 && j == lcnt[np] % 8)
    {
      assert Linked(chunks, lcnt, succ);
      var i := 0;
      q, j := 0, 0;
      while q < |chunks[np]| && i < lcnt[np]
        invariant 0 <= i <= |succ[np]| && q == i / 8 && j == i % 8 && rp !in succ[np][..i]
      {
        assert InChunks(chunks[np], i, succ[np][i]);
        if rp == chunks[np][q][j] {
          return true, q, j;
        }
        NextSlot(i);
        j := j + 1;
        if j >= NLINK {
          j, q := 0, q + 1;
        }
        i := i + 1;
      }
      NextSlot(lcnt[np]);
      found := false;
    }

    /** addlink: a new link from np to rp, 0 if there is one. */
    method Addlink(np: nat, rp: nat) returns (r: nat)
      requires Valid() && np < |succ| && rp < |succ|
      modifies this`rcnt, this`lcnt, this`chunks, this`succ
      ensures Valid()
      ensures if rp in old(succ[np]) then r == 0 && succ == old(succ) else r == 1 && succ == old(succ)[np := old(succ[np]) + [rp]]
    {
      var found, q, j := Findlink(np, rp);
      if found {
        return 0;
      }
      StoreLink(TreeOf(), data, rcnt, lcnt, chunks, succ, np, rp);
      chunks := chunks[np := ChunksMore(chunks[np], q, j, rp)];
      if np != rp {
        rcnt := rcnt[rp := rcnt[rp] + 1];
      }
      lcnt := lcnt[np := lcnt[np] + 1];
      succ := succ[np := succ[np] + [rp]];
      r := 1;
    }

    /** dfs: the lines for a node on this level. */
    method Dfs(np: nat, lv: nat)
      requires Printable() && np < |visit| && lineno == |out|
      modifies this`visit, this`lineno, this`out
      ensures |visit| == |succ| && lineno == |out| && State(visit, out) == Walk(succ, data, lvmax, np, lv, State(old(visit), old(out)))
      decreases |succ| - Count(visit, |visit|), 0
    {
      if lv > lvmax {
        return;
      }
      lineno := lineno + 1;
      if visit[np] > 0 {
        out := out + [Line(lineno, lv, np, Cites(visit[np]))];
        return;
      }
      MarkCounts(succ, visit, np, lineno, |visit|);
      out := out + [Line(lineno, lv, np, Shows(data[np]))];
      visit := visit[np := lineno];
      Follow(np, lv + 1);
    }

    /** The loop of dfs: the lines for the links of a node. */
    method Follow(np: nat, lv: nat)
      requires Printable() && np < |visit| && lineno == |out|
      modifies this`visit, this`lineno, this`out
      ensures |visit| == |succ| && lineno == |out|
      ensures State(visit, out) == WalkList(succ, data, lvmax, succ[np], 0, lv, State(old(visit), old(out)))
      decreases |succ| - Count(visit, |visit|), 1
    {
      var i, j, lp: nat := 0, 0, 0;
      ghost var goal := WalkList(succ, data, lvmax, succ[np], 0, lv, State(visit, out));
      while i < lcnt[np] && lp < |chunks[np]|
        invariant 0 <= i <= |succ[np]| && lp == i / 8 && j == i % 8
        invariant |visit| == |succ| && lineno == |out| && Count(visit, |visit|) >= Count(old(visit), |old(visit)|)
        invariant WalkList(succ, data, lvmax, succ[np], i, lv, State(visit, out)) == goal
      {
        assert InChunks(chunks[np], i, succ[np][i]);
        Dfs(chunks[np][lp][j], lv);
        NextSlot(i);
        j := j + 1;
        if j >= NLINK {
          j, lp := 0, lp + 1;
        }
        i := i + 1;
      }
      NextSlot(lcnt[np]);
    }

    /** The loop of main. */
    method Listroots()
      requires Valid() && |visit| == |succ| && lineno == |out|
      modifies this`visit, this`lineno, this`out
      ensures |visit| == |succ| && lineno == |out| && Nodes(RootsOf(succ, |succ|), |succ|)
      ensures State(visit, out) == WalkList(succ, data, lvmax, RootsOf(succ, |succ|), 0, 0, State(old(visit), old(out)))
    {
      ghost var roots := RootsOf(succ, |succ|);
      RootsAre(succ, |succ|);
      ghost var goal := WalkList(succ, data, lvmax, roots, 0, 0, State(visit, out));
      var np := 0;
      while np < |rcnt|
        invariant 0 <= np <= |succ| && Printable() && lineno == |out| && |RootsOf(succ, np)| <= |roots|
        invariant WalkList(succ, data, lvmax, roots, |RootsOf(succ, np)|, 0, State(visit, out)) == goal
      {
        Listroot(np, roots);
        np := np + 1;
      }
    }

    /** One node of listroots. */
    method Listroot(np: nat, ghost roots: seq<nat>)
      requires Printable() && lineno == |out| && np < |rcnt| == |succ| && rcnt[np] == Refs(succ, np, |succ|)
      requires roots == RootsOf(succ, |succ|) && Nodes(roots, |succ|) && |RootsOf(succ, np)| <= |roots|
      modifies this`visit, this`lineno, this`out
      ensures Printable() && lineno == |out| && |RootsOf(succ, np + 1)| <= |roots|
      ensures WalkList(succ, data, lvmax, roots, |RootsOf(succ, np + 1)|, 0, State(visit, out))
              == WalkList(succ, data, lvmax, roots, |RootsOf(succ, np)|, 0, State(old(visit), old(out)))
    {
      RootsPrefix(succ, np + 1, |succ|);
      if rcnt[np] == 0 {
        Dfs(np, 0);
      }
    }

    /** main: the listing from every node that no other node links to. */
    method Print()
      requires Valid() && |visit| == |succ| && lineno == 0 && out == [] && Unvisited(visit)
      modifies this`visit, this`lineno, this`out
      ensures |visit| == |succ| && lineno == |out| && Good(out, visit, data)
      ensures |succ| <= lvmax ==> IsListing(succ, RootsOf(succ, |succ|), data, visit, out)
    {
      Listroots();
      ListingOf(succ, data, lvmax, old(visit), State(visit, out));
    }
  }

  /** The graph of two functions. */
  method TwoNodes(f: Field, g: Field, lvmax: nat) returns (graph: Graph)
    requires f != g
    ensures fresh(graph) && graph.Valid() && graph.succ == [[], []] && graph.visit == [0, 0]
    ensures graph.lineno == 0 && graph.out == [] && graph.lvmax == lvmax
  {
    graph := new Graph(lvmax);
    var np := graph.Getnode(f);
    var rp := graph.Getnode(g);
  }

  /** Two functions that call each other, and that nothing else calls, are not listed. */
  method Mutual(f: Field, g: Field, lvmax: nat) returns (out: seq<Line>)
    requires f != g && lvmax >= 2
    ensures out == []
  {
    var graph := TwoNodes(f, g, lvmax);
    var there := graph.Addlink(0, 1);
    var back := graph.Addlink(1, 0);
    graph.Print();
    out := graph.out;
    NothingListed(graph.succ, graph.data, graph.visit, out);
  }
}
