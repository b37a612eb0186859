/**
  dag: the listing of a call graph. Nodes are numbers, in the order in which they were made; succ[n] are the
  nodes that n links to, and visit[n] is the line that expands n, 0 for none.
*/
module DagWalk {
  import opened CStrings

  datatype Data = NoData | Data(text: Field)

  /** After the name, a line shows the data of the node, or cites the line that does. */
  datatype What = Cites(line: nat) | Shows(data: Data)

  datatype Line = Line(number: nat, level: nat, node: nat, what: What)

  // ---------------------------------------------------------------------
  // Graphs
  // ---------------------------------------------------------------------

  ghost predicate IsGraph(succ: seq<seq<nat>>) {
    forall n: nat :: n < |succ| ==> Nodes(succ[n], |succ|)
  }

  ghost predicate Nodes(list: seq<nat>, n: nat) {
    forall k :: 0 <= k < |list| ==> list[k] < n
  }

  ghost predicate IsPath(succ: seq<seq<nat>>, roots: seq<nat>, p: seq<nat>) {
    && p != [] && p[0] in roots && Nodes(p, |succ|)
    && forall k, k' :: 0 <= k && k' == k + 1 < |p| ==> p[k'] in succ[p[k]]
  }

  ghost predicate Reachable(succ: seq<seq<nat>>, roots: seq<nat>, n: nat) {
    exists p :: IsPath(succ, roots, p) && p[|p| - 1] == n
  }

  lemma ReachableOn(succ: seq<seq<nat>>, roots: seq<nat>, n: nat, k: nat)
    requires IsGraph(succ) && n < |succ| && k < |succ[n]| && Reachable(succ, roots, n)
    ensures Reachable(succ, roots, succ[n][k])
  {
    var p :| IsPath(succ, roots, p) && p[|p| - 1] == n;
    var q := p + [succ[n][k]];
    assert IsPath(succ, roots, q);
  }

  // ---------------------------------------------------------------------
  // Visits
  // ---------------------------------------------------------------------

  ghost predicate AllVisited(list: seq<nat>, visit: seq<nat>) {
    forall k :: 0 <= k < |list| ==> list[k] < |visit| && visit[list[k]] > 0
  }

  /** A visit is for ever. */
  ghost predicate Kept(v: seq<nat>, v': seq<nat>) {
    |v'| == |v| && forall i :: 0 <= i < |v| && v[i] > 0 ==> v'[i] == v[i]
  }

  ghost predicate New(v: seq<nat>, v': seq<nat>, i: nat) {
    i < |v| == |v'| && v[i] == 0 && v'[i] > 0
  }

  /** The new visits, but for one node, were followed up. */
  ghost predicate FollowedUp(succ: seq<seq<nat>>, v: seq<nat>, v': seq<nat>, but: int) {
    |v| == |v'| == |succ| && forall i: nat :: New(v, v', i) && i != but ==> AllVisited(succ[i], v')
  }

  ghost predicate NewReachable(succ: seq<seq<nat>>, roots: seq<nat>, v: seq<nat>, v': seq<nat>) {
    forall i: nat :: New(v, v', i) ==> Reachable(succ, roots, i)
  }

  /** How many of the first n nodes have been visited. */
  function Count(visit: seq<nat>, n: nat): (c: nat)
    requires n <= |visit|
    ensures c <= n
  {
    if n == 0 then 0 else Count(visit, n - 1) + if visit[n - 1] > 0 then 1 else 0
  }

  /** How many links they have. */
  function Weight(succ: seq<seq<nat>>, visit: seq<nat>, n: nat): nat
    requires n <= |visit| && n <= |succ|
  {
    if n == 0 then 0 else Weight(succ, visit, n - 1) + if visit[n - 1] > 0 then |succ[n - 1]| else 0
  }

  lemma {:induction false} CountKept(v: seq<nat>, v': seq<nat>, n: nat)
    requires Kept(v, v') && n <= |v|
    ensures Count(v, n) <= Count(v', n)
  {
    if n > 0 { CountKept(v, v', n - 1); }
  }

  lemma {:induction false} MarkCounts(succ: seq<seq<nat>>, v: seq<nat>, i: nat, line: nat, n: nat)
    requires i < |v| == |succ| && v[i] == 0 && line > 0 && n <= |v|
    ensures Count(v[i := line], n) == Count(v, n) + if i < n then 1 else 0
    ensures Weight(succ, v[i := line], n) == Weight(succ, v, n) + if i < n then |succ[i]| else 0
  {
    if n > 0 { MarkCounts(succ, v, i, line, n - 1); }
  }

  // ---------------------------------------------------------------------
  // Listings
  // ---------------------------------------------------------------------

  /** Lines are numbered; a node is expanded where visit says, and other lines for it cite that earlier line. */
  ghost predicate Good(out: seq<Line>, visit: seq<nat>, data: seq<Data>) {
    && |visit| == |data|
    && (forall k: nat :: k < |out| ==> GoodLine(out, k, visit, data))
    && (forall i: nat :: i < |visit| ==> ShownAt(out, i, visit))
  }

  ghost predicate ShownAt(out: seq<Line>, i: nat, visit: seq<nat>)
    requires i < |visit|
  {
    visit[i] > 0 ==> visit[i] <= |out| && out[visit[i] - 1].node == i && out[visit[i] - 1].what.Shows?
  }

  ghost predicate GoodLine(out: seq<Line>, k: nat, visit: seq<nat>, data: seq<Data>)
    requires k < |out|
  {
    var l := out[k];
    && l.number == k + 1 && l.node < |visit| == |data|
    && match l.what
       case Shows(d) => visit[l.node] == k + 1 && d == data[l.node]
       case Cites(m) => 0 < m == visit[l.node] <= k
  }

  /** Lines a to b - 1 are those for node n on this level: a citation, or the node with its links one level further in. */
  ghost predicate Block(succ: seq<seq<nat>>, out: seq<Line>, a: nat, b: nat, n: nat, level: nat)
    decreases b - a, 0, 0
  {
    && a < b <= |out| && n < |succ| && out[a].node == n && out[a].level == level
    && if out[a].what.Cites? then b == a + 1 else Blocks(succ, out, a + 1, b, succ[n], |succ[n]|, level + 1)
  }

  /** Lines a to b - 1 are those for the first i nodes in the list. */
  ghost predicate Blocks(succ: seq<seq<nat>>, out: seq<Line>, a: nat, b: nat, list: seq<nat>, i: nat, level: nat)
    requires i <= |list|
    decreases b - a, 1, i
  {
    && a <= b <= |out|
    && if i == 0 then a == b
       else exists m: nat :: LastFrom(succ, out, a, b, list, i, level, m)
  }

  /** The lines for the last of these nodes begin with line m. */
  ghost predicate LastFrom(succ: seq<seq<nat>>, out: seq<Line>, a: nat, b: nat, list: seq<nat>, i: nat, level: nat, m: nat)
    requires 0 < i <= |list|
    decreases b - a, 1, i, 0
  {
    a <= m < b && Blocks(succ, out, a, m, list, i - 1, level) && Block(succ, out, m, b, list[i - 1], level)
  }

  lemma {:induction false} BlockKept(succ: seq<seq<nat>>, out: seq<Line>, out': seq<Line>, a: nat, b: nat, n: nat, level: nat)
    requires Block(succ, out, a, b, n, level) && out <= out'
    ensures Block(succ, out', a, b, n, level)
    decreases b - a, 0, 0
  {
    assert out'[a] == out[a];
    if out[a].what.Shows? { BlocksKept(succ, out, out', a + 1, b, succ[n], |succ[n]|, level + 1); }
  }

  lemma {:induction false} BlocksKept(succ: seq<seq<nat>>, out: seq<Line>, out': seq<Line>, a: nat, b: nat, list: seq<nat>, i: nat, level: nat)
    requires i <= |list| && Blocks(succ, out, a, b, list, i, level) && out <= out'
    ensures Blocks(succ, out', a, b, list, i, level)
    decreases b - a, 1, i
  {
    if i > 0 {
      var m: nat :| LastFrom(succ, out, a, b, list, i, level, m);
      BlocksKept(succ, out, out', a, m, list, i - 1, level);
      BlockKept(succ, out, out', m, b, list[i - 1], level);
      assert LastFrom(succ, out', a, b, list, i, level, m);
    }
  }

  lemma BlocksMore(succ: seq<seq<nat>>, out: seq<Line>, out': seq<Line>, a: nat, list: seq<nat>, i: nat, level: nat)
    requires a <= |out| && i < |list| && Blocks(succ, out, a, |out|, list, i, level) && out <= out'
    requires Block(succ, out', |out|, |out'|, list[i], level)
    ensures Blocks(succ, out', a, |out'|, list, i + 1, level)
  {
    BlocksKept(succ, out, out', a, |out|, list, i, level);
    assert LastFrom(succ, out', a, |out'|, list, i + 1, level, |out|);
  }

  // ---------------------------------------------------------------------
  // What a walk does
  // ---------------------------------------------------------------------

  /**
    Visits and output before and after a number of calls; the node but is still being expanded. If the walk is
    not cut off, all links of the new visits were followed, and each gave a line.
  */
  ghost predicate Walked(succ: seq<seq<nat>>, roots: seq<nat>, data: seq<Data>, v: seq<nat>, v': seq<nat>,
                         out: seq<Line>, out': seq<Line>, but: int, lines: int, full: bool)
  {
    && Kept(v, v') && |v| == |succ| && out <= out' && Good(out', v', data) && NewReachable(succ, roots, v, v')
    && (full ==> FollowedUp(succ, v, v', but) && |out'| + Weight(succ, v, |v|) == |out| + lines + Weight(succ, v', |v|))
  }

  lemma WalkedOn(succ: seq<seq<nat>>, roots: seq<nat>, data: seq<Data>, v: seq<nat>, v': seq<nat>, v'': seq<nat>,
                 out: seq<Line>, out': seq<Line>, out'': seq<Line>, but: int, lines: int, full: bool)
    requires Walked(succ, roots, data, v, v', out, out', but, lines, full)
    requires Walked(succ, roots, data, v', v'', out', out'', -1, 1, full)
    ensures Walked(succ, roots, data, v, v'', out, out'', but, lines + 1, full)
  {
    forall i: nat | New(v, v'', i) ensures Reachable(succ, roots, i) && (full && i != but ==> AllVisited(succ[i], v'')) {
      if v'[i] > 0 { assert New(v, v', i); } else { assert New(v', v'', i); }
    }
  }

  /** The line that expands a node, before its links. */
  lemma Marked(succ: seq<seq<nat>>, roots: seq<nat>, data: seq<Data>, v: seq<nat>, out: seq<Line>, n: nat, level: nat, full: bool)
    requires Good(out, v, data) && n < |v| == |succ| && v[n] == 0 && Reachable(succ, roots, n)
    ensures var v', out' := v[n := |out| + 1], out + [Line(|out| + 1, level, n, Shows(data[n]))];
            Walked(succ, roots, data, v, v', out, out', n, 1 - |succ[n]|, full)
  {
    MarkCounts(succ, v, n, |out| + 1, |v|);
    GoodMarked(data, v, out, n, level);
    OnlyNew(succ, roots, v, n, |out| + 1);
  }

  lemma OnlyNew(succ: seq<seq<nat>>, roots: seq<nat>, v: seq<nat>, n: nat, line: nat)
    requires n < |v| == |succ| && v[n] == 0 && line > 0 && Reachable(succ, roots, n)
    ensures var v' := v[n := line]; Kept(v, v') && FollowedUp(succ, v, v', n) && NewReachable(succ, roots, v, v')
  {
    var v' := v[n := line];
    assert forall i: nat :: New(v, v', i) ==> i == n;
  }

  lemma GoodMarked(data: seq<Data>, v: seq<nat>, out: seq<Line>, n: nat, level: nat)
    requires Good(out, v, data) && n < |v| && v[n] == 0
    ensures Good(out + [Line(|out| + 1, level, n, Shows(data[n]))], v[n := |out| + 1], data)
  {
    var v', out' := v[n := |out| + 1], out + [Line(|out| + 1, level, n, Shows(data[n]))];
    forall k: nat | k < |out'| ensures GoodLine(out', k, v', data) {
      if k < |out| { assert GoodLine(out, k, v, data) && out'[k] == out[k]; }
    }
    forall i: nat | i < |v'| ensures ShownAt(out', i, v') { assert ShownAt(out, i, v); }
  }

  /** A line for a node that was expanded before. */
  lemma Cited(succ: seq<seq<nat>>, roots: seq<nat>, data: seq<Data>, v: seq<nat>, out: seq<Line>, n: nat, level: nat, full: bool)
    requires Good(out, v, data) && n < |v| == |succ| && v[n] > 0
    ensures var out' := out + [Line(|out| + 1, level, n, Cites(v[n]))];
            Walked(succ, roots, data, v, v, out, out', -1, 1, full) && Block(succ, out', |out|, |out'|, n, level)
  {
    var out' := out + [Line(|out| + 1, level, n, Cites(v[n]))];
    forall k: nat | k < |out'| ensures GoodLine(out', k, v, data) {
      if k < |out| { assert GoodLine(out, k, v, data) && out'[k] == out[k]; }
    }
    forall i: nat | i < |v| ensures ShownAt(out', i, v) { assert ShownAt(out, i, v); }
    assert ShownAt(out, n, v);
  }

  /** All links of n were followed. */
  lemma Expanded(succ: seq<seq<nat>>, roots: seq<nat>, data: seq<Data>, v: seq<nat>, v': seq<nat>,
                 out: seq<Line>, out': seq<Line>, n: nat, level: nat)
    requires Walked(succ, roots, data, v, v', out, out', n, 1, true) && n < |succ| && AllVisited(succ[n], v')
    requires |out| < |out'| && out'[|out|].node == n && out'[|out|].level == level && out'[|out|].what.Shows?
    requires Blocks(succ, out', |out| + 1, |out'|, succ[n], |succ[n]|, level + 1)
    ensures Walked(succ, roots, data, v, v', out, out', -1, 1, true) && Block(succ, out', |out|, |out'|, n, level)
  {
  }

  /** Nothing but the links is needed to get everywhere. */
  lemma {:induction false} AllReached(succ: seq<seq<nat>>, roots: seq<nat>, v: seq<nat>, p: seq<nat>)
    requires |v| == |succ| && AllVisited(roots, v) && (forall i :: 0 <= i < |v| && v[i] > 0 ==> AllVisited(succ[i], v))
    requires IsPath(succ, roots, p)
    ensures v[p[|p| - 1]] > 0
    decreases |p|
  {
    var n := |p| - 1;
    if n > 0 {
      var q := p[..n];
      assert q[0] == p[0];
      AllReached(succ, roots, v, q);
      assert q[|q| - 1] == p[n - 1] && p[n] in succ[p[n - 1]];
    }
  }
}
