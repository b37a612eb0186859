/**
  The symbol tables of awk: hash chains that lookups relink, and the loop over an array whose
  body runs lookups and assignments on it.
*/
module AwkSymtab {
  import opened CStrings
  import opened Sequences

  const MAXSYM: nat := 50

  class Cell {
    const nval: Field
    var sval: Field
    var fval: real
    var tval: nat
    var cnext: Cell?

    constructor (nval: Field, sval: Field, fval: real, tval: nat, cnext: Cell?)
      ensures this.nval == nval && this.sval == sval && this.fval == fval && this.tval == tval && this.cnext == cnext
    {
      this.nval, this.sval, this.fval, this.tval, this.cnext := nval, sval, fval, tval, cnext;
    }
  }

  /** The loop of hash, with `hashval` so far. */
  function HashFrom(s: Field, hashval: nat): (h: nat)
    requires hashval < MAXSYM
    ensures h < MAXSYM
  {
    match s case Nul => hashval case Char(c, rest) => HashFrom(rest, (c + 31 * hashval) % MAXSYM)
  }

  function Hash(s: Field): (h: nat)
    ensures h < MAXSYM
  {
    HashFrom(s, 0)
  }

  /** The characters as digits to the base 31, behind h. */
  function Base31(cs: seq<nat>, h: nat): nat
    decreases |cs|, 0
  {
    if cs == [] then h else Base31(cs[1..], cs[0] + 31 * h)
  }

  lemma ModStep(c: nat, h: nat)
    ensures (c + 31 * (h % 50)) % 50 == (c + 31 * h) % 50
  {
    var q := h / 50;
    assert c + 31 * h == (c + 31 * (h % 50)) + 50 * (31 * q);
  }

  lemma {:induction false} HashMeansFrom(s: Field, h: nat)
    ensures HashFrom(s, h % 50) == Base31(Text(s), h) % 50
  {
    if s.Char? {
      ModStep(s.c, h);
      HashMeansFrom(s.rest, s.c + 31 * h);
      assert Text(s)[1..] == Text(s.rest);
    }
  }

  /** The hash is the value of a name as a number to the base 31, modulo 50. */
  lemma HashMeans(s: Field)
    ensures Hash(s) == Base31(Text(s), 0) % 50
  {
    HashMeansFrom(s, 0);
  }

  /** hash */
  method ComputeHash(s: Field) returns (hashval: nat)
    ensures hashval == Hash(s)
  {
    var r := s;
    hashval := 0;
    while r.Char?
      invariant hashval < MAXSYM && HashFrom(r, hashval) == Hash(s)
      decreases r
    {
      hashval := (r.c + 31 * hashval) % MAXSYM;
      r := r.rest;
    }
  }

  // ---------------------------------------------------------------------
  // One chain
  // ---------------------------------------------------------------------

  ghost predicate DistinctNames(cs: seq<Cell>) {
    forall i, j :: 0 <= i < j < |cs| ==> cs[i].nval != cs[j].nval
  }

  /** The cells from `first` on are cs; no name comes twice. */
  ghost predicate Chain(first: Cell?, cs: seq<Cell>)
    reads cs`cnext
  {
    && first == At(cs, 0) && DistinctNames(cs)
    && (forall i, j :: 0 <= i < |cs| && j == i + 1 ==> cs[i].cnext == At(cs, j))
  }

  /** Cell i of a chain; null behind the end. */
  ghost function At(cs: seq<Cell>, i: nat): Cell? {
    if i < |cs| then cs[i] else null
  }

  /** Where a name is in a chain, or its length. */
  method Seek(s: Field, first: Cell?, ghost cs: seq<Cell>) returns (p: Cell?, prev: Cell?, ghost k: nat)
    requires Chain(first, cs)
    ensures k <= |cs| && p == At(cs, k) && (forall i :: 0 <= i < k ==> cs[i].nval != s)
    ensures k < |cs| ==> cs[k].nval == s
    ensures prev == if k == 0 then null else cs[k - 1]
  {
    p, prev, k := first, null, 0;
    while p != null
      invariant k <= |cs| && p == At(cs, k) && (forall i :: 0 <= i < k ==> cs[i].nval != s)
      invariant prev == if k == 0 then null else cs[k - 1]
      decreases |cs| - k
    {
      CmpEqual(s, p.nval);
      if Cmp(s, p.nval) == 0 {
        return;
      }
      assert cs[k].cnext == At(cs, k + 1);
      prev := p;
      p := p.cnext;
      k := k + 1;
    }
  }

  /** t is s with its element k moved to the front. */
  ghost predicate Promoted(s: seq<Cell>, k: nat, t: seq<Cell>) {
    && k < |s| == |t| && t[0] == s[k]
    && (forall i, j :: 0 <= i < k && j == i + 1 ==> t[j] == s[i])
    && (forall i :: k < i < |s| ==> t[i] == s[i])
  }

  lemma Promote(s: seq<Cell>, k: nat) returns (t: seq<Cell>)
    requires k < |s|
    ensures Promoted(s, k, t)
  {
    t := [s[k]] + s[..k] + s[k + 1..];
  }

  lemma PromotedDistinct(s: seq<Cell>, k: nat, t: seq<Cell>)
    requires Promoted(s, k, t) && DistinctNames(s)
    ensures DistinctNames(t)
    ensures forall c :: c in t <==> c in s
  {
    forall i, j | 0 <= i < j < |t| ensures t[i].nval != t[j].nval {
      var a, b := if i == 0 then k else if i <= k then i - 1 else i, if j <= k then j - 1 else j;
      assert t[i] == s[a] && t[j] == s[b];
    }
    forall c ensures c in t <==> c in s {
      if c in t {
        var i: nat :| i < |t| && t[i] == c;
        assert s[if i == 0 then k else if i <= k then i - 1 else i] == c;
      }
      if c in s {
        var i: nat :| i < |s| && s[i] == c;
        assert t[if i == k then 0 else if i < k then i + 1 else i] == c;
      }
    }
  }

  /** Moving a cell that is not the first to the front of its chain. */
  method MoveToFront(first: Cell?, prev: Cell, p: Cell, ghost s: seq<Cell>, ghost k: nat, ghost t: seq<Cell>)
    requires Chain(first, s) && 0 < k && Promoted(s, k, t) && p == s[k] && prev == s[k - 1]
    modifies s`cnext
    ensures Chain(p, t)
  {
    assert s[k].cnext == At(s, k + 1);
    PromotedDistinct(s, k, t);
    prev.cnext := p.cnext;
    p.cnext := first;
    forall i, j | 0 <= i < |t| && j == i + 1 ensures t[i].cnext == At(t, j) {
      if i == 0 {
        assert At(t, 1) == s[0];
      } else if i < k {
        assert t[i] == s[i - 1] && s[i - 1].nval != s[k - 1].nval && s[i - 1].nval != s[k].nval;
        assert old(s[i - 1].cnext) == At(s, i);
        assert t[j] == s[i];
      } else if i == k {
        assert t[k] == s[k - 1];
      } else {
        assert t[i] == s[i] && s[i].nval != s[k - 1].nval && s[i].nval != s[k].nval;
        assert old(s[i].cnext) == At(s, j);
      }
    }
  }

  /** Unlinking a cell that is not the first. */
  method Unlink(first: Cell?, prev: Cell, p: Cell, ghost s: seq<Cell>, ghost k: nat, ghost t: seq<Cell>)
    requires Chain(first, s) && 0 < k && Removed(s, k, t) && p == s[k] && prev == s[k - 1]
    modifies s`cnext
    ensures Chain(first, t)
  {
    assert s[k].cnext == At(s, k + 1);
    prev.cnext := p.cnext;
    forall i, j | 0 <= i < |t| && j == i + 1 ensures t[i].cnext == At(t, j) {
      var a := if i < k then i else i + 1;
      assert t[i] == s[a];
      if a != k - 1 {
        assert s[a].nval != s[k - 1].nval;
        assert old(s[a].cnext) == At(s, a + 1);
      }
    }
  }

  /** Without its first cell. */
  lemma TailChain(first: Cell?, s: seq<Cell>, t: seq<Cell>)
    requires Chain(first, s) && Removed(s, 0, t)
    ensures Chain(s[0].cnext, t)
  {
    assert s[0].cnext == At(s, 1);
    forall i, j | 0 <= i < |t| && j == i + 1 ensures t[i].cnext == At(t, j) {
      assert t[i] == s[i + 1] && s[i + 1].cnext == At(s, i + 2);
    }
  }

  lemma HeadChain(first: Cell?, s: seq<Cell>, c: Cell, t: seq<Cell>)
    requires Chain(first, s) && Inserted(s, 0, c, t) && c.cnext == first && forall i :: 0 <= i < |s| ==> s[i].nval != c.nval
    ensures Chain(c, t)
  {
    forall i, j | 0 <= i < |t| && j == i + 1 ensures t[i].cnext == At(t, j) {
      if i > 0 { assert t[i] == s[i - 1] && s[i - 1].cnext == At(s, i); }
    }
  }

  // ---------------------------------------------------------------------
  // Tables
  // ---------------------------------------------------------------------

  /** Every cell is in the chain of its hash value, and under its name in the map, and nothing else is in the map. */
  ghost predicate Files(chains: seq<seq<Cell>>, dict: map<Field, Cell>) {
    && |chains| == MAXSYM
    && (forall h, c :: 0 <= h < MAXSYM && c in chains[h] ==> Hash(c.nval) == h && c.nval in dict && dict[c.nval] == c)
    && (forall k :: k in dict ==> dict[k].nval == k && dict[k] in chains[Hash(k)])
  }

  ghost predicate Within(chains: seq<seq<Cell>>, repr: set<Cell>) {
    forall h, c :: 0 <= h < |chains| && c in chains[h] ==> c in repr
  }

  class Table {
    const tab: array<Cell?>
    ghost var chains: seq<seq<Cell>>
    ghost var repr: set<Cell>
    /** What the table maps names to. */
    ghost var dict: map<Field, Cell>

    ghost predicate Valid()
      reads this, tab, repr
    {
      && tab.Length == MAXSYM && Files(chains, dict) && Within(chains, repr)
      && forall h :: 0 <= h < MAXSYM ==> Chain(tab[h], chains[h])
    }

    /** makesymtab */
    constructor ()
      ensures Valid() && fresh(tab) && repr == {} && dict == map[] && chains == seq(MAXSYM, _ => [])
    {
      tab := new Cell?[MAXSYM](_ => null);
      chains := seq(MAXSYM, _ => []);
      repr, dict := {}, map[];
    }

    /** Chains do not share cells. */
    lemma Apart(h: nat)
      requires Valid() && h < MAXSYM
      ensures forall g, c :: 0 <= g < MAXSYM && g != h && c in chains[g] ==> c !in chains[h]
    {
    }

    /** lookup: what the table maps s to, or null.  Outside of for-in loops the cell comes to the front. */
    method Lookup(s: Field, indepth: nat) returns (p: Cell?)
      requires Valid()
      modifies this`chains, this`dict, this`repr, tab, repr`cnext
      ensures Valid() && dict == old(dict) && repr == old(repr) && p == (if s in dict then dict[s] else null)
      ensures indepth > 0 ==> chains == old(chains)
    {
      var h := ComputeHash(s);
      var prev;
      ghost var k;
      p, prev, k := Seek(s, tab[h], chains[h]);
      Found(s, h, k);
      if p != null && prev != null && indepth == 0 {
        ToFront(h, prev, p, k);
      }
    }

    /** The relinking of lookup. */
    method ToFront(h: nat, prev: Cell, p: Cell, ghost k: nat)
      requires Valid() && h < MAXSYM && 0 < k < |chains[h]| && p == chains[h][k] && prev == chains[h][k - 1]
      modifies this`chains, this`dict, this`repr, tab, repr`cnext
      ensures Valid() && dict == old(dict) && repr == old(repr)
    {
      ghost var cs := chains[h];
      ghost var t := Promote(cs, k);
      PromotedDistinct(cs, k, t);
      Refiled(h, t);
      Apart(h);
      assert Chain(tab[h], cs) && forall c :: c in cs ==> c in repr;
      MoveToFront(tab[h], prev, p, cs, k, t);
      Store(h, p, t, dict, repr);
    }

    /** All chains but one are in place. */
    ghost predicate Others(h: nat)
      requires tab.Length == MAXSYM && Within(chains, repr)
      reads this, tab, repr
    {
      |chains| == MAXSYM && forall g :: 0 <= g < MAXSYM && g != h ==> Chain(tab[g], chains[g])
    }

    /** tab[h] = first, for a new chain t. */
    method Store(h: nat, first: Cell?, ghost t: seq<Cell>, ghost d: map<Field, Cell>, ghost r: set<Cell>)
      requires tab.Length == MAXSYM && Within(chains, repr) && h < MAXSYM && Others(h) && Chain(first, t)
      requires Files(chains[h := t], d) && Within(chains[h := t], r)
      modifies this`chains, this`dict, this`repr, tab
      ensures Valid() && chains == old(chains)[h := t] && dict == d && repr == r
    {
      ghost var was := chains;
      tab[h] := first;
      chains, dict, repr := chains[h := t], d, r;
      forall g | 0 <= g < MAXSYM ensures Chain(tab[g], chains[g]) {
        if g != h { assert chains[g] == was[g]; }
      }
    }

    /** setsymtab: the cell of a name, made if there is none. */
    method Setsymtab(n: Field, s: Field, f: real, t: nat, indepth: nat) returns (p: Cell)
      requires Valid()
      modifies this`chains, this`dict, this`repr, tab, repr`cnext
      ensures Valid() && repr >= old(repr) && fresh(repr - old(repr))
      ensures n in old(dict) ==> p == old(dict)[n] && dict == old(dict)
      ensures n !in old(dict) ==>
                && fresh(p) && dict == old(dict)[n := p] && p.nval == n && p.sval == s && p.fval == f && p.tval == t
      ensures indepth > 0 ==> Grown(old(chains), chains)
    {
      var q := Lookup(n, indepth);
      if q != null {
        Same(chains);
        return q;
      }
      var h := ComputeHash(n);
      p := new Cell(n, s, f, t, tab[h]);
      ghost var cs := chains[h];
      ghost var after := Insert(cs, 0, p);
      Entered(h, p, after);
      Store(h, p, after, dict[n := p], repr + {p});
    }

    /** Cells have only been put in front. */
    static ghost predicate Grown(a: seq<seq<Cell>>, b: seq<seq<Cell>>) {
      |a| == |b| && forall h :: 0 <= h < |a| ==> Behind(a[h], b[h])
    }

    /** a is the end of b. */
    static ghost predicate Behind(a: seq<Cell>, b: seq<Cell>) {
      |a| <= |b| && forall i, j :: 0 <= i < |a| && j == i + (|b| - |a|) ==> b[j] == a[i]
    }

    static lemma Same(a: seq<seq<Cell>>)
      ensures Grown(a, a)
    {
    }

    lemma Entered(h: nat, p: Cell, t: seq<Cell>)
      requires Valid() && h == Hash(p.nval) && p.nval !in dict && p !in repr && Inserted(chains[h], 0, p, t) && p.cnext == tab[h]
      ensures Chain(p, t) && Others(h)
      ensures Files(chains[h := t], dict[p.nval := p]) && Within(chains[h := t], repr + {p})
      ensures Grown(chains, chains[h := t])
    {
      var cs := chains[h];
      forall i | 0 <= i < |cs| ensures cs[i].nval != p.nval { assert cs[i] in cs; }
      HeadChain(tab[h], cs, p, t);
      InFront(cs, p, t);
    }

    lemma InFront(cs: seq<Cell>, p: Cell, t: seq<Cell>)
      requires Inserted(cs, 0, p, t)
      ensures forall c :: c in t <==> c in cs || c == p
    {
      forall c ensures c in t <==> c in cs || c == p {
        assert t[0] == p;
        if c in cs {
          var i: nat :| i < |cs| && cs[i] == c;
          assert t[i + 1] == c;
        }
      }
    }

    /** The place of a name in its chain, and the map. */
    lemma Found(s: Field, h: nat, k: nat)
      requires Valid() && h == Hash(s) && k <= |chains[h]| && forall i :: 0 <= i < k ==> chains[h][i].nval != s
      requires k < |chains[h]| ==> chains[h][k].nval == s
      ensures At(chains[h], k) == if s in dict then dict[s] else null
    {
      assert s in dict ==> dict[s] in chains[Hash(s)];
      if k < |chains[h]| { assert chains[h][k] in chains[h]; }
    }

    /** A chain with the same cells in another order. */
    lemma Refiled(h: nat, t: seq<Cell>)
      requires Files(chains, dict) && Within(chains, repr) && h < MAXSYM && forall c :: c in t <==> c in chains[h]
      ensures Files(chains[h := t], dict) && Within(chains[h := t], repr)
    {
    }

    /** freeelem: the name is no longer in the table. */
    method Freeelem(s: Field)
      requires Valid()
      modifies this`chains, this`dict, this`repr, tab, repr`cnext
      ensures Valid() && dict == old(dict) - {s} && repr == old(repr)
    {
      var h := ComputeHash(s);
      var p, prev;
      ghost var k;
      p, prev, k := Seek(s, tab[h], chains[h]);
      Found(s, h, k);
      if p == null {
        assert dict - {s} == dict;
      } else {
        Remove1(s, h, prev, p, k);
      }
    }

    /** The unlinking of freeelem. */
    method Remove1(s: Field, h: nat, prev: Cell?, p: Cell, ghost k: nat)
      requires Valid() && h < MAXSYM && k < |chains[h]| && p == chains[h][k] && p.nval == s
      requires prev == if k == 0 then null else chains[h][k - 1]
      modifies this`chains, this`dict, this`repr, tab, repr`cnext
      ensures Valid() && dict == old(dict) - {s} && repr == old(repr)
    {
      ghost var t := Remove(chains[h], k);
      Deleted(h, k, t);
      var first := CutOut(h, prev, p, k, t);
      Store(h, first, t, dict - {s}, repr);
    }

    /** The chain without a cell; the others stay what they are. */
    method CutOut(h: nat, prev: Cell?, p: Cell, ghost k: nat, ghost t: seq<Cell>) returns (first: Cell?)
      requires Valid() && h < MAXSYM && k < |chains[h]| && p == chains[h][k] && Removed(chains[h], k, t)
      requires prev == if k == 0 then null else chains[h][k - 1]
      modifies repr`cnext
      ensures Others(h) && Chain(first, t)
    {
      ghost var cs := chains[h];
      Apart(h);
      assert Chain(tab[h], cs) && forall c :: c in cs ==> c in repr;
      first := tab[h];
      if prev == null {
        TailChain(first, cs, t);
        first := p.cnext;
      } else {
        Unlink(first, prev, p, cs, k, t);
      }
    }

    lemma Deleted(h: nat, k: nat, t: seq<Cell>)
      requires Valid() && h < MAXSYM && Removed(chains[h], k, t)
      ensures Files(chains[h := t], dict - {chains[h][k].nval}) && Within(chains[h := t], repr)
    {
      var cs := chains[h];
      var p := cs[k];
      assert p in cs && Chain(tab[h], cs);
      forall c ensures c in t <==> c in cs && c != p {
        if c in t {
          var i: nat :| i < |t| && t[i] == c;
          var a := if i < k then i else i + 1;
          assert cs[a] == c && cs[a].nval != cs[k].nval;
        }
        if c in cs && c != p {
          var i: nat :| i < |cs| && cs[i] == c;
          assert t[if i < k then i else i - 1] == c;
        }
      }
    }
  }

  // ---------------------------------------------------------------------
  // for (vp in array) statement
  // ---------------------------------------------------------------------

  /** What the body of the loop does to the array: lookups and assignments, and perhaps a break. */
  datatype Op = Read(s: Field) | Assign(s: Field, sval: Field, fval: real, tval: nat)
  datatype Body = Body(ops: seq<Op>, stop: bool)

  /** One execution of the body, inside of at least one for-in loop. */
  method Execute(t: Table, ops: seq<Op>, indepth: nat)
    requires t.Valid() && indepth > 0
    modifies t`chains, t`dict, t`repr, t.tab, t.repr`cnext
    ensures t.Valid() && t.repr >= old(t.repr) && fresh(t.repr - old(t.repr)) && Table.Grown(old(t.chains), t.chains)
  {
    var i := 0;
    Table.Same(t.chains);
    while i < |ops|
      invariant 0 <= i <= |ops| && t.Valid() && t.repr >= old(t.repr) && fresh(t.repr - old(t.repr))
      invariant Table.Grown(old(t.chains), t.chains)
    {
      ghost var was := t.chains;
      match ops[i] {
        case Read(s) =>
          var p := t.Lookup(s, indepth);
          Table.Same(t.chains);
        case Assign(s, sv, fv, tv) =>
          var p := t.Setsymtab(s, sv, fv, tv, indepth);
      }
      GrownTwice(old(t.chains), was, t.chains);
      i := i + 1;
    }
  }

  lemma GrownTwice(a: seq<seq<Cell>>, b: seq<seq<Cell>>, c: seq<seq<Cell>>)
    requires Table.Grown(a, b) && Table.Grown(b, c)
    ensures Table.Grown(a, c)
  {
    forall h | 0 <= h < |a| ensures Table.Behind(a[h], c[h]) { BehindTwice(a[h], b[h], c[h]); }
  }

  /** One of the first j cells has the name k. */
  ghost predicate Named(cs: seq<Cell>, j: nat, k: Field) {
    exists x :: 0 <= x < j && x < |cs| && cs[x].nval == k
  }

  /** The names of the first j cells of chain h have been visited once each; those of later chains have not been. */
  ghost predicate Halfway(visited: seq<Field>, h: nat, cs: seq<Cell>, j: nat) {
    && (forall k :: Hash(k) > h ==> multiset(visited)[k] == 0)
    && (forall k :: Hash(k) == h ==> multiset(visited)[k] == if Named(cs, j, k) then 1 else 0)
  }

  /** Names of earlier chains that were there at the beginning have been visited once each. */
  ghost predicate Visited(visited: seq<Field>, h: nat, keys: set<Field>) {
    forall k :: k in keys && Hash(k) < h ==> multiset(visited)[k] == 1
  }

  /** No name of chain h or a later one has been visited twice. */
  ghost predicate Once(visited: seq<Field>, h: nat) {
    forall k :: Hash(k) >= h ==> multiset(visited)[k] <= 1
  }

  lemma HalfwayOnce(visited: seq<Field>, h: nat, cs: seq<Cell>, j: nat)
    requires Halfway(visited, h, cs, j)
    ensures Once(visited, h)
  {
  }

  lemma VisitOne(visited: seq<Field>, h: nat, cs: seq<Cell>, j: nat, keys: set<Field>)
    requires Halfway(visited, h, cs, j) && Visited(visited, h, keys) && j < |cs| && DistinctNames(cs) && Hash(cs[j].nval) == h
    ensures Halfway(visited + [cs[j].nval], h, cs, j + 1) && Visited(visited + [cs[j].nval], h, keys)
  {
    var name := cs[j].nval;
    forall k ensures Named(cs, j + 1, k) <==> Named(cs, j, k) || k == name {
      if k == name { assert cs[j].nval == k; }
    }
    assert !Named(cs, j, name);
    assert multiset(visited + [name]) == multiset(visited) + multiset{name};
  }

  lemma NextChain(visited: seq<Field>, h: nat, cs: seq<Cell>, next: seq<Cell>, keys: set<Field>)
    requires Halfway(visited, h, cs, |cs|) && Visited(visited, h, keys)
    requires forall k :: k in keys && Hash(k) == h ==> Named(cs, |cs|, k)
    ensures Halfway(visited, h + 1, next, 0) && Visited(visited, h + 1, keys)
  {
  }

  /** The cells of a chain lead on to the same cells when others have been put in front. */
  lemma StillNext(t: Table, h: nat, cs: seq<Cell>, j: nat)
    requires t.Valid() && h < MAXSYM && Table.Behind(cs, t.chains[h]) && j < |cs|
    ensures cs[j].cnext == At(cs, j + 1) && cs[j] in t.chains[h]
  {
    var all := t.chains[h];
    var d := |all| - |cs|;
    assert Chain(t.tab[h], all);
    assert all[j + d] == cs[j];
    assert all[j + d].cnext == At(all, j + d + 1);
    if j + 1 < |cs| { assert all[(j + 1) + d] == cs[j + 1]; }
  }

  /** A name of the table is the name of a cell in its chain. */
  lemma NameInChain(dict: map<Field, Cell>, chains: seq<seq<Cell>>, cs: seq<Cell>, k: Field)
    requires Files(chains, dict) && k in dict && Table.Behind(chains[Hash(k)], cs)
    ensures Named(cs, |cs|, k)
  {
    var was := chains[Hash(k)];
    var x: nat :| x < |was| && was[x] == dict[k];
    assert cs[x + (|cs| - |was|)] == was[x];
  }

  /** instat: vp takes on the names in `visited`; body(n) is what the n-th execution of the body does.  If no body
      breaks off the loop, every name that was there at the beginning is visited exactly once. */
  method Instat(t: Table, body: nat -> Body, depth: nat) returns (visited: seq<Field>, finished: bool)
    requires t.Valid()
    modifies t`chains, t`dict, t`repr, t.tab, t.repr`cnext
    ensures t.Valid()
    ensures finished ==> forall k :: k in old(t.dict) ==> multiset(visited)[k] == 1
    ensures forall k :: k in old(t.dict) ==> multiset(visited)[k] <= 1
  {
    var indepth := depth + 1;
    ghost var chains0, dict0 := t.chains, t.dict;
    visited := [];
    Table.Same(chains0);
    var i := 0;
    while i < MAXSYM
      invariant 0 <= i <= MAXSYM && t.Valid() && t.repr >= old(t.repr) && fresh(t.repr - old(t.repr))
      invariant Table.Grown(chains0, t.chains)
      invariant Halfway(visited, i, [], 0) && Visited(visited, i, dict0.Keys)
    {
      finished, visited := Bucket(t, body, indepth, i, visited, chains0, dict0);
      if !finished {
        AtMostOnce(visited, dict0.Keys, i);
        return;
      }
      i := i + 1;
    }
    finished := true;
    forall k | k in dict0 ensures multiset(visited)[k] == 1 { assert Hash(k) < MAXSYM; }
  }

  /** What a loop that is broken off has visited. */
  lemma AtMostOnce(visited: seq<Field>, keys: set<Field>, h: nat)
    requires Visited(visited, h, keys) && Once(visited, h)
    ensures forall k :: k in keys ==> multiset(visited)[k] <= 1
  {
  }

  /** The inner loop of instat: the cells that are in chain h when it begins. */
  method Bucket(t: Table, body: nat -> Body, indepth: nat, h: nat, before: seq<Field>, ghost chains0: seq<seq<Cell>>, ghost dict0: map<Field, Cell>)
    returns (finished: bool, visited: seq<Field>)
    requires t.Valid() && indepth > 0 && h < MAXSYM && Files(chains0, dict0) && Table.Grown(chains0, t.chains)
    requires Halfway(before, h, [], 0) && Visited(before, h, dict0.Keys)
    modifies t`chains, t`dict, t`repr, t.tab, t.repr`cnext
    ensures t.Valid() && t.repr >= old(t.repr) && fresh(t.repr - old(t.repr)) && Table.Grown(chains0, t.chains)
    ensures Visited(visited, h, dict0.Keys)
    ensures finished ==> Halfway(visited, h + 1, [], 0) && Visited(visited, h + 1, dict0.Keys)
    ensures Once(visited, h)
  {
    ghost var cs := t.chains[h];
    ghost var j: nat := 0;
    var cp := t.tab[h];
    visited := before;
    assert Chain(t.tab[h], cs);
    while cp != null
      invariant t.Valid() && t.repr >= old(t.repr) && fresh(t.repr - old(t.repr)) && Table.Grown(chains0, t.chains)
      invariant Table.Behind(cs, t.chains[h]) && j <= |cs| && cp == At(cs, j)
      invariant Halfway(visited, h, cs, j) && Visited(visited, h, dict0.Keys)
      decreases |cs| - j
    {
      var stop;
      cp, visited, stop := Visit(t, body, indepth, h, cp, visited, cs, j, chains0, dict0.Keys);
      j := j + 1;
      HalfwayOnce(visited, h, cs, j);
      if stop {
        return false, visited;
      }
    }
    HalfwayOnce(visited, h, cs, j);
    AllNamed(dict0, chains0, cs, h);
    NextChain(visited, h, cs, [], dict0.Keys);
    finished := true;
  }

  lemma AllNamed(dict: map<Field, Cell>, chains: seq<seq<Cell>>, cs: seq<Cell>, h: nat)
    requires Files(chains, dict) && h < MAXSYM && Table.Behind(chains[h], cs)
    ensures forall k :: k in dict.Keys && Hash(k) == h ==> Named(cs, |cs|, k)
  {
    forall k | k in dict.Keys && Hash(k) == h ensures Named(cs, |cs|, k) { NameInChain(dict, chains, cs, k); }
  }

  /** One cell: vp takes on its name, and the body is executed. */
  method Visit(t: Table, body: nat -> Body, indepth: nat, ghost h: nat, cp: Cell, before: seq<Field>,
               ghost cs: seq<Cell>, ghost j: nat, ghost chains0: seq<seq<Cell>>, ghost keys: set<Field>)
    returns (ncp: Cell?, visited: seq<Field>, stop: bool)
    requires t.Valid() && indepth > 0 && h < MAXSYM && Table.Grown(chains0, t.chains) && Table.Behind(cs, t.chains[h])
    requires j < |cs| && cp == cs[j] && DistinctNames(cs) && Halfway(before, h, cs, j) && Visited(before, h, keys)
    modifies t`chains, t`dict, t`repr, t.tab, t.repr`cnext
    ensures t.Valid() && t.repr >= old(t.repr) && fresh(t.repr - old(t.repr))
    ensures Table.Grown(chains0, t.chains) && Table.Behind(cs, t.chains[h])
    ensures ncp == At(cs, j + 1) && Halfway(visited, h, cs, j + 1) && Visited(visited, h, keys)
  {
    StillNext(t, h, cs, j);
    VisitOne(before, h, cs, j, keys);
    visited := before + [cp.nval];
    ncp := cp.cnext;
    var b := body(|visited|);
    Turn(t, b.ops, indepth, h, cs, chains0);
    stop := b.stop;
  }

  /** The body of the loop leaves the cells of chain h where they are, behind new ones. */
  method Turn(t: Table, ops: seq<Op>, indepth: nat, ghost h: nat, ghost cs: seq<Cell>, ghost chains0: seq<seq<Cell>>)
    requires t.Valid() && indepth > 0 && h < MAXSYM && Table.Grown(chains0, t.chains) && Table.Behind(cs, t.chains[h])
    modifies t`chains, t`dict, t`repr, t.tab, t.repr`cnext
    ensures t.Valid() && t.repr >= old(t.repr) && fresh(t.repr - old(t.repr))
    ensures Table.Grown(chains0, t.chains) && Table.Behind(cs, t.chains[h])
  {
    ghost var was := t.chains;
    Execute(t, ops, indepth);
    GrownTwice(chains0, was, t.chains);
    BehindTwice(cs, was[h], t.chains[h]);
  }

  lemma BehindTwice(a: seq<Cell>, b: seq<Cell>, c: seq<Cell>)
    requires Table.Behind(a, b) && Table.Behind(b, c)
    ensures Table.Behind(a, c)
  {
    forall i, j | 0 <= i < |a| && j == i + (|c| - |a|) ensures c[j] == a[i] {
      var m := i + (|b| - |a|);
      assert b[m] == a[i] && c[j] == b[m];
    }
  }
}
