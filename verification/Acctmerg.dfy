/**
  acctmerg: merging up to ten sorted streams of accounting records, adding up those with the same key.
*/
module Acctmerg {
  import opened CStrings

  // ---------------------------------------------------------------------
  // Records
  // ---------------------------------------------------------------------

  /** What is added up: times and disk usage as reals, a long count, three counts of 16 bits. */
  datatype Amount = Amount(cpu0: real, cpu1: real, kcore0: real, kcore1: real, con0: real, con1: real, du: real,
                           pc: nat, sc: nat, dc: nat, fee: nat)

  datatype Rec = Rec(uid: nat, name: Field, amount: Amount)

  const W16: nat := 0x1_0000
  const W32: nat := 0x1_0000_0000

  /** The counts are those of machine words. */
  predicate Fits(a: Amount) {
    a.pc < W32 && a.sc < W16 && a.dc < W16 && a.fee < W16
  }

  /** tacctadd */
  function Add(a: Amount, b: Amount): (r: Amount)
    ensures Fits(r)
  {
    Amount(a.cpu0 + b.cpu0, a.cpu1 + b.cpu1, a.kcore0 + b.kcore0, a.kcore1 + b.kcore1, a.con0 + b.con0, a.con1 + b.con1, a.du + b.du,
           (a.pc + b.pc) % W32, (a.sc + b.sc) % W16, (a.dc + b.dc) % W16, (a.fee + b.fee) % W16)
  }

  lemma Assoc16(a: nat, b: nat, c: nat)
    ensures ((a + b) % W16 + c) % W16 == (a + (b + c) % W16) % W16
  {
  }

  lemma Assoc32(a: nat, b: nat, c: nat)
    ensures ((a + b) % W32 + c) % W32 == (a + (b + c) % W32) % W32
  {
  }

  lemma AddAssoc(a: Amount, b: Amount, c: Amount)
    ensures Add(Add(a, b), c) == Add(a, Add(b, c))
  {
    Assoc32(a.pc, b.pc, c.pc);
    Assoc16(a.sc, b.sc, c.sc);
    Assoc16(a.dc, b.dc, c.dc);
    Assoc16(a.fee, b.fee, c.fee);
  }

  lemma AddCommutes(a: Amount, b: Amount)
    ensures Add(a, b) == Add(b, a)
  {
  }

  function Plus(r: Rec, s: Rec): Rec {
    r.(amount := Add(r.amount, s.amount))
  }

  /** The fields that records are merged on: under -u only the uid. */
  datatype Key = Key(uid: nat, name: Field)

  function KeyOf(r: Rec, uidsum: bool): Key {
    Key(r.uid, if uidsum then Nul else r.name)
  }

  predicate Before(k: Key, k': Key) {
    k.uid < k'.uid || (k.uid == k'.uid && Less(k.name, k'.name))
  }

  /** Records are of one group when they have one user, by number and, but for -u, by name; groups come in the order of
      numbers, and then of names. */
  lemma KeysMean(r: Rec, s: Rec, u: bool)
    ensures KeyOf(r, u) == KeyOf(s, u) <==> r.uid == s.uid && (u || r.name == s.name)
    ensures Before(KeyOf(r, u), KeyOf(s, u)) <==> r.uid < s.uid || (r.uid == s.uid && !u && Less(r.name, s.name))
  {
  }

  lemma BeforeTrans(a: Key, b: Key, c: Key)
    requires Before(a, b) && Before(b, c)
    ensures Before(a, c)
  {
    if a.uid == b.uid == c.uid { LessTrans(a.name, b.name, c.name); }
  }

  lemma BeforeOne(a: Key, b: Key)
    ensures !(Before(a, b) && Before(b, a)) && (Before(a, b) ==> a != b)
    ensures !Before(a, b) && !Before(b, a) ==> a == b
  {
    CmpEqual(a.name, b.name);
    CmpOpposite(a.name, b.name);
    CmpOpposite(b.name, a.name);
  }

  // ---------------------------------------------------------------------
  // Streams
  // ---------------------------------------------------------------------

  /** A record without a name hides what comes behind it. */
  function Live(s: seq<Rec>): seq<Rec> {
    if s == [] || s[0].name == Nul then [] else [s[0]] + Live(s[1..])
  }

  ghost predicate Named(s: seq<Rec>) {
    forall i :: 0 <= i < |s| ==> s[i].name != Nul
  }

  /** What is left of a stream is all that is in front of its first empty name, and so the whole stream if and only if it
      has none. */
  lemma {:induction false} LiveExactly(s: seq<Rec>)
    ensures Live(s) <= s && Named(Live(s)) && (|Live(s)| < |s| ==> s[|Live(s)|].name == Nul)
    ensures Live(s) == s <==> Named(s)
  {
    if s != [] && s[0].name != Nul {
      LiveExactly(s[1..]);
      assert s == [s[0]] + s[1..];
      assert Named(s) ==> Named(s[1..]) by {
        if Named(s) { forall i | 0 <= i < |s[1..]| ensures s[1..][i].name != Nul { assert s[1..][i] == s[i + 1]; } }
      }
    }
  }

  /** No key of s comes before k. */
  ghost predicate NoneBefore(s: seq<Rec>, u: bool, k: Key) {
    forall i :: 0 <= i < |s| ==> !Before(KeyOf(s[i], u), k)
  }

  ghost predicate Sorted(s: seq<Rec>, u: bool) {
    s == [] || (NoneBefore(s[1..], u, KeyOf(s[0], u)) && Sorted(s[1..], u))
  }

  /** The records of one stream with key k. */
  function Filter(s: seq<Rec>, u: bool, k: Key): seq<Rec> {
    if s == [] then []
    else if KeyOf(s[0], u) == k then [s[0]] + Filter(s[1..], u, k)
    else Filter(s[1..], u, k)
  }

  /** The records with key k, of stream j, then of the next one and so on. */
  function Having(l: seq<seq<Rec>>, u: bool, k: Key, j: nat): seq<Rec>
    requires j <= |l|
    decreases |l| - j
  {
    if j == |l| then [] else Filter(l[j], u, k) + Having(l, u, k, j + 1)
  }

  function SumFrom(r: Rec, s: seq<Rec>): Rec
    decreases |s|
  {
    if s == [] then r else SumFrom(Plus(r, s[0]), s[1..])
  }

  /** The first record, with the others added to it one after the other. */
  function Sum(s: seq<Rec>): Rec
    requires s != []
  {
    SumFrom(s[0], s[1..])
  }

  /** Everything in a stream, added up. */
  function Total(s: seq<Rec>): Amount {
    if s == [] then Zero else Add(s[0].amount, Total(s[1..]))
  }

  const Zero: Amount := Amount(0.0, 0.0, 0.0, 0.0, 0.0, 0.0, 0.0, 0, 0, 0, 0)

  function TotalOf(l: seq<seq<Rec>>, j: nat): (r: Amount)
    requires j <= |l|
    ensures Fits(r)
    decreases |l| - j
  {
    if j == |l| then Zero else Add(Total(l[j]), TotalOf(l, j + 1))
  }

  // ---------------------------------------------------------------------
  // Taking the first record of a stream
  // ---------------------------------------------------------------------

  function Pop(l: seq<seq<Rec>>, i: nat): seq<seq<Rec>>
    requires i < |l| && l[i] != []
  {
    l[i := l[i][1..]]
  }

  function Size(l: seq<seq<Rec>>): nat {
    if l == [] then 0 else Size(l[..|l| - 1]) + |l[|l| - 1]|
  }

  lemma {:induction false} SizePop(l: seq<seq<Rec>>, i: nat)
    requires i < |l| && l[i] != []
    ensures Size(Pop(l, i)) < Size(l)
    decreases |l|
  {
    var n := |l| - 1;
    if i < n {
      SizePop(l[..n], i);
      assert Pop(l, i)[..n] == Pop(l[..n], i);
    } else {
      assert Pop(l, i)[..n] == l[..n];
    }
  }

  lemma {:induction false} HavingBehind(l: seq<seq<Rec>>, u: bool, k: Key, i: nat, j: nat)
    requires i < |l| && l[i] != [] && i < j <= |l|
    ensures Having(Pop(l, i), u, k, j) == Having(l, u, k, j)
    decreases |l| - j
  {
    if j < |l| { HavingBehind(l, u, k, i, j + 1); }
  }

  /** Records with other keys are not concerned. */
  lemma {:induction false} HavingOther(l: seq<seq<Rec>>, u: bool, k: Key, i: nat, j: nat)
    requires i < |l| && l[i] != [] && j <= |l| && KeyOf(l[i][0], u) != k
    ensures Having(Pop(l, i), u, k, j) == Having(l, u, k, j)
    decreases |l| - j
  {
    if j < |l| { HavingOther(l, u, k, i, j + 1); }
  }

  /** The first record with the key is the one that is taken. */
  lemma HavingHere(l: seq<seq<Rec>>, u: bool, k: Key, i: nat)
    requires i < |l| && l[i] != [] && KeyOf(l[i][0], u) == k
    ensures Having(l, u, k, i) == [l[i][0]] + Having(Pop(l, i), u, k, i)
  {
    HavingBehind(l, u, k, i, i + 1);
    var a, b, c := [l[i][0]], Filter(l[i][1..], u, k), Having(l, u, k, i + 1);
    assert (a + b) + c == a + (b + c);
  }

  lemma {:induction false} NothingLeft(s: seq<Rec>, u: bool, k: Key)
    requires NoneBefore(s, u, k) && (s == [] || KeyOf(s[0], u) != k) && Sorted(s, u)
    ensures Filter(s, u, k) == []
  {
    if s != [] {
      BeforeOne(KeyOf(s[0], u), k);
      forall i | 0 <= i < |s[1..]| ensures !Before(KeyOf(s[1..][i], u), k) { assert s[1..][i] == s[i + 1]; }
      if s[1..] != [] {
        assert s[1..][0] == s[1];
        assert !Before(KeyOf(s[1..][0], u), KeyOf(s[0], u));
      }
      NothingLeft(s[1..], u, k);
    }
  }

  lemma AddSwap(a: Amount, b: Amount, c: Amount)
    ensures Add(a, Add(b, c)) == Add(b, Add(a, c))
  {
    AddAssoc(a, b, c);
    AddAssoc(b, a, c);
    AddCommutes(a, b);
  }

  lemma {:induction false} TotalPop(l: seq<seq<Rec>>, i: nat, j: nat)
    requires i < |l| && l[i] != [] && j <= |l|
    ensures if j <= i then TotalOf(l, j) == Add(l[i][0].amount, TotalOf(Pop(l, i), j)) else TotalOf(l, j) == TotalOf(Pop(l, i), j)
    decreases |l| - j
  {
    if j < |l| {
      TotalPop(l, i, j + 1);
      if j == i {
        AddAssoc(l[i][0].amount, Total(l[i][1..]), TotalOf(l, j + 1));
      } else if j < i {
        AddSwap(Total(l[j]), l[i][0].amount, TotalOf(Pop(l, i), j + 1));
      }
    }
  }

  // ---------------------------------------------------------------------
  // The fields of a sum
  // ---------------------------------------------------------------------

  /** The plain sum of a count. */
  function Plain(s: seq<Rec>, f: Amount -> nat): nat {
    if s == [] then 0 else f(s[0].amount) + Plain(s[1..], f)
  }

  /** The sum of a time or of a usage. */
  function PlainReal(s: seq<Rec>, f: Amount -> real): real {
    if s == [] then 0.0 else f(s[0].amount) + PlainReal(s[1..], f)
  }

  lemma ModSum(a: nat, b: nat)
    ensures (a + b % 0x1_0000) % 0x1_0000 == (a + b) % 0x1_0000
  {
  }

  lemma ModSumLong(a: nat, b: nat)
    ensures (a + b % 0x1_0000_0000) % 0x1_0000_0000 == (a + b) % 0x1_0000_0000
  {
  }

  /** The total of each count is the plain sum, as far as its word goes. */
  lemma {:induction false} TotalCounts(s: seq<Rec>)
    ensures Total(s).pc == Plain(s, (a: Amount) => a.pc) % 0x1_0000_0000
    ensures Total(s).sc == Plain(s, (a: Amount) => a.sc) % 0x1_0000 && Total(s).dc == Plain(s, (a: Amount) => a.dc) % 0x1_0000
    ensures Total(s).fee == Plain(s, (a: Amount) => a.fee) % 0x1_0000
  {
    if s != [] {
      TotalCounts(s[1..]);
      ModSumLong(s[0].amount.pc, Plain(s[1..], (a: Amount) => a.pc));
      ModSum(s[0].amount.sc, Plain(s[1..], (a: Amount) => a.sc));
      ModSum(s[0].amount.dc, Plain(s[1..], (a: Amount) => a.dc));
      ModSum(s[0].amount.fee, Plain(s[1..], (a: Amount) => a.fee));
    }
  }

  /** The total of each time and usage, prime and other. */
  lemma {:induction false} TotalTimes(s: seq<Rec>)
    ensures Total(s).cpu0 == PlainReal(s, (a: Amount) => a.cpu0) && Total(s).cpu1 == PlainReal(s, (a: Amount) => a.cpu1)
    ensures Total(s).kcore0 == PlainReal(s, (a: Amount) => a.kcore0) && Total(s).kcore1 == PlainReal(s, (a: Amount) => a.kcore1)
    ensures Total(s).con0 == PlainReal(s, (a: Amount) => a.con0) && Total(s).con1 == PlainReal(s, (a: Amount) => a.con1)
    ensures Total(s).du == PlainReal(s, (a: Amount) => a.du)
  {
    if s != [] { TotalTimes(s[1..]); }
  }

  /** The sum of a group has the user of its first record, and the total of all of them. */
  lemma {:induction false} SumMeans(r: Rec, s: seq<Rec>)
    requires Fits(r.amount)
    ensures SumFrom(r, s) == Rec(r.uid, r.name, Add(r.amount, Total(s)))
    ensures Sum([r] + s) == Rec(r.uid, r.name, Total([r] + s))
    decreases |s|
  {
    assert ([r] + s)[1..] == s;
    if s != [] {
      SumMeans(Plus(r, s[0]), s[1..]);
      AddAssoc(r.amount, s[0].amount, Total(s[1..]));
    }
  }

  // ---------------------------------------------------------------------
  // What the merge of sorted streams is
  // ---------------------------------------------------------------------

  ghost predicate AllSorted(l: seq<seq<Rec>>, u: bool) {
    forall i :: 0 <= i < |l| ==> Sorted(l[i], u)
  }

  ghost predicate NoneBeforeAll(l: seq<seq<Rec>>, u: bool, k: Key) {
    forall i :: 0 <= i < |l| ==> NoneBefore(l[i], u, k)
  }

  ghost predicate Emitted(out: seq<Rec>, u: bool, k: Key) {
    exists r :: 0 <= r < |out| && KeyOf(out[r], u) == k
  }

  /** The records put out so far: in order, and each the sum of all records with its key. */
  ghost predicate Sums(l0: seq<seq<Rec>>, u: bool, out: seq<Rec>) {
    && (forall r, q :: 0 <= r < q < |out| ==> Before(KeyOf(out[r], u), KeyOf(out[q], u)))
    && (forall r :: 0 <= r < |out| ==>
          Having(l0, u, KeyOf(out[r], u), 0) != [] && out[r] == Sum(Having(l0, u, KeyOf(out[r], u), 0)))
  }

  /** The records with a key that has been put out are gone, the others are there. */
  ghost predicate Rest(l0: seq<seq<Rec>>, l: seq<seq<Rec>>, u: bool, out: seq<Rec>) {
    forall k :: Having(l, u, k, 0) == if Emitted(out, u, k) then [] else Having(l0, u, k, 0)
  }

  /** What has been put out is taken from the streams, and the rest is still there and comes behind it. */
  ghost predicate Progress(l0: seq<seq<Rec>>, l: seq<seq<Rec>>, u: bool, out: seq<Rec>) {
    && Sums(l0, u, out) && AllSorted(l, u)
    && Rest(l0, l, u, out)
    && (out != [] ==> NoneBeforeAll(l, u, KeyOf(out[|out| - 1], u)))
  }

  /** One record for each key that there is, in the order of the keys: the sum of the records with that key. */
  ghost predicate IsMerge(l0: seq<seq<Rec>>, u: bool, out: seq<Rec>) {
    Sums(l0, u, out) && forall k :: Emitted(out, u, k) <==> Having(l0, u, k, 0) != []
  }

  lemma {:induction false} SumKey(r: Rec, s: seq<Rec>, u: bool)
    ensures KeyOf(SumFrom(r, s), u) == KeyOf(r, u)
    decreases |s|
  {
    if s != [] { SumKey(Plus(r, s[0]), s[1..], u); }
  }

  lemma {:induction false} HavingKeys(l: seq<seq<Rec>>, u: bool, k: Key, j: nat)
    requires j <= |l|
    ensures forall r :: r in Having(l, u, k, j) ==> KeyOf(r, u) == k
    decreases |l| - j
  {
    if j < |l| {
      FilterKeys(l[j], u, k);
      HavingKeys(l, u, k, j + 1);
    }
  }

  lemma {:induction false} FilterKeys(s: seq<Rec>, u: bool, k: Key)
    ensures forall r :: r in Filter(s, u, k) ==> KeyOf(r, u) == k
  {
    if s != [] { FilterKeys(s[1..], u, k); }
  }

  lemma {:induction false} NoneHaving(l: seq<seq<Rec>>, u: bool, k: Key, i: nat, j: nat)
    requires i <= j <= |l| && forall x :: i <= x < j ==> Filter(l[x], u, k) == []
    ensures Having(l, u, k, i) == Having(l, u, k, j)
    decreases j - i
  {
    if i < j { NoneHaving(l, u, k, i + 1, j); }
  }

  /** A head is in front of its stream. */
  lemma HeadHaving(l: seq<seq<Rec>>, u: bool, i: nat)
    requires i < |l| && l[i] != []
    ensures Having(l, u, KeyOf(l[i][0], u), 0) != []
  {
    HeadHavingFrom(l, u, i, 0);
  }

  lemma {:induction false} HeadHavingFrom(l: seq<seq<Rec>>, u: bool, i: nat, j: nat)
    requires j <= i < |l| && l[i] != []
    ensures Having(l, u, KeyOf(l[i][0], u), j) != []
    decreases i - j
  {
    if j < i { HeadHavingFrom(l, u, i, j + 1); }
  }

  lemma PopSorted(l: seq<seq<Rec>>, u: bool, i: nat, k: Key)
    requires i < |l| && l[i] != [] && AllSorted(l, u) && NoneBeforeAll(l, u, k)
    ensures AllSorted(Pop(l, i), u) && NoneBeforeAll(Pop(l, i), u, k)
  {
    var t := Pop(l, i);
    forall x | 0 <= x < |t| ensures NoneBefore(t[x], u, k) {
      assert NoneBefore(l[x], u, k);
      if x == i { assert forall y :: 0 <= y < |t[i]| ==> t[i][y] == l[i][y + 1]; }
    }
  }

  /** The least head has nothing in front of it anywhere. */
  lemma LeastOfAll(l: seq<seq<Rec>>, u: bool, k: Key)
    requires AllSorted(l, u) && forall j :: 0 <= j < |l| && l[j] != [] ==> !Before(KeyOf(l[j][0], u), k)
    ensures NoneBeforeAll(l, u, k)
  {
    forall j, x | 0 <= j < |l| && 0 <= x < |l[j]| ensures !Before(KeyOf(l[j][x], u), k) {
      if x > 0 {
        assert l[j][1..][x - 1] == l[j][x];
        assert !Before(KeyOf(l[j][x], u), KeyOf(l[j][0], u));
        var a, b := KeyOf(l[j][x], u), KeyOf(l[j][0], u);
        if Before(a, k) {
          BeforeOne(b, k);
          if Before(k, b) { BeforeTrans(a, k, b); }
        }
      }
    }
  }

  /** The key of a head that comes next is a new one. */
  lemma NewKey(l0: seq<seq<Rec>>, l: seq<seq<Rec>>, u: bool, out: seq<Rec>, i: nat)
    requires Progress(l0, l, u, out) && i < |l| && l[i] != []
    ensures var k := KeyOf(l[i][0], u);
            !Emitted(out, u, k) && Having(l, u, k, 0) == Having(l0, u, k, 0) != [] && forall q :: 0 <= q < |out| ==> Before(KeyOf(out[q], u), k)
  {
    var k := KeyOf(l[i][0], u);
    HeadHaving(l, u, i);
    assert !Emitted(out, u, k);
    if out != [] {
      var last := KeyOf(out[|out| - 1], u);
      assert NoneBefore(l[i], u, last);
      assert Emitted(out, u, last);
      BeforeOne(last, k);
      forall q | 0 <= q < |out| ensures Before(KeyOf(out[q], u), k) {
        if q < |out| - 1 { BeforeTrans(KeyOf(out[q], u), last, k); }
      }
    }
  }

  lemma SumsMore(l0: seq<seq<Rec>>, u: bool, out: seq<Rec>, k: Key, r: Rec)
    requires Sums(l0, u, out) && (forall q :: 0 <= q < |out| ==> Before(KeyOf(out[q], u), k))
    requires Having(l0, u, k, 0) != [] && r == Sum(Having(l0, u, k, 0))
    ensures KeyOf(r, u) == k && Sums(l0, u, out + [r])
  {
    var h := Having(l0, u, k, 0);
    HavingKeys(l0, u, k, 0);
    assert h[0] in h;
    SumKey(h[0], h[1..], u);
  }

  /** r is the sum of the records with key k, they and no others are gone from the streams, and what is left comes behind. */
  ghost predicate Group(l: seq<seq<Rec>>, l': seq<seq<Rec>>, u: bool, k: Key, r: Rec) {
    && Having(l, u, k, 0) != [] && r == Sum(Having(l, u, k, 0))
    && Having(l', u, k, 0) == [] && AllSorted(l', u) && NoneBeforeAll(l', u, k)
    && forall k' :: k' != k ==> Having(l', u, k', 0) == Having(l, u, k', 0)
  }

  /** One group has been summed up and taken from the streams. */
  lemma GroupDone(l0: seq<seq<Rec>>, l: seq<seq<Rec>>, l': seq<seq<Rec>>, u: bool, out: seq<Rec>, i: nat, r: Rec)
    requires Progress(l0, l, u, out) && i < |l| == |l'| && l[i] != [] && Group(l, l', u, KeyOf(l[i][0], u), r)
    ensures Progress(l0, l', u, out + [r])
  {
    var k := KeyOf(l[i][0], u);
    NewKey(l0, l, u, out, i);
    SumsMore(l0, u, out, k, r);
    RestMore(l0, l, l', u, out, k, r);
    assert (out + [r])[|out|] == r;
  }

  lemma RestMore(l0: seq<seq<Rec>>, l: seq<seq<Rec>>, l': seq<seq<Rec>>, u: bool, out: seq<Rec>, k: Key, r: Rec)
    requires Rest(l0, l, u, out) && Group(l, l', u, k, r) && KeyOf(r, u) == k
    ensures Rest(l0, l', u, out + [r])
  {
    forall k' ensures Having(l', u, k', 0) == if Emitted(out + [r], u, k') then [] else Having(l0, u, k', 0) {
      EmittedMore(out, r, u, k');
    }
  }

  lemma EmittedMore(out: seq<Rec>, r: Rec, u: bool, k: Key)
    ensures Emitted(out + [r], u, k) <==> Emitted(out, u, k) || KeyOf(r, u) == k
  {
    if Emitted(out, u, k) {
      var q :| 0 <= q < |out| && KeyOf(out[q], u) == k;
      assert (out + [r])[q] == out[q];
    }
    assert (out + [r])[|out|] == r;
  }

  lemma {:induction false} EmptyHaving(l: seq<seq<Rec>>, u: bool, k: Key, j: nat)
    requires j <= |l| && forall x :: 0 <= x < |l| ==> l[x] == []
    ensures Having(l, u, k, j) == []
    decreases |l| - j
  {
    if j < |l| { EmptyHaving(l, u, k, j + 1); }
  }

  lemma {:induction false} EmptyTotal(l: seq<seq<Rec>>, j: nat)
    requires j <= |l| && forall x :: 0 <= x < |l| ==> l[x] == []
    ensures TotalOf(l, j) == Zero
    decreases |l| - j
  {
    if j < |l| { EmptyTotal(l, j + 1); }
  }

  lemma Finished(l0: seq<seq<Rec>>, l: seq<seq<Rec>>, u: bool, out: seq<Rec>)
    requires Progress(l0, l, u, out) && forall x :: 0 <= x < |l| ==> l[x] == []
    ensures IsMerge(l0, u, out)
  {
    forall k ensures Emitted(out, u, k) <==> Having(l0, u, k, 0) != [] { EmptyHaving(l, u, k, 0); }
  }

  // ---------------------------------------------------------------------
  // Taking a group
  // ---------------------------------------------------------------------

  /** In sumcurr: streams in front of j have no more records with key k, and the others will bring tc to goal. */
  ghost predicate Taking(l0: seq<seq<Rec>>, l: seq<seq<Rec>>, u: bool, k: Key, j: nat, tc: Rec, goal: Rec) {
    && |l| == |l0| && j <= |l| && AllSorted(l, u) && NoneBeforeAll(l, u, k)
    && (forall x :: 0 <= x < j ==> Filter(l[x], u, k) == [])
    && SumFrom(tc, Having(l, u, k, j)) == goal
    && (forall k' :: k' != k ==> Having(l, u, k', 0) == Having(l0, u, k', 0))
  }

  /** What getleast has found among the first n heads: nothing, or the first of the least ones. */
  ghost predicate LeastSoFar(l: seq<seq<Rec>>, u: bool, n: nat, i: nat) {
    && n <= |l| && (i < n || i == |l|)
    && (i == |l| ==> forall j :: 0 <= j < n ==> l[j] == [])
    && (i < n ==> l[i] != []
                  && (forall j :: 0 <= j < n && l[j] != [] ==> !Before(KeyOf(l[j][0], u), KeyOf(l[i][0], u)))
                  && (forall j :: 0 <= j < i && l[j] != [] ==> KeyOf(l[j][0], u) != KeyOf(l[i][0], u)))
  }

  /** A smaller head takes over. */
  lemma NewLeast(l: seq<seq<Rec>>, u: bool, n: nat, i: nat)
    requires LeastSoFar(l, u, n, i) && n < |l| && l[n] != []
    requires i < |l| ==> Before(KeyOf(l[n][0], u), KeyOf(l[i][0], u))
    ensures LeastSoFar(l, u, n + 1, n)
  {
    var a := KeyOf(l[n][0], u);
    BeforeOne(a, a);
    if i < |l| {
      var b := KeyOf(l[i][0], u);
      BeforeOne(a, b);
      forall j | 0 <= j < n && l[j] != [] ensures !Before(KeyOf(l[j][0], u), a) && KeyOf(l[j][0], u) != a {
        var c := KeyOf(l[j][0], u);
        BeforeOne(c, a);
        if Before(c, a) { BeforeTrans(c, a, b); }
      }
    }
  }

  lemma OldLeast(l: seq<seq<Rec>>, u: bool, n: nat, i: nat)
    requires LeastSoFar(l, u, n, i) && n < |l|
    requires l[n] != [] ==> i < |l| && !Before(KeyOf(l[n][0], u), KeyOf(l[i][0], u))
    ensures LeastSoFar(l, u, n + 1, i)
  {
  }

  /** What getleast finds. */
  ghost predicate IsLeast(l: seq<seq<Rec>>, u: bool, i: nat) {
    && i < |l| && l[i] != []
    && (forall j :: 0 <= j < |l| && l[j] != [] ==> !Before(KeyOf(l[j][0], u), KeyOf(l[i][0], u)))
    && (forall j :: 0 <= j < i && l[j] != [] ==> KeyOf(l[j][0], u) != KeyOf(l[i][0], u))
  }

  lemma TakeFirst(l: seq<seq<Rec>>, u: bool, i: nat)
    requires AllSorted(l, u) && IsLeast(l, u, i)
    ensures var k := KeyOf(l[i][0], u);
            Having(l, u, k, 0) != [] && Taking(l, Pop(l, i), u, k, i, l[i][0], Sum(Having(l, u, k, 0)))
  {
    var k := KeyOf(l[i][0], u);
    LeastOfAll(l, u, k);
    PopSorted(l, u, i, k);
    forall x | 0 <= x < i ensures Filter(l[x], u, k) == [] {
      assert NoneBefore(l[x], u, k);
      NothingLeft(l[x], u, k);
    }
    NoneHaving(l, u, k, 0, i);
    HavingHere(l, u, k, i);
    var h := Having(l, u, k, 0);
    assert h[0] == l[i][0] && h[1..] == Having(Pop(l, i), u, k, i);
    forall k' | k' != k ensures Having(Pop(l, i), u, k', 0) == Having(l, u, k', 0) { HavingOther(l, u, k', i, 0); }
  }

  lemma TakeMore(l0: seq<seq<Rec>>, l: seq<seq<Rec>>, u: bool, k: Key, j: nat, tc: Rec, goal: Rec)
    requires Taking(l0, l, u, k, j, tc, goal) && j < |l| && l[j] != [] && KeyOf(l[j][0], u) == k
    ensures Taking(l0, Pop(l, j), u, k, j, Plus(tc, l[j][0]), goal)
  {
    PopSorted(l, u, j, k);
    HavingHere(l, u, k, j);
    var h := Having(l, u, k, j);
    assert h[0] == l[j][0] && h[1..] == Having(Pop(l, j), u, k, j);
    forall k' | k' != k ensures Having(Pop(l, j), u, k', 0) == Having(l0, u, k', 0) { HavingOther(l, u, k', j, 0); }
  }

  lemma TakeNext(l0: seq<seq<Rec>>, l: seq<seq<Rec>>, u: bool, k: Key, j: nat, tc: Rec, goal: Rec)
    requires Taking(l0, l, u, k, j, tc, goal) && j < |l| && (l[j] == [] || KeyOf(l[j][0], u) != k)
    ensures Taking(l0, l, u, k, j + 1, tc, goal)
  {
    assert NoneBefore(l[j], u, k);
    NothingLeft(l[j], u, k);
    NoneHaving(l, u, k, j, j + 1);
  }

  /** A sum and what is left of the streams. */
  datatype Taken = Taken(sum: Rec, left: seq<seq<Rec>>)

  /** Streams j and behind are stripped, one after the other, of their leading records with key k. */
  function Strip(l: seq<seq<Rec>>, u: bool, k: Key, j: nat, tc: Rec): Taken
    requires j <= |l|
    decreases Size(l), |l| - j
  {
    if j == |l| then Taken(tc, l)
    else if l[j] != [] && KeyOf(l[j][0], u) == k then
      SizePop(l, j);
      Strip(Pop(l, j), u, k, j, Plus(tc, l[j][0]))
    else Strip(l, u, k, j + 1, tc)
  }

  lemma {:induction false} StripTakes(l0: seq<seq<Rec>>, l: seq<seq<Rec>>, u: bool, k: Key, j: nat, tc: Rec, goal: Rec)
    requires Taking(l0, l, u, k, j, tc, goal)
    ensures var t := Strip(l, u, k, j, tc); Taking(l0, t.left, u, k, |l|, t.sum, goal)
    decreases Size(l), |l| - j
  {
    if j < |l| {
      if l[j] != [] && KeyOf(l[j][0], u) == k {
        TakeMore(l0, l, u, k, j, tc, goal);
        SizePop(l, j);
        StripTakes(l0, Pop(l, j), u, k, j, Plus(tc, l[j][0]), goal);
      } else {
        TakeNext(l0, l, u, k, j, tc, goal);
        StripTakes(l0, l, u, k, j + 1, tc, goal);
      }
    }
  }

  /** What sumcurr is to do with the least record. */
  function SumUp(l: seq<seq<Rec>>, u: bool, i: nat): Taken
    requires i < |l| && l[i] != []
  {
    Strip(Pop(l, i), u, KeyOf(l[i][0], u), i, l[i][0])
  }

  /** Nothing is lost and nothing is counted twice. */
  lemma {:induction false} StripTotal(l: seq<seq<Rec>>, u: bool, k: Key, j: nat, tc: Rec)
    requires j <= |l|
    ensures var t := Strip(l, u, k, j, tc);
            Size(t.left) <= Size(l) && |t.left| == |l| && Add(t.sum.amount, TotalOf(t.left, 0)) == Add(tc.amount, TotalOf(l, 0))
    decreases Size(l), |l| - j
  {
    if j < |l| {
      if l[j] != [] && KeyOf(l[j][0], u) == k {
        SizePop(l, j);
        TotalPop(l, j, 0);
        AddAssoc(tc.amount, l[j][0].amount, TotalOf(Pop(l, j), 0));
        StripTotal(Pop(l, j), u, k, j, Plus(tc, l[j][0]));
      } else {
        StripTotal(l, u, k, j + 1, tc);
      }
    }
  }

  lemma SumUpTotal(l: seq<seq<Rec>>, u: bool, i: nat)
    requires i < |l| && l[i] != []
    ensures var t := SumUp(l, u, i); Size(t.left) < Size(l) && |t.left| == |l| && Add(t.sum.amount, TotalOf(t.left, 0)) == TotalOf(l, 0)
  {
    SizePop(l, i);
    TotalPop(l, i, 0);
    StripTotal(Pop(l, i), u, KeyOf(l[i][0], u), i, l[i][0]);
  }

  lemma SumsGroup(l: seq<seq<Rec>>, u: bool, i: nat)
    requires AllSorted(l, u) && IsLeast(l, u, i)
    ensures Group(l, SumUp(l, u, i).left, u, KeyOf(l[i][0], u), SumUp(l, u, i).sum)
  {
    var k := KeyOf(l[i][0], u);
    HeadHaving(l, u, i);
    TakeFirst(l, u, i);
    StripTakes(l, Pop(l, i), u, k, i, l[i][0], Sum(Having(l, u, k, 0)));
    TakeEnd(l, SumUp(l, u, i).left, u, k, SumUp(l, u, i).sum);
  }

  lemma TakeEnd(l0: seq<seq<Rec>>, l: seq<seq<Rec>>, u: bool, k: Key, tc: Rec)
    requires Having(l0, u, k, 0) != [] && Taking(l0, l, u, k, |l|, tc, Sum(Having(l0, u, k, 0)))
    ensures Group(l0, l, u, k, tc)
  {
    NoneHaving(l, u, k, 0, |l|);
  }

  // ---------------------------------------------------------------------
  // The merge
  // ---------------------------------------------------------------------

  /** The streams that are merged. */
  function Streams(files: seq<seq<Rec>>): (l: seq<seq<Rec>>)
    ensures |l| == |files| && forall i :: 0 <= i < |l| ==> l[i] == Live(files[i])
  {
    seq(|files|, i requires 0 <= i < |files| => Live(files[i]))
  }

  /** The merge is one of all records of all files if and only if none has an empty name. */
  lemma StreamsExactly(files: seq<seq<Rec>>)
    ensures Streams(files) == files <==> forall i :: 0 <= i < |files| ==> Named(files[i])
  {
    forall i | 0 <= i < |files| ensures Streams(files)[i] == files[i] <==> Named(files[i]) {
      LiveExactly(files[i]);
    }
  }

  const TOTAL: Rec := Rec(0, Char(84, Char(79, Char(84, Char(65, Char(76, Nul))))), Zero)

  lemma AddZero(a: Amount)
    requires Fits(a)
    ensures Add(a, Zero) == a == Add(Zero, a)
  {
  }

  lemma ZeroTotal(l: seq<seq<Rec>>)
    ensures Add(Zero, TotalOf(l, 0)) == TotalOf(l, 0)
  {
    AddZero(TotalOf(l, 0));
  }

  ghost predicate AllEmpty(l: seq<seq<Rec>>) {
    forall i :: 0 <= i < |l| ==> l[i] == []
  }

  /** The main loop: what was added to tt and what is left make up the input, and the output so far is right. */
  ghost predicate Merging(l0: seq<seq<Rec>>, l: seq<seq<Rec>>, u: bool, totalonly: bool, tt: Rec, out: seq<Rec>) {
    && tt == TOTAL.(amount := tt.amount) && Fits(tt.amount) && Add(tt.amount, TotalOf(l, 0)) == TotalOf(l0, 0)
    && (totalonly ==> out == [])
    && (!totalonly && AllSorted(l0, u) ==> Progress(l0, l, u, out))
  }

  lemma Started(l: seq<seq<Rec>>, u: bool, totalonly: bool)
    ensures Merging(l, l, u, totalonly, TOTAL, [])
  {
    ZeroTotal(l);
  }

  lemma MergeMore(l0: seq<seq<Rec>>, l: seq<seq<Rec>>, u: bool, totalonly: bool, tt: Rec, out: seq<Rec>, i: nat)
    requires Merging(l0, l, u, totalonly, tt, out) && IsLeast(l, u, i)
    ensures var t := SumUp(l, u, i);
            Size(t.left) < Size(l) && Merging(l0, t.left, u, totalonly, Plus(tt, t.sum), if totalonly then out else out + [t.sum])
  {
    var t := SumUp(l, u, i);
    SumUpTotal(l, u, i);
    AddAssoc(tt.amount, t.sum.amount, TotalOf(t.left, 0));
    if !totalonly && AllSorted(l0, u) {
      SumsGroup(l, u, i);
      GroupDone(l0, l, t.left, u, out, i, t.sum);
    }
  }

  lemma Merged(l0: seq<seq<Rec>>, l: seq<seq<Rec>>, u: bool, totalonly: bool, tt: Rec, out: seq<Rec>)
    requires Merging(l0, l, u, totalonly, tt, out) && AllEmpty(l)
    ensures tt.amount == TotalOf(l0, 0) && (!totalonly && AllSorted(l0, u) ==> IsMerge(l0, u, out))
  {
    EmptyTotal(l, 0);
    AddZero(tt.amount);
    if !totalonly && AllSorted(l0, u) { Finished(l0, l, u, out); }
  }

  /** sumcurr's test of a record against the sum. */
  predicate Same(r: Rec, tc: Rec, u: bool) {
    r.uid == tc.uid && (u || Cmp(r.name, tc.name) == 0)
  }

  /** In sumcurr: tt has grown by what is in tc, and going on from stream j leads to goal. */
  ghost predicate Summing(l: seq<seq<Rec>>, u: bool, j: nat, tc: Rec, tt0: Rec, tt: Rec, goal: Taken) {
    j <= |l| && tt == Plus(tt0, tc) && Strip(l, u, KeyOf(tc, u), j, tc) == goal
  }

  lemma SummingOn(l: seq<seq<Rec>>, u: bool, j: nat, tc: Rec, tt0: Rec, tt: Rec, goal: Taken)
    requires Summing(l, u, j, tc, tt0, tt, goal) && j < |l|
    ensures if l[j] != [] && Same(l[j][0], tc, u)
            then Summing(Pop(l, j), u, j, Plus(tc, l[j][0]), tt0, Plus(tt, l[j][0]), goal)
            else Summing(l, u, j + 1, tc, tt0, tt, goal)
  {
    if l[j] != [] {
      CmpEqual(l[j][0].name, tc.name);
      AddAssoc(tt0.amount, tc.amount, l[j][0].amount);
    }
  }

  /** What is left of a stream: the current record and what is still to be read. */
  function Ahead(r: Rec, s: seq<Rec>): seq<Rec> {
    if r.name == Nul then [] else [r] + Live(s)
  }

  class Merge {
    const uidsum: bool
    const totalonly: bool
    const tb: array<Rec>
    const fl: array<seq<Rec>>
    var tt: Rec
    var out: seq<Rec>
    /** What is left of each stream: the current record and what is still to be read. */
    ghost var left: seq<seq<Rec>>

    ghost predicate Valid()
      reads this, tb, fl
    {
      && tb.Length == fl.Length == |left|
      && forall i :: 0 <= i < |left| ==> left[i] == Ahead(tb[i], fl[i])
    }

    constructor (files: seq<seq<Rec>>, uidsum: bool, totalonly: bool)
      ensures Valid() && fresh(tb) && fresh(fl) && fl[..] == files && out == [] && tt == TOTAL
      ensures this.uidsum == uidsum && this.totalonly == totalonly && forall i :: 0 <= i < |left| ==> left[i] == []
    {
      this.uidsum, this.totalonly := uidsum, totalonly;
      tb := new Rec[|files|](_ => Rec(0, Nul, Zero));
      fl := new seq<Rec>[|files|](i requires 0 <= i < |files| => files[i]);
      tt, out := TOTAL, [];
      left := seq(|files|, _ => []);
      new;
      assert fl[..] == files;
    }

    /** getnext */
    method Getnext(i: nat) returns (more: bool)
      requires Valid() && i < |left|
      modifies this`left, tb, fl
      ensures Valid() && left == old(left)[i := Live(old(fl[i]))]
      ensures forall j :: 0 <= j < |left| && j != i ==> fl[j] == old(fl[j])
    {
      left := left[i := Live(fl[i])];
      if fl[i] == [] {
        tb[i] := tb[i].(name := Nul);
        return false;
      }
      tb[i] := fl[i][0];
      fl[i] := fl[i][1..];
      more := true;
    }

    /** The next record of a stream whose current record has been taken. */
    method Take(i: nat)
      requires Valid() && i < |left| && left[i] != []
      modifies this`left, tb, fl
      ensures Valid() && left == Pop(old(left), i)
    {
      var more := Getnext(i);
    }

    /** getleast: the first of the least current records, or tb.Length for none. */
    method Getleast() returns (least: nat)
      requires Valid()
      ensures if least == |left| then AllEmpty(left) else IsLeast(left, uidsum, least)
    {
      least := tb.Length;
      var i := 0;
      while i < tb.Length
        invariant i <= tb.Length && LeastSoFar(left, uidsum, i, least)
      {
        if tb[i].name != Nul
           && (least == tb.Length || tb[i].uid < tb[least].uid
               || (tb[i].uid == tb[least].uid && !uidsum && Cmp(tb[i].name, tb[least].name) < 0)) {
          NewLeast(left, uidsum, i, least);
          least := i;
        } else {
          OldLeast(left, uidsum, i, least);
        }
        i := i + 1;
      }
    }

    /** sumcurr: the records with the key of record i, added up. */
    method Sumcurr(i: nat)
      requires Valid() && i < |left| && left[i] != []
      modifies this`left, this`tt, this`out, tb, fl
      ensures Valid() && left == SumUp(old(left), uidsum, i).left
      ensures tt == Plus(old(tt), SumUp(old(left), uidsum, i).sum)
      ensures out == if totalonly then old(out) else old(out) + [SumUp(old(left), uidsum, i).sum]
    {
      var tc := tb[i];
      Count(i);
      tc := AddEqual(i, tc, old(tt));
      if !totalonly {
        out := out + [tc];
      }
    }

    /** The loop of sumcurr: every record with the key of tc0, from stream i on, is added to tc0. */
    method AddEqual(i: nat, tc0: Rec, ghost tt0: Rec) returns (tc: Rec)
      requires Valid() && i < |left| && tt == Plus(tt0, tc0)
      modifies this`left, this`tt, tb, fl
      ensures Valid() && Taken(tc, left) == Strip(old(left), uidsum, KeyOf(tc0, uidsum), i, tc0) && tt == Plus(tt0, tc)
    {
      ghost var goal := Strip(left, uidsum, KeyOf(tc0, uidsum), i, tc0);
      tc := tc0;
      var j := i;
      while j < tb.Length
        invariant 0 <= j <= tb.Length && Valid() && Summing(left, uidsum, j, tc, tt0, tt, goal)
        decreases Size(left), tb.Length - j
      {
        SummingOn(left, uidsum, j, tc, tt0, tt, goal);
        if tb[j].name != Nul && Same(tb[j], tc, uidsum) {
          tc := Plus(tc, tb[j]);
          Count(j);
        } else {
          j := j + 1;
        }
      }
    }

    /** tacctadd(&tt, tp); getnext(tp - tb) */
    method Count(i: nat)
      requires Valid() && i < |left| && left[i] != []
      modifies this`left, this`tt, tb, fl
      ensures Valid() && left == Pop(old(left), i) && Size(left) < Size(old(left))
      ensures tt == Plus(old(tt), old(left)[i][0])
    {
      SizePop(left, i);
      tt := Plus(tt, tb[i]);
      Take(i);
    }

    /** The current record of every stream. */
    method Prime(ghost files: seq<seq<Rec>>)
      requires Valid() && fl[..] == files && forall j :: 0 <= j < |left| ==> left[j] == []
      modifies this`left, tb, fl
      ensures Valid() && left == Streams(files)
    {
      var i := 0;
      while i < tb.Length
        invariant i <= tb.Length && Valid() && |left| == |files|
        invariant forall j :: 0 <= j < i ==> left[j] == Live(files[j])
        invariant forall j :: i <= j < |files| ==> fl[j] == files[j]
      {
        var more := Getnext(i);
        i := i + 1;
      }
    }

    /** The loop of main. */
    method MergeAll(ghost l0: seq<seq<Rec>>)
      requires Valid() && Merging(l0, left, uidsum, totalonly, tt, out)
      modifies this, tb, fl
      ensures Merging(l0, left, uidsum, totalonly, tt, out) && AllEmpty(left)
    {
      var least: nat := Getleast();
      while least < tb.Length
        invariant Valid() && Merging(l0, left, uidsum, totalonly, tt, out)
        invariant if least == |left| then AllEmpty(left) else IsLeast(left, uidsum, least)
        decreases Size(left)
      {
        MergeMore(l0, left, uidsum, totalonly, tt, out, least);
        Sumcurr(least);
        least := Getleast();
      }
    }

    /** main, once every stream has its current record */
    method Summarize(ghost l0: seq<seq<Rec>>)
      requires Valid() && left == l0 && tt == TOTAL && out == []
      modifies this, tb, fl
      ensures tt == TOTAL.(amount := TotalOf(l0, 0))
      ensures totalonly ==> out == [tt]
      ensures !totalonly && AllSorted(l0, uidsum) ==> IsMerge(l0, uidsum, out)
    {
      Started(left, uidsum, totalonly);
      MergeAll(left);
      Merged(l0, left, uidsum, totalonly, tt, out);
      if totalonly {
        out := out + [tt];
      }
    }

    /** main */
    method Run(ghost files: seq<seq<Rec>>)
      requires Valid() && fl[..] == files && tt == TOTAL && out == [] && AllEmpty(left)
      modifies this, tb, fl
      ensures tt == TOTAL.(amount := TotalOf(Streams(files), 0))
      ensures totalonly ==> out == [tt]
      ensures !totalonly && AllSorted(Streams(files), uidsum) ==> IsMerge(Streams(files), uidsum, out)
    {
      Prime(files);
      Summarize(Streams(files));
    }
  }

  /** Two records, the first without a name, in one file. */
  lemma HiddenStream(nameless: Rec, other: Rec, files: seq<seq<Rec>>, u: bool)
    requires nameless.name == Nul && files == [[nameless, other]]
    ensures AllEmpty(Streams(files)) && AllSorted(Streams(files), u) && TotalOf(Streams(files), 0) == Zero
  {
    var l := Streams(files);
    assert l[0] == [];
    EmptyTotal(l, 0);
  }

  lemma NothingToMerge(l: seq<seq<Rec>>, u: bool, out: seq<Rec>)
    requires AllEmpty(l) && IsMerge(l, u, out)
    ensures out == []
  {
    if out != [] { EmptyHaving(l, u, KeyOf(out[0], u), 0); }
  }

  /** Behind a record without a name the other one is neither in the output nor in the total. */
  method Hidden(nameless: Rec, other: Rec, uidsum: bool, totalonly: bool) returns (tt: Rec, out: seq<Rec>)
    requires nameless.name == Nul && other.name != Nul
    ensures tt == TOTAL && out == if totalonly then [TOTAL] else []
  {
    var files := [[nameless, other]];
    HiddenStream(nameless, other, files, uidsum);
    var merge := new Merge(files, uidsum, totalonly);
    merge.Run(files);
    tt, out := merge.tt, merge.out;
    if !totalonly {
      NothingToMerge(Streams(files), uidsum, out);
    }
  }
}
