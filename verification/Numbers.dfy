/**
  Quotients and remainders.
*/
module Numbers {

  lemma DivMod(d: nat, n: nat, i: nat)
    requires n > 0
    ensures d / n == i <==> i * n <= d < i * n + n
    ensures d / n == i ==> d % n == d - i * n
  {
    var q, m := d / n, d % n;
    assert d == q * n + m && 0 <= m < n;
    if q < i { MulStep(q, i, n); }
    if i < q { MulStep(i, q, n); }
  }

  lemma MulStep(a: nat, b: nat, n: nat)
    requires a < b
    ensures a * n + n <= b * n
  {
    assert (a + 1) * n <= b * n;
  }
}
