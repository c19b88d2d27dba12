/** Division with remainder, stated for the shapes the assignments need. */
module Division {
  lemma Multiples(d: int, n: nat)
    ensures d >= 1 ==> d * n >= n
    ensures d <= -1 ==> d * n + n <= 0
  {}

  // The one way of writing a number as a multiple and a remainder.
  lemma Remainder(a: int, q: int, n: nat, r: nat)
    requires r < n && a == q * n + r
    ensures a % n == r && a / n == q
  {
    var d := a / n - q;
    assert a == a / n * n + a % n;
    assert d * n == r - a % n;
    Multiples(d, n);
  }
}
