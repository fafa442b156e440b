/** Facts about products that the solver does not find by itself. */
module Arithmetic {

  function Prod(a: int, b: int): int {
    a * b
  }

  lemma Cancel(a: int, b: int, h: nat)
    requires h > 0 && Prod(a, h) == Prod(b, h)
    ensures a == b
  {
    assert (a - b) * h == 0;
  }

  lemma Divides(m: nat, d: nat)
    requires d > 0
    ensures (m * d) / d == m
  {
    var n, q := m * d, m * d / d;
    assert q * d <= n < q * d + d;
    Times(q - m, d);
    assert (q - m) * d == q * d - n;
  }

  lemma Times(a: int, d: nat)
    requires d > 0
    ensures a >= 1 ==> a * d >= d
    ensures a <= -1 ==> a * d + d <= 0
  {
  }

  lemma Swap(m: int, b: int, p: int)
    ensures m * (b * p) == b * (m * p)
  {
  }

  lemma Remainder(q: int, m: nat, r: nat)
    requires r < m
    ensures (q * m + r) % m == r && (q * m + r) / m == q
  {
    var n := q * m + r;
    var k, s := n / m, n % m;
    Times(k - q, m);
    assert (k - q) * m == r - s;
  }
}
