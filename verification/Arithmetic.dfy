/** Quotients and remainders of natural numbers. */
module Arithmetic {

  lemma MulAtLeast(d: int, m: nat)
    ensures d >= 1 ==> d * m >= m
    ensures d <= -1 ==> d * m + m <= 0
  {
    if d >= 1 {
      assert (d - 1) * m >= 0;
    } else if d <= -1 {
      assert (-d - 1) * m >= 0;
    }
  }

  lemma DivModUnique(a: nat, m: nat, q: nat, r: nat)
    requires r < m && a == q * m + r
    ensures a % m == r && a / m == q
  {
    var d := a / m - q;
    assert d * m == a / m * m - q * m;
    MulAtLeast(d, m);
  }

  lemma ModOfSmall(x: nat, m: nat)
    requires x < m
    ensures x % m == x && x / m == 0
  {
    DivModUnique(x, m, 0, x);
  }

  lemma AddMultiple(x: nat, k: nat, m: nat)
    requires m >= 1
    ensures (x + k * m) % m == x % m && (x + k * m) / m == x / m + k
  {
    assert x + k * m == (x / m + k) * m + x % m;
    DivModUnique(x + k * m, m, x / m + k, x % m);
  }

  lemma ModAdd(x: nat, y: nat, m: nat)
    requires m >= 1
    ensures (x + y % m) % m == (x + y) % m
  {
    AddMultiple(x + y % m, y / m, m);
    assert x + y == x + y % m + y / m * m;
  }

  lemma ModMul(x: nat, y: nat, m: nat)
    requires m >= 1
    ensures (x * (y % m)) % m == (x * y) % m
  {
    var k := x * (y / m);
    assert x * y == x * (y % m) + k * m by {
      assert y == y / m * m + y % m;
      assert x * (y / m * m) == k * m;
    }
    AddMultiple(x * (y % m), k, m);
  }

  lemma ExactQuotient(x: nat, m: nat, bound: nat)
    requires m >= 1 && x % m == 0 && 1 <= x <= m * bound
    ensures x == m * (x / m) && 1 <= x / m <= bound
  {
    assert x == m * (x / m);
    var d := x / m - bound;
    assert d * m == x - m * bound;
    MulAtLeast(d, m);
  }
}
