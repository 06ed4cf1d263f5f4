/** Common divisors, and what primes divide. */
module Divisibility {
  import opened Arithmetic

  predicate Divides(d: nat, n: nat) { d >= 1 && n % d == 0 }

  ghost predicate Common(d: nat, a: nat, b: nat) { Divides(d, a) && Divides(d, b) }

  /** There is no common divisor above one. */
  ghost predicate Coprime(a: nat, b: nat) { forall d: nat :: Common(d, a, b) ==> d == 1 }

  lemma Multiple(d: nat, k: nat)
    requires d >= 1
    ensures Divides(d, k * d) && k * d / d == k
  {
    DivModUnique(k * d, d, k, 0);
  }

  lemma DividesScaled(d: nat, k: nat, n: nat)
    requires Divides(d, n)
    ensures Divides(d, k * n)
  {
    assert k * n == k * (n / d) * d;
    Multiple(d, k * (n / d));
  }

  /** A divisor of a sum and of one summand divides the other. */
  lemma DividesRest(d: nat, a: nat, b: nat)
    requires Divides(d, a)
    ensures Divides(d, a + b) <==> Divides(d, b)
  {
    AddMultiple(b, a / d, d);
    assert a == a / d * d;
  }

  lemma CommonOfRemainder(d: nat, a: nat, n: nat)
    requires a >= 1
    ensures Common(d, n % a, a) <==> Common(d, a, n)
  {
    if Divides(d, a) {
      DividesScaled(d, n / a, a);
      assert n == n / a * a + n % a;
      DividesRest(d, n / a * a, n % a);
    }
  }

  /** q times n is one short of a multiple of a. */
  predicate OneShort(a: nat, n: nat, q: nat) { Divides(a, 1 + q * n) }

  lemma WholeQuotient(d: nat, n: nat)
    requires Divides(d, n)
    ensures n == n / d * d
  {}

  /** Without common divisors some multiple of n is one short of a multiple of a: Euclid's algorithm. */
  lemma {:induction false} Shortfall(a: nat, n: nat) returns (q: nat)
    requires a >= 1 && Coprime(a, n)
    ensures OneShort(a, n, q)
    decreases a
  {
    hide OneShort;
    var r := n % a;
    if r == 0 {
      assert Common(a, a, n);
      q := 0;
      assert OneShort(1, n, 0) by { OneIsShort(n); }
    } else {
      forall d: nat | Common(d, r, a) ensures d == 1 { CommonOfRemainder(d, a, n); }
      var p := Shortfall(r, a);
      q := ShortStep(a, n, p);
    }
  }

  lemma OneIsShort(n: nat)
    ensures OneShort(1, n, 0)
  {}

  /** From the remainder back: if r divides 1 + p a, the quotient t has t r = 1 modulo a, so t (a - 1) n = -1. */
  lemma ShortStep(a: nat, n: nat, p: nat) returns (q: nat)
    requires a >= 1 && n % a >= 1 && OneShort(n % a, a, p)
    ensures OneShort(a, n, q)
  {
    hide Divides;
    var m, r := n / a, n % a;
    var t := (1 + p * a) / r;
    WholeQuotient(r, 1 + p * a);
    var k := ShortAlgebra(a, m, r, t, p);
    q := t * (a - 1);
    assert n == m * a + r;
    Multiple(a, k);
  }

  lemma ShortAlgebra(a: nat, m: nat, r: nat, t: nat, p: nat) returns (k: nat)
    requires a >= 1 && t * r == 1 + p * a
    ensures 1 + t * (a - 1) * (m * a + r) == k * a
  {
    var b: nat := a - 1;
    var q: nat := t * b;
    var u, v := q * m, b * p;
    k := u + 1 + v;
    assert q * (m * a + r) == u * a + q * r by { Expand(q, m, a, r); }
    assert q * r == b + v * a by {
      Regroup(t, b, r);
      Expand(b, p, a, 1);
    }
    assert k * a == u * a + a + v * a by { Expand3(u, 1, v, a); }
  }

  lemma Expand(q: nat, m: nat, a: nat, r: nat)
    ensures q * (m * a + r) == q * m * a + q * r
  {
    var x := m * a;
    assert q * (x + r) == q * x + q * r;
    assert q * x == q * m * a;
  }

  lemma Expand3(x: nat, y: nat, z: nat, a: nat)
    ensures (x + y + z) * a == x * a + y * a + z * a
  {}

  lemma Regroup(t: nat, b: nat, r: nat)
    ensures t * b * r == b * (t * r)
  {}

  /** ... and only then. */
  lemma ShortIffCoprime(a: nat, n: nat)
    requires a >= 1
    ensures Coprime(a, n) <==> exists q: nat :: OneShort(a, n, q)
  {
    hide OneShort, Common;
    if Coprime(a, n) {
      var q := Shortfall(a, n);
    }
    forall q: nat, d: nat | OneShort(a, n, q) && Common(d, a, n) ensures d == 1 {
      NoneInCommon(a, n, q, d);
    }
  }

  lemma NoneInCommon(a: nat, n: nat, q: nat, d: nat)
    requires OneShort(a, n, q) && Common(d, a, n)
    ensures d == 1
  {
    hide Divides;
    var x := q * n;
    WholeQuotient(a, 1 + x);
    DividesScaled(d, (1 + x) / a, a);
    DividesScaled(d, q, n);
    DividesRest(d, x, 1);
    DividesOne(d);
  }

  lemma DividesOne(d: nat)
    requires Divides(d, 1)
    ensures d == 1
  {
    if d > 1 { ModOfSmall(1, d); }
  }

  /** What divides a product and has no divisor in common with one factor divides the other. */
  lemma DividesCofactor(e: nat, p: nat, m: nat)
    requires p >= 1 && Coprime(p, e) && Divides(e, p * m)
    ensures Divides(e, m)
  {
    var q := Shortfall(p, e);
    var t := (1 + q * e) / p;
    WholeQuotient(p, 1 + q * e);
    DividesScaled(e, t, p * m);
    Multiple(e, q * m);
    assert t * (p * m) == (t * p) * m == q * m * e + m;
    DividesRest(e, q * m * e, m);
  }

  // ---------------------------------------------------------------- primes

  ghost predicate Prime(p: nat) { p >= 2 && forall d: nat :: Divides(d, p) ==> d == 1 || d == p }

  predicate NoDivisors(p: nat, d: nat) { d <= 1 || (p % d != 0 && NoDivisors(p, d - 1)) }

  lemma {:induction false} NoneDivides(p: nat, d: nat, c: nat)
    requires NoDivisors(p, d) && 2 <= c <= d
    ensures !Divides(c, p)
    decreases d
  {
    if c < d { NoneDivides(p, d - 1, c); }
  }

  /** Trial division up to the square root. */
  lemma PrimeByTrial(p: nat, d: nat)
    requires p >= 2 && NoDivisors(p, d) && p < (d + 1) * (d + 1)
    ensures Prime(p)
  {
    hide NoDivisors;
    forall c: nat | Divides(c, p) ensures c == 1 || c == p {
      var e := p / c;
      WholeQuotient(c, p);
      if c != 1 && c != p {
        assert e != 0 && e != 1;
        if c <= d { NoneDivides(p, d, c); }
        Multiple(e, c);
        assert e * c == p && c * e == p;
        if e <= d { NoneDivides(p, d, e); }
        Above(c, e, d + 1);
      }
    }
  }

  lemma Above(c: nat, e: nat, k: nat)
    requires c >= k && e >= k
    ensures c * e >= k * k
  {
    assert c * e == k * k + (c - k) * k + c * (e - k);
  }

  function Product(ps: seq<nat>): nat { if ps == [] then 1 else ps[0] * Product(ps[1..]) }

  /** A divisor above one of a product of primes is divisible by one of them. */
  lemma {:induction false} SomePrimeDivides(ps: seq<nat>, e: nat) returns (i: nat)
    requires forall i :: 0 <= i < |ps| ==> Prime(ps[i])
    requires e > 1 && Divides(e, Product(ps))
    ensures i < |ps| && Divides(ps[i], e)
  {
    if ps == [] {
      DividesOne(e);
      assert false;
    } else if Divides(ps[0], e) {
      i := 0;
    } else {
      assert Prime(ps[0]);
      DividesCofactor(e, ps[0], Product(ps[1..]));
      var j := SomePrimeDivides(ps[1..], e);
      i := j + 1;
    }
  }
}
