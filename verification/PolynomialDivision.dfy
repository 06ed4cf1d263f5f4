/** Polynomials over GF(2), their coefficients the bits of a number, and the shift register as their division. */
module PolynomialDivision {
  import opened Arithmetic
  import opened Bits
  import opened Crc
  import opened CrcTheory
  import opened ExclusiveOr
  import opened Sequences

  function Product(a: nat, g: nat): nat {
    if a == 0 then 0 else Xor(2 * Product(a / 2, g), if a % 2 == 1 then g else 0)
  }

  /** r is what is left of x after a multiple of g is taken away, and is of lower degree than g, whose degree is n. */
  ghost predicate Remainder(x: nat, g: nat, n: nat, r: nat) {
    r < Pow2(n) && exists q: nat :: Xor(Product(q, g), r) == x
  }

  lemma ProductStep(a: nat, b: bit, g: nat)
    ensures Product(2 * a + b, g) == Xor(2 * Product(a, g), if b == 1 then g else 0)
  {
    hide Xor;
    if a == 0 && b == 0 { XorZero(0); }
    assert (2 * a + b) / 2 == a && (2 * a + b) % 2 == b;
  }

  lemma ProductHalves(a: nat, g: nat)
    ensures Product(a, g) == Xor(2 * Product(a / 2, g), if a % 2 == 1 then g else 0)
  {
    hide Xor, Product;
    ProductStep(a / 2, a % 2, g);
  }

  lemma SumOfTimes(x: bit, y: bit, z: bit, g: nat)
    requires z == (x + y) % 2
    ensures Xor(if x == 1 then g else 0, if y == 1 then g else 0) == if z == 1 then g else 0
  {
    hide Xor;
    XorSelf(g);
    XorZero(g);
    XorZero(0);
  }

  lemma {:induction false} ProductOfSum(a: nat, b: nat, g: nat)
    ensures Product(Xor(a, b), g) == Xor(Product(a, g), Product(b, g))
    decreases a + b
  {
    hide Xor, Product;
    if a == 0 {
      XorZero(b);
      NoProduct(g);
      XorZero(Product(b, g));
    } else {
      var x, y, z := a % 2, b % 2, (a % 2 + b % 2) % 2;
      XorHalves(a, b);
      ParityAdds(a, b);
      ProductOfSum(a / 2, b / 2, g);
      ProductHalves(a, g);
      ProductHalves(b, g);
      ProductHalves(Xor(a, b), g);
      SumOfTimes(x, y, z, g);
      XorDoubles(Product(a / 2, g), Product(b / 2, g));
      XorShuffle(2 * Product(a / 2, g), if x == 1 then g else 0, 2 * Product(b / 2, g), if y == 1 then g else 0);
    }
  }

  lemma NoProduct(g: nat)
    ensures Product(0, g) == 0
  {}

  lemma AboveOf(x: nat, n: nat)
    ensures x >= Pow2(n) <==> High(x, n) >= 1
  {
    hide High, Low, Pow2;
    SplitBits(x, n);
    LowBound(x, n);
    MulAtLeast(High(x, n), Pow2(n));
  }

  /** A multiple of g other than zero has at least its degree. */
  lemma {:induction false} ProductIsLarge(a: nat, g: nat, n: nat)
    requires a > 0 && Pow2(n) <= g < 2 * Pow2(n)
    ensures Product(a, g) >= Pow2(n)
  {
    hide Xor, High, Product;
    ProductHalves(a, g);
    if a == 1 {
      NoProduct(g);
      XorZero(g);
    } else {
      ProductIsLarge(a / 2, g, n);
      var x, y := 2 * Product(a / 2, g), if a % 2 == 1 then g else 0;
      AboveOf(x, n + 1);
      AboveOf(y, n + 1);
      HighOfXor(x, y, n + 1);
      XorZero(High(x, n + 1));
      AboveOf(Xor(x, y), n + 1);
    }
  }

  /** There is one remainder. */
  lemma RemainderIsUnique(x: nat, g: nat, n: nat, r: nat, s: nat)
    requires Pow2(n) <= g < 2 * Pow2(n) && Remainder(x, g, n, r) && Remainder(x, g, n, s)
    ensures r == s
  {
    hide Xor, Product;
    var q: nat :| Xor(Product(q, g), r) == x;
    var t: nat :| Xor(Product(t, g), s) == x;
    XorShuffle(Product(q, g), r, Product(t, g), s);
    XorSelf(x);
    XorZeroIffEqual(Xor(Product(q, g), Product(t, g)), Xor(r, s));
    ProductOfSum(q, t, g);
    XorBound(r, s, n);
    if Xor(q, t) > 0 { ProductIsLarge(Xor(q, t), g, n); }
    NoProduct(g);
    XorZeroIffEqual(r, s);
  }

  // ---------------------------------------------------------------- the register divides

  lemma TakeTop(x: nat, n: nat)
    requires n > 0 && x < Pow2(n)
    ensures Bit(2 * x, n) == (if x >= Pow2(n - 1) then 1 else 0)
    ensures 2 * x == (if x >= Pow2(n - 1) then Pow2(n) else 0) + Low(2 * x, n)
    ensures 2 * x == Xor(if x >= Pow2(n - 1) then Pow2(n) else 0, Low(2 * x, n))
  {
    hide Bit, Low, Xor, High;
    TopBit(n, x);
    if x >= Pow2(n - 1) {
      LowOfSum(1, 2 * x - Pow2(n), n);
      AddDisjoint(2 * x - Pow2(n), Pow2(n), n, 1);
    } else {
      LowOfSum(0, 2 * x, n);
      XorZero(2 * x);
    }
  }

  lemma GeneratorParts(n: nat, poly: nat)
    ensures Pow2(n) + Low(poly, n) == Xor(Pow2(n), Low(poly, n)) < 2 * Pow2(n)
  {
    hide Low, Xor;
    LowBound(poly, n);
    AddDisjoint(Low(poly, n), Pow2(n), n, 1);
  }

  /** One shift subtracts the generator if a bit falls out. */
  lemma ShiftDivides(n: nat, poly: nat, x: nat)
    requires n > 0 && x < Pow2(n)
    ensures 2 * x == Xor(if x >= Pow2(n - 1) then Pow2(n) + Low(poly, n) else 0, Shift(n, poly, x))
  {
    hide Bit, Low, Xor, High, Pow2, Shift;
    var l, p, top := Low(2 * x, n), Low(poly, n), Pow2(n);
    TakeTop(x, n);
    ShiftCases(n, poly, x);
    GeneratorParts(n, poly);
    if x >= Pow2(n - 1) {
      XorShuffle(top, p, l, p);
      XorSelf(p);
      XorZero(Xor(top, l));
    } else {
      XorZero(l);
    }
  }

  /** The bits as a polynomial, first bit on top, times x^n, with the initial register added to the first n bits. */
  function Dividend(n: nat, r: nat, bits: seq<bit>): nat {
    Xor(Value(bits) * Pow2(n), r * Pow2(|bits|))
  }

  lemma DividendStep(n: nat, r: nat, bits: seq<bit>)
    requires bits != []
    ensures Dividend(n, r, bits) == Xor(2 * Dividend(n, r, Front(bits)), if Last(bits) == 1 then Pow2(n) else 0)
  {
    hide *;
    var f, b := Front(bits), Last(bits);
    var v, p, big, top := Value(f), Pow2(n), r * Pow2(|f|), if b == 1 then Pow2(n) else 0;
    DividendParts(n, r, bits);
    AddTop(v, p, b, n);
    XorDoubles(v * p, big);
    XorAssociates(2 * (v * p), top, 2 * big);
    XorCommutes(top, 2 * big);
    XorAssociates(2 * (v * p), 2 * big, top);
  }

  lemma DividendParts(n: nat, r: nat, bits: seq<bit>)
    requires bits != []
    ensures Dividend(n, r, bits) == Xor((2 * Value(Front(bits)) + Last(bits)) * Pow2(n), 2 * (r * Pow2(|Front(bits)|)))
    ensures Dividend(n, r, Front(bits)) == Xor(Value(Front(bits)) * Pow2(n), r * Pow2(|Front(bits)|))
  {
    hide Xor;
    assert Pow2(|bits|) == 2 * Pow2(|Front(bits)|);
    assert r * Pow2(|bits|) == 2 * (r * Pow2(|Front(bits)|));
  }

  lemma AddTop(v: nat, p: nat, b: bit, n: nat)
    requires p == Pow2(n)
    ensures (2 * v + b) * p == Xor(2 * (v * p), if b == 1 then p else 0)
  {
    hide Xor;
    NextPlace(v, b, n, 0);
    assert v * Pow2(n + 1) == 2 * (v * p);
    assert b * Pow2(n) == if b == 1 then p else 0;
  }

  lemma HalfTop(n: nat, b: bit)
    requires n > 0
    ensures 2 * (if b == 1 then Pow2(n - 1) else 0) == if b == 1 then Pow2(n) else 0
    ensures (if b == 1 then Pow2(n - 1) else 0) < Pow2(n)
  {}

  lemma FeedUnfolds(n: nat, poly: nat, r: nat, b: bit)
    requires n > 0
    ensures Feed(n, poly, r, b) == Shift(n, poly, Xor(r, if b == 1 then Pow2(n - 1) else 0))
  {}

  /** One more bit, one more digit of the quotient. */
  lemma FeedDivides(n: nat, poly: nat, d: nat, q: nat, r: nat, b: bit) returns (q': nat)
    requires n > 0 && r < Pow2(n) && d == Xor(Product(q, Pow2(n) + Low(poly, n)), r)
    ensures Xor(2 * d, if b == 1 then Pow2(n) else 0) == Xor(Product(q', Pow2(n) + Low(poly, n)), Feed(n, poly, r, b))
  {
    hide *;
    var g, top := Pow2(n) + Low(poly, n), if b == 1 then Pow2(n - 1) else 0;
    var s := Xor(r, top);
    HalfTop(n, b);
    XorBound(r, top, n);
    XorDoubles(r, top);
    ShiftDivides(n, poly, s);
    FeedUnfolds(n, poly, r, b);
    var t: bit := if s >= Pow2(n - 1) then 1 else 0;
    var taken := if t == 1 then g else 0;
    q' := 2 * q + t;
    ProductStep(q, t, g);
    XorDoubles(Product(q, g), r);
    XorAssociates(2 * Product(q, g), 2 * r, 2 * top);
    XorAssociates(2 * Product(q, g), taken, Feed(n, poly, r, b));
  }

  /** The register is the remainder of the data polynomial. */
  lemma {:induction false} RegisterDivides(n: nat, poly: nat, r: nat, bits: seq<bit>) returns (q: nat)
    requires n > 0 && r < Pow2(n)
    ensures Dividend(n, r, bits) == Xor(Product(q, Pow2(n) + Low(poly, n)), Register(n, poly, r, bits))
    decreases |bits|
  {
    hide Xor, Low, Pow2, Product, Feed, Dividend;
    if bits == [] {
      q := 0;
      NoBitsYet(n, r);
      NoProduct(Pow2(n) + Low(poly, n));
      XorZero(r);
    } else {
      var p := RegisterDivides(n, poly, r, Front(bits));
      RegisterBound(n, poly, r, Front(bits));
      DividendStep(n, r, bits);
      q := FeedDivides(n, poly, Dividend(n, r, Front(bits)), p, Register(n, poly, r, Front(bits)), Last(bits));
    }
  }

  lemma NoBitsYet(n: nat, r: nat)
    ensures Dividend(n, r, []) == r
  {
    hide Xor;
    XorZero(r);
    TimesOne(r);
  }

  lemma RegisterIsRemainder(n: nat, poly: nat, r: nat, bits: seq<bit>)
    requires n > 0 && r < Pow2(n)
    ensures Remainder(Dividend(n, r, bits), Pow2(n) + Low(poly, n), n, Register(n, poly, r, bits))
  {
    hide Xor, Low, Pow2, Product, Register, Dividend;
    var q := RegisterDivides(n, poly, r, bits);
    RegisterBound(n, poly, r, bits);
  }
}
