/** Exclusive or of natural numbers, and the shift step that both the field tables and the CRCs repeat. */
module ExclusiveOr {
  import opened Bits

  function Xor(a: nat, b: nat): nat {
    if a == 0 && b == 0 then 0 else 2 * Xor(a / 2, b / 2) + (a + b) % 2
  }

  lemma {:induction false} XorCommutes(a: nat, b: nat)
    ensures Xor(a, b) == Xor(b, a)
  {
    if a != 0 || b != 0 { XorCommutes(a / 2, b / 2); }
  }

  lemma XorHalves(a: nat, b: nat)
    ensures Xor(a, b) / 2 == Xor(a / 2, b / 2) && Xor(a, b) % 2 == (a + b) % 2
  {}

  lemma SameHalves(x: nat, y: nat)
    requires x / 2 == y / 2 && x % 2 == y % 2
    ensures x == y
  {}

  lemma {:induction false} XorAssociates(a: nat, b: nat, c: nat)
    ensures Xor(Xor(a, b), c) == Xor(a, Xor(b, c))
    decreases a + b + c
  {
    hide Xor;
    if a + b + c == 0 {
      XorZero(0);
    } else {
      XorAssociates(a / 2, b / 2, c / 2);
      XorHalves(a, b);
      XorHalves(b, c);
      XorHalves(Xor(a, b), c);
      XorHalves(a, Xor(b, c));
      SameHalves(Xor(Xor(a, b), c), Xor(a, Xor(b, c)));
    }
  }

  lemma {:induction false} XorZero(a: nat)
    ensures Xor(a, 0) == a && Xor(0, a) == a
  {
    if a != 0 { XorZero(a / 2); }
  }

  lemma {:induction false} XorSelf(a: nat)
    ensures Xor(a, a) == 0
  {
    if a != 0 { XorSelf(a / 2); }
  }

  lemma XorCancel(a: nat, b: nat)
    ensures Xor(a, Xor(a, b)) == b && Xor(Xor(b, a), a) == b
  {
    XorAssociates(a, a, b);
    XorAssociates(b, a, a);
    XorSelf(a);
    XorZero(b);
  }

  lemma XorZeroIffEqual(a: nat, b: nat)
    ensures Xor(a, b) == 0 <==> a == b
  {
    XorSelf(a);
    XorCancel(a, b);
    XorZero(a);
  }

  /** Sums regroup. */
  lemma XorShuffle(a: nat, b: nat, c: nat, d: nat)
    ensures Xor(Xor(a, b), Xor(c, d)) == Xor(Xor(a, c), Xor(b, d))
  {
    XorAssociates(a, b, Xor(c, d));
    XorAssociates(b, c, d);
    XorCommutes(b, c);
    XorAssociates(c, b, d);
    XorAssociates(a, c, Xor(b, d));
  }

  lemma {:induction false} XorBound(a: nat, b: nat, n: nat)
    requires a < Pow2(n) && b < Pow2(n)
    ensures Xor(a, b) < Pow2(n)
  {
    if n > 0 && (a != 0 || b != 0) { XorBound(a / 2, b / 2, n - 1); }
  }

  lemma XorDoubles(a: nat, b: nat)
    ensures Xor(2 * a, 2 * b) == 2 * Xor(a, b)
  {
    XorOfParts(a, b, 0, 0);
  }

  /** The n lowest bits of a: what masking with 2^n - 1 leaves. */
  function Low(a: nat, n: nat): nat
    decreases n
  {
    if n == 0 then 0 else 2 * Low(a / 2, n - 1) + a % 2
  }

  /** a shifted down by n bits. */
  function High(a: nat, n: nat): nat
    decreases n
  {
    if n == 0 then a else High(a / 2, n - 1)
  }

  lemma {:induction false} LowBound(a: nat, n: nat)
    ensures Low(a, n) < Pow2(n)
    decreases n
  {
    if n > 0 { LowBound(a / 2, n - 1); }
  }

  lemma {:induction false} LowOfSmall(a: nat, n: nat)
    requires a < Pow2(n)
    ensures Low(a, n) == a && High(a, n) == 0
    decreases n
  {
    if n > 0 { LowOfSmall(a / 2, n - 1); }
  }

  lemma TimesOne(a: nat)
    ensures a * 1 == a
  {}

  lemma SplitStep(a: nat, h: nat, l: nat, p: nat)
    requires a / 2 == h * p + l
    ensures a == h * (2 * p) + (2 * l + a % 2)
  {
    assert h * (2 * p) == 2 * (h * p);
  }

  /** Low and High are remainder and quotient by 2^n. */
  lemma {:induction false} SplitBits(a: nat, n: nat)
    ensures a == High(a, n) * Pow2(n) + Low(a, n)
    decreases n
  {
    if n == 0 {
      TimesOne(a);
    } else {
      SplitBits(a / 2, n - 1);
      SplitStep(a, High(a / 2, n - 1), Low(a / 2, n - 1), Pow2(n - 1));
    }
  }

  lemma ParityAdds(a: nat, b: nat)
    ensures (a + b) % 2 == (a % 2 + b % 2) % 2
  {}

  /** Masking is linear. */
  lemma {:induction false} XorLow(a: nat, b: nat, n: nat)
    ensures Low(Xor(a, b), n) == Xor(Low(a, n), Low(b, n))
    decreases n
  {
    hide Xor;
    if n == 0 {
      XorZero(0);
    } else {
      XorLow(a / 2, b / 2, n - 1);
      XorHalves(a, b);
      ParityAdds(a, b);
      XorOfParts(Low(a / 2, n - 1), Low(b / 2, n - 1), a % 2, b % 2);
    }
  }

  lemma XorOfParts(a: nat, b: nat, x: bit, y: bit)
    ensures Xor(2 * a + x, 2 * b + y) == 2 * Xor(a, b) + (x + y) % 2
  {
    hide Xor;
    XorHalves(2 * a + x, 2 * b + y);
    assert (2 * a + x) / 2 == a && (2 * b + y) / 2 == b;
    SameHalves(Xor(2 * a + x, 2 * b + y), 2 * Xor(a, b) + (x + y) % 2);
  }

  lemma {:induction false} BitOfXor(a: nat, b: nat, i: nat)
    ensures Bit(Xor(a, b), i) == (Bit(a, i) + Bit(b, i)) % 2
    decreases i
  {
    hide Xor;
    XorHalves(a, b);
    if i > 0 { BitOfXor(a / 2, b / 2, i - 1); }
  }

  /** The top bit survives in a sum with a number below it, and cancels between two numbers that have it. */
  lemma {:induction false} XorWithTop(a: nat, m: nat, k: nat)
    requires a < Pow2(k) <= m < 2 * Pow2(k)
    ensures Pow2(k) <= Xor(a, m) < 2 * Pow2(k)
  {
    hide Xor;
    if k == 0 {
      XorZero(1);
    } else {
      XorWithTop(a / 2, m / 2, k - 1);
      XorHalves(a, m);
    }
  }

  lemma {:induction false} XorBothTop(a: nat, m: nat, k: nat)
    requires Pow2(k) <= a < 2 * Pow2(k) && Pow2(k) <= m < 2 * Pow2(k)
    ensures Xor(a, m) < Pow2(k)
  {
    hide Xor;
    if k == 0 {
      XorSelf(1);
    } else {
      XorBothTop(a / 2, m / 2, k - 1);
      XorHalves(a, m);
    }
  }

  lemma {:induction false} TopBitSet(s: nat, k: nat)
    requires s < 2 * Pow2(k)
    ensures High(s, k) == if s >= Pow2(k) then 1 else 0
    decreases k
  {
    if k > 0 { TopBitSet(s / 2, k - 1); }
  }

  /** One step of an n-bit shift register with feedback: double, reduce by the polynomial if a bit falls out, mask. */
  function Shift(n: nat, poly: nat, x: nat): nat {
    Low(if Bit(x * 2, n) == 1 then Xor(x * 2, poly) else x * 2, n)
  }

  function Times(b: bit, poly: nat): nat { if b == 1 then poly else 0 }

  lemma TimesLinear(b: bit, c: bit, poly: nat)
    ensures Times((b + c) % 2, poly) == Xor(Times(b, poly), Times(c, poly))
  {
    XorSelf(poly);
    XorZero(poly);
    XorZero(0);
  }

  lemma ShiftIsXor(n: nat, poly: nat, x: nat)
    ensures Shift(n, poly, x) == Low(Xor(2 * x, Times(Bit(2 * x, n), poly)), n)
  {
    XorZero(x * 2);
  }

  lemma ShiftBound(n: nat, poly: nat, x: nat)
    ensures Shift(n, poly, x) < Pow2(n)
  {
    LowBound(if Bit(x * 2, n) == 1 then Xor(x * 2, poly) else x * 2, n);
  }

  lemma ShiftZero(n: nat, poly: nat)
    ensures Shift(n, poly, 0) == 0
  {
    BitOfZero(n);
    LowOfSmall(0, n);
  }

  lemma ShiftLinear(n: nat, poly: nat, a: nat, b: nat)
    ensures Shift(n, poly, Xor(a, b)) == Xor(Shift(n, poly, a), Shift(n, poly, b))
  {
    hide *;
    ShiftIsXor(n, poly, a);
    ShiftIsXor(n, poly, b);
    ShiftIsXor(n, poly, Xor(a, b));
    XorDoubles(a, b);
    BitOfXor(2 * a, 2 * b, n);
    var x, y := Bit(2 * a, n), Bit(2 * b, n);
    TimesLinear(x, y, poly);
    XorShuffle(2 * a, 2 * b, Times(x, poly), Times(y, poly));
    XorLow(Xor(2 * a, Times(x, poly)), Xor(2 * b, Times(y, poly)), n);
  }
}
