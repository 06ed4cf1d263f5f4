/** The period of x modulo a polynomial over GF(2), by squaring and multiplying 16-bit words. */
module Periods {
  import opened Arithmetic
  import opened Bits
  import opened Divisibility
  import opened ExclusiveOr
  import opened GaloisField

  // ---------------------------------------------------------------- words and numbers

  lemma DoubleWord(x: bv16)
    requires x < 0x8000
    ensures (x << 1) as nat == 2 * (x as nat) && ((x << 1) | 1) as nat == 2 * (x as nat) + 1
  {}

  lemma EvenWord(x: bv16)
    requires x & 1 == 0
    ensures x as nat == 2 * ((x >> 1) as nat)
  {
    var h := x >> 1;
    assert h < 0x8000 && x == h << 1;
    DoubleWord(h);
  }

  lemma OddWord(x: bv16)
    requires x & 1 == 1
    ensures x as nat == 2 * ((x >> 1) as nat) + 1
  {
    var h := x >> 1;
    assert h < 0x8000 && x == (h << 1) | 1;
    DoubleWord(h);
  }

  function Value(x: bv16): nat { x as nat }

  predicate Odd(x: bv16) { x & 1 == 1 }

  function Half(x: bv16): bv16 { x >> 1 }

  function Double(x: bv16): bv16 { x << 1 }

  predicate Meets(x: bv16, y: bv16) { x & y != 0 }

  function Add(x: bv16, y: bv16): bv16 { x ^ y }

  lemma HalfWord(x: bv16)
    ensures Value(Half(x)) == Value(x) / 2 && Value(x) % 2 == if Odd(x) then 1 else 0
  {
    LowBit(x);
    if x & 1 == 0 { EvenWord(x); } else { OddWord(x); }
    Halves(x as nat, (x >> 1) as nat);
  }

  lemma LowBit(x: bv16)
    ensures x & 1 == 0 || x & 1 == 1
  {}

  lemma Halves(x: nat, h: nat)
    ensures x == 2 * h ==> h == x / 2 && x % 2 == 0
    ensures x == 2 * h + 1 ==> h == x / 2 && x % 2 == 1
  {}

  lemma HalvesOfSum(x: bv16, y: bv16)
    ensures Half(Add(x, y)) == Add(Half(x), Half(y))
    ensures Odd(Add(x, y)) <==> Odd(x) != Odd(y)
  {}

  lemma XorUnfolds(a: nat, b: nat, c: nat)
    requires c / 2 == Xor(a / 2, b / 2) && c % 2 == if a % 2 != b % 2 then 1 else 0
    ensures c == Xor(a, b)
  {
    hide Xor;
    XorHalves(a, b);
    SameHalves(c, Xor(a, b));
  }

  lemma {:induction false} SumOfWords(x: bv16, y: bv16, k: nat)
    requires Value(x) < Pow2(k) && Value(y) < Pow2(k)
    ensures Value(Add(x, y)) == Xor(Value(x), Value(y))
    decreases k
  {
    hide Xor, Value, Odd, Half, Add;
    if k == 0 {
      XorZero(0);
      ZeroWords(x, y);
    } else {
      HalfWord(x);
      HalfWord(y);
      HalfWord(Add(x, y));
      HalvesOfSum(x, y);
      SumOfWords(Half(x), Half(y), k - 1);
      XorUnfolds(Value(x), Value(y), Value(Add(x, y)));
    }
  }

  lemma ZeroWords(x: bv16, y: bv16)
    requires Value(x) == 0 && Value(y) == 0
    ensures Value(Add(x, y)) == 0
  {
    assert x == 0 && y == 0;
    assert x ^ y == 0;
  }

  /** The word with bit k alone. */
  predicate IsTop(top: bv16, k: nat)
    decreases k
  {
    if k == 0 then top == 1 else !Odd(top) && IsTop(Half(top), k - 1)
  }

  lemma {:induction false} TopOfWord(x: bv16, top: bv16, k: nat)
    requires IsTop(top, k)
    ensures Meets(x, top) <==> Bit(Value(x), k) == 1
    decreases k
  {
    hide Value;
    HalfWord(x);
    if k > 0 { TopOfWord(Half(x), Half(top), k - 1); }
  }

  // ---------------------------------------------------------------- multiplying by x, and squaring

  /** The words p and top stand for the polynomial of f and for its highest power below the degree. */
  ghost predicate Suits(f: FieldParams, top: bv16, p: bv16) {
    && 1 <= f.mm <= 13 && IsTop(top, f.mm - 1)
    && Value(p) == f.gfpoly && Pow2(f.mm) <= f.gfpoly < 2 * Pow2(f.mm)
  }

  function TimesX(top: bv16, p: bv16, x: bv16): bv16 {
    if Meets(x, top) then Double(x) ^ p else Double(x)
  }

  lemma SmallPowers(n: nat)
    requires n <= 13
    ensures Pow2(n) <= 8192
    decreases 13 - n
  {
    if n == 13 {
      assert Pow2(5) == 32;
      assert Pow2(9) == 512;
    } else {
      SmallPowers(n + 1);
    }
  }

  lemma TwiceWord(x: bv16)
    requires Value(x) < 0x8000
    ensures Value(Double(x)) == 2 * Value(x)
  {
    DoubleWord(x);
  }

  // The operations on words under names that hide their bits.

  lemma AddNamed(x: bv16, y: bv16)
    ensures x ^ y == Add(x, y)
  {}

  lemma OddNamed(x: bv16)
    ensures x & 1 == 1 <==> Odd(x)
  {}

  lemma TimesXNamed(top: bv16, p: bv16, x: bv16)
    ensures TimesX(top, p, x) == if Meets(x, top) then Add(Double(x), p) else Double(x)
  {
    hide Meets, Add, Double;
    AddNamed(Double(x), p);
  }

  lemma SuitsParts(f: FieldParams, top: bv16, p: bv16)
    requires Suits(f, top, p)
    ensures 1 <= f.mm <= 13 && IsTop(top, f.mm - 1) && Pow2(f.mm) <= 8192
    ensures Value(p) == f.gfpoly && Pow2(f.mm) <= f.gfpoly < 2 * Pow2(f.mm)
  {
    SmallPowers(f.mm);
  }

  lemma TimesXIsShift(f: FieldParams, top: bv16, p: bv16, x: bv16)
    requires Suits(f, top, p) && Value(x) < Pow2(f.mm)
    ensures Value(TimesX(top, p, x)) == Shift(f.mm, f.gfpoly, Value(x)) < Pow2(f.mm)
  {
    hide *;
    TimesXNamed(top, p, x);
    SuitsParts(f, top, p);
    TopOfWord(x, top, f.mm - 1);
    TwiceWord(x);
    ShiftByCases(f, Value(x));
    if Meets(x, top) {
      assert Pow2(f.mm + 1) == 2 * Pow2(f.mm) by { NextPower(f.mm); }
      SumOfWords(Double(x), p, f.mm + 1);
    }
  }

  lemma NextPower(n: nat)
    ensures Pow2(n + 1) == 2 * Pow2(n)
  {}

  lemma ShiftByCases(f: FieldParams, v: nat)
    requires f.mm >= 1 && v < Pow2(f.mm) <= f.gfpoly < 2 * Pow2(f.mm)
    ensures Shift(f.mm, f.gfpoly, v) == (if Bit(v, f.mm - 1) == 1 then Xor(2 * v, f.gfpoly) else 2 * v) < Pow2(f.mm)
  {
    hide Xor, Bit, Low, High;
    var n := f.mm;
    BitOfTwice(v, n);
    TopBitSet(v, n - 1);
    BitOfHigh(v, n - 1);
    if Bit(v, n - 1) == 1 {
      XorBothTop(2 * v, f.gfpoly, n);
      LowOfSmall(Xor(2 * v, f.gfpoly), n);
    } else {
      LowOfSmall(2 * v, n);
    }
  }

  lemma BitOfTwice(v: nat, n: nat)
    requires n >= 1
    ensures Bit(2 * v, n) == Bit(v, n - 1)
  {}

  lemma {:induction false} BitOfHigh(v: nat, k: nat)
    ensures Bit(v, k) == High(v, k) % 2
    decreases k
  {
    if k > 0 { BitOfHigh(v / 2, k - 1); }
  }

  /** One step of Horner's scheme for a times h: h is a shifted down. */
  function Horner(top: bv16, p: bv16, a: bv16, h: bv16, x: bv16): bv16 {
    if h & 1 == 1 then TimesX(top, p, x) ^ a else TimesX(top, p, x)
  }

  lemma HornerNamed(top: bv16, p: bv16, a: bv16, h: bv16, x: bv16)
    ensures Horner(top, p, a, h, x) == if Odd(h) then Add(TimesX(top, p, x), a) else TimesX(top, p, x)
  {
    hide TimesX, Odd, Add;
    OddNamed(h);
    AddNamed(TimesX(top, p, x), a);
  }

  lemma HornerStep(f: FieldParams, top: bv16, p: bv16, k: nat, a: bv16, h: bv16, x: bv16)
    requires Suits(f, top, p) && Value(a) == Alpha(f, k) < Pow2(f.mm) && Value(h) < Pow2(f.mm)
    requires Value(x) == ShiftBy(f, Value(Half(h)), k)
    ensures Value(Horner(top, p, a, h, x)) == ShiftBy(f, Value(h), k) < Pow2(f.mm)
  {
    hide *;
    HornerNamed(top, p, a, h, x);
    SuitsParts(f, top, p);
    HalfWord(h);
    var u := Value(Half(h));
    ShiftedIn(f, u, k);
    ShiftedIn(f, Value(h), k);
    TimesXIsShift(f, top, p, x);
    ShiftOfNext(f, Value(h), k);
    if Odd(h) { SumOfWords(TimesX(top, p, x), a, f.mm); }
  }

  lemma ShiftedIn(f: FieldParams, x: nat, k: nat)
    requires x < Pow2(f.mm)
    ensures ShiftBy(f, x, k) < Pow2(f.mm)
  {
    ShiftByIn(f, x, k);
  }

  /** Adding a bit below: one more multiplication by x, and the power itself if the bit is set. */
  lemma ShiftOfNext(f: FieldParams, h: nat, k: nat)
    requires f.mm >= 1 && h < Pow2(f.mm)
    ensures ShiftBy(f, h, k) == if h % 2 == 1 then Xor(Shift(f.mm, f.gfpoly, ShiftBy(f, h / 2, k)), Alpha(f, k))
                                else Shift(f.mm, f.gfpoly, ShiftBy(f, h / 2, k))
  {
    hide Xor, Shift;
    var u := h / 2;
    DoublingIsShift(f, u);
    ShiftByAdd(f, u, 1, k);
    ShiftByAdd(f, u, k, 1);
    OneShift(f, u);
    OneShift(f, ShiftBy(f, u, k));
    if h % 2 == 1 {
      XorOfParts(u, 0, 0, 1);
      XorZero(u);
      ShiftByLinear(f, 2 * u, 1, k);
    }
  }

  lemma OneShift(f: FieldParams, x: nat)
    ensures ShiftBy(f, x, 1) == Shift(f.mm, f.gfpoly, x)
  {
    hide Shift;
    assert ShiftBy(f, x, 0) == x;
  }

  lemma DoublingIsShift(f: FieldParams, u: nat)
    requires f.mm >= 1 && 2 * u < Pow2(f.mm)
    ensures Shift(f.mm, f.gfpoly, u) == 2 * u
  {
    hide Bit, Low, Xor;
    BitOfTwice(u, f.mm);
    BitOfHigh(u, f.mm - 1);
    LowOfSmall(u, f.mm - 1);
    LowOfSmall(2 * u, f.mm);
  }

  lemma HalvesInTurn(a: bv16)
    ensures Half(a >> 11) == a >> 12 && Half(a >> 10) == a >> 11 && Half(a >> 9) == a >> 10 && Half(a >> 8) == a >> 9
    ensures Half(a >> 7) == a >> 8 && Half(a >> 6) == a >> 7 && Half(a >> 5) == a >> 6 && Half(a >> 4) == a >> 5
    ensures Half(a >> 3) == a >> 4 && Half(a >> 2) == a >> 3 && Half(a >> 1) == a >> 2 && Half(a) == a >> 1
    ensures a < 8192 ==> Half(a >> 12) == 0
  {}

  lemma Smaller(a: bv16, n: nat)
    requires n <= 13 && Value(a) < Pow2(n) <= 8192
    ensures Value(a) < Pow2(n) && Value(a >> 1) < Pow2(n) && Value(a >> 2) < Pow2(n) && Value(a >> 3) < Pow2(n) && Value(a >> 4) < Pow2(n)
    ensures Value(a >> 5) < Pow2(n) && Value(a >> 6) < Pow2(n) && Value(a >> 7) < Pow2(n) && Value(a >> 8) < Pow2(n)
    ensures Value(a >> 9) < Pow2(n) && Value(a >> 10) < Pow2(n) && Value(a >> 11) < Pow2(n) && Value(a >> 12) < Pow2(n)
    ensures Value(Half(a >> 12)) == 0
  {
    hide Value, Half, Pow2;
    HalvesInTurn(a);
    HalfWord(a); HalfWord(a >> 1); HalfWord(a >> 2); HalfWord(a >> 3); HalfWord(a >> 4);
    HalfWord(a >> 5); HalfWord(a >> 6); HalfWord(a >> 7); HalfWord(a >> 8);
    HalfWord(a >> 9); HalfWord(a >> 10); HalfWord(a >> 11); HalfWord(a >> 12);
  }

  /** The square of a polynomial of degree at most twelve. */
  function Square(top: bv16, p: bv16, a: bv16): bv16 {
    var x12 := Horner(top, p, a, a >> 12, 0);
    var x11 := Horner(top, p, a, a >> 11, x12);
    var x10 := Horner(top, p, a, a >> 10, x11);
    var x9 := Horner(top, p, a, a >> 9, x10);
    var x8 := Horner(top, p, a, a >> 8, x9);
    var x7 := Horner(top, p, a, a >> 7, x8);
    var x6 := Horner(top, p, a, a >> 6, x7);
    var x5 := Horner(top, p, a, a >> 5, x6);
    var x4 := Horner(top, p, a, a >> 4, x5);
    var x3 := Horner(top, p, a, a >> 3, x4);
    var x2 := Horner(top, p, a, a >> 2, x3);
    var x1 := Horner(top, p, a, a >> 1, x2);
    Horner(top, p, a, a, x1)
  }

  lemma SquareIs(f: FieldParams, top: bv16, p: bv16, k: nat, a: bv16)
    requires Suits(f, top, p) && Value(a) == Alpha(f, k) < Pow2(f.mm)
    ensures Value(Square(top, p, a)) == Alpha(f, 2 * k) < Pow2(f.mm)
  {
    hide Horner, Suits, Value, Half, Alpha, ShiftBy, Pow2;
    SuitsParts(f, top, p);
    HalvesInTurn(a);
    Smaller(a, f.mm);
    NoValue();
    ShiftOfZero(f, k);
    HornerStep(f, top, p, k, a, a >> 12, 0);
    var x12 := Horner(top, p, a, a >> 12, 0);
    HornerStep(f, top, p, k, a, a >> 11, x12);
    var x11 := Horner(top, p, a, a >> 11, x12);
    HornerStep(f, top, p, k, a, a >> 10, x11);
    var x10 := Horner(top, p, a, a >> 10, x11);
    HornerStep(f, top, p, k, a, a >> 9, x10);
    var x9 := Horner(top, p, a, a >> 9, x10);
    HornerStep(f, top, p, k, a, a >> 8, x9);
    var x8 := Horner(top, p, a, a >> 8, x9);
    HornerStep(f, top, p, k, a, a >> 7, x8);
    var x7 := Horner(top, p, a, a >> 7, x8);
    HornerStep(f, top, p, k, a, a >> 6, x7);
    var x6 := Horner(top, p, a, a >> 6, x7);
    HornerStep(f, top, p, k, a, a >> 5, x6);
    var x5 := Horner(top, p, a, a >> 5, x6);
    HornerStep(f, top, p, k, a, a >> 4, x5);
    var x4 := Horner(top, p, a, a >> 4, x5);
    HornerStep(f, top, p, k, a, a >> 3, x4);
    var x3 := Horner(top, p, a, a >> 3, x4);
    HornerStep(f, top, p, k, a, a >> 2, x3);
    var x2 := Horner(top, p, a, a >> 2, x3);
    HornerStep(f, top, p, k, a, a >> 1, x2);
    var x1 := Horner(top, p, a, a >> 1, x2);
    HornerStep(f, top, p, k, a, a, x1);
    AlphaAdd(f, k, k);
  }

  lemma {:induction false} PowersGrow(n: nat, m: nat)
    requires n <= m
    ensures Pow2(n) <= Pow2(m)
  {
    if n < m { PowersGrow(n, m - 1); }
  }

  lemma NoValue()
    ensures Value(0) == 0
  {}

  lemma ShiftOfZero(f: FieldParams, k: nat)
    ensures ShiftBy(f, 0, k) == 0 < Pow2(f.mm)
  {
    ShiftByLinear(f, 0, 0, k);
  }

  // ---------------------------------------------------------------- powers of x

  /** From the power k / 2 of x to the power k. */
  function Raise(top: bv16, p: bv16, k: bv16, a: bv16): bv16 {
    if k & 1 == 1 then TimesX(top, p, Square(top, p, a)) else Square(top, p, a)
  }

  lemma RaiseNamed(top: bv16, p: bv16, k: bv16, a: bv16)
    ensures Raise(top, p, k, a) == if Odd(k) then TimesX(top, p, Square(top, p, a)) else Square(top, p, a)
  {
    hide TimesX, Square, Odd;
    OddNamed(k);
  }

  lemma RaiseStep(f: FieldParams, top: bv16, p: bv16, k: bv16, a: bv16)
    requires Suits(f, top, p) && Value(a) == Alpha(f, Value(Half(k))) < Pow2(f.mm)
    ensures Value(Raise(top, p, k, a)) == Alpha(f, Value(k)) < Pow2(f.mm)
  {
    hide *;
    RaiseNamed(top, p, k, a);
    var h, s := Value(Half(k)), Square(top, p, a);
    SuitsParts(f, top, p);
    HalfWord(k);
    SquareIs(f, top, p, h, a);
    TimesXIsShift(f, top, p, s);
    AlphaNext(f, h + h);
  }

  /** The power k of x, bit by bit from the top. */
  lemma Climb(f: FieldParams, top: bv16, p: bv16, k: bv16,
              w1: bv16, w2: bv16, w3: bv16, w4: bv16, w5: bv16, w6: bv16, w7: bv16,
              w8: bv16, w9: bv16, w10: bv16, w11: bv16, w12: bv16, w13: bv16)
    requires Suits(f, top, p) && k < 8192
    requires w1 == Raise(top, p, k >> 12, 1) && w2 == Raise(top, p, k >> 11, w1) && w3 == Raise(top, p, k >> 10, w2)
    requires w4 == Raise(top, p, k >> 9, w3) && w5 == Raise(top, p, k >> 8, w4) && w6 == Raise(top, p, k >> 7, w5)
    requires w7 == Raise(top, p, k >> 6, w6) && w8 == Raise(top, p, k >> 5, w7) && w9 == Raise(top, p, k >> 4, w8)
    requires w10 == Raise(top, p, k >> 3, w9) && w11 == Raise(top, p, k >> 2, w10)
    requires w12 == Raise(top, p, k >> 1, w11) && w13 == Raise(top, p, k, w12)
    ensures Value(w13) == Alpha(f, Value(k))
  {
    hide *;
    SuitsParts(f, top, p);
    HalvesInTurn(k);
    FirstPower(f);
    RaiseStep(f, top, p, k >> 12, 1); RaiseStep(f, top, p, k >> 11, w1);
    RaiseStep(f, top, p, k >> 10, w2); RaiseStep(f, top, p, k >> 9, w3);
    RaiseStep(f, top, p, k >> 8, w4); RaiseStep(f, top, p, k >> 7, w5);
    RaiseStep(f, top, p, k >> 6, w6); RaiseStep(f, top, p, k >> 5, w7);
    RaiseStep(f, top, p, k >> 4, w8); RaiseStep(f, top, p, k >> 3, w9);
    RaiseStep(f, top, p, k >> 2, w10); RaiseStep(f, top, p, k >> 1, w11);
    RaiseStep(f, top, p, k, w12);
  }

  lemma FirstPower(f: FieldParams)
    requires f.mm >= 1
    ensures Value(1) == Alpha(f, Value(0)) == 1 < Pow2(f.mm)
  {
    PowersGrow(1, f.mm);
  }

  // ---------------------------------------------------------------- periods

  lemma {:induction false} PowersOfOne(f: FieldParams, i: nat, k: nat)
    requires Alpha(f, i) == 1
    ensures Alpha(f, k * i) == 1
    decreases k
  {
    hide ShiftBy;
    if k == 0 {
      assert ShiftBy(f, 1, 0) == 1 by { AlphaZero(f); }
      assert 0 * i == 0;
    } else {
      PowersOfOne(f, i, k - 1);
      AlphaAdd(f, (k - 1) * i, i);
      assert (k - 1) * i + i == k * i;
    }
  }

  /** If two powers of x are one then so is one whose exponent divides both. */
  lemma {:induction false} CommonPeriod(f: FieldParams, i: nat, j: nat) returns (d: nat)
    requires i >= 1 && Alpha(f, i) == 1 && Alpha(f, j) == 1
    ensures Common(d, i, j) && Alpha(f, d) == 1
    decreases i
  {
    hide Alpha;
    var r, m := j % i, j / i;
    if r == 0 {
      d := i;
    } else {
      PowersOfOne(f, i, m);
      assert m * i + r == j;
      AlphaAdd(f, m * i, r);
      AlphaIsShift(f, r);
      d := CommonPeriod(f, r, i);
      CommonOfRemainder(d, i, j);
    }
  }

  lemma AlphaIsShift(f: FieldParams, r: nat)
    ensures Alpha(f, r) == ShiftBy(f, 1, r)
  {}

  /** The exponent 2^mm - 1 without one factor p leads to one already. */
  ghost predicate OneWithout(f: FieldParams, p: nat) { p >= 1 && Alpha(f, NN(f) / p) == 1 }

  /** x is primitive if its power 2^mm - 1 is one and no power is one whose exponent lacks a single prime factor. */
  lemma PrimitiveByFactors(f: FieldParams, ps: seq<nat>)
    requires f.mm >= 1 && Alpha(f, NN(f)) == 1 && Product(ps) == NN(f)
    requires forall i :: 0 <= i < |ps| ==> Prime(ps[i]) && !OneWithout(f, ps[i])
    ensures Primitive(f)
  {
    hide Alpha, Product, OneWithout;
    forall k | 0 < k < NN(f) ensures Alpha(f, k) != 1 {
      if Alpha(f, k) == 1 {
        var d := CommonPeriod(f, k, NN(f));
        var i := PeriodLacksFactor(f, ps, k, d);
      }
    }
  }

  lemma PeriodLacksFactor(f: FieldParams, ps: seq<nat>, k: nat, d: nat) returns (i: nat)
    requires Product(ps) == NN(f) && forall i :: 0 <= i < |ps| ==> Prime(ps[i])
    requires 0 < k < NN(f) && Common(d, k, NN(f)) && Alpha(f, d) == 1
    ensures i < |ps| && OneWithout(f, ps[i])
  {
    hide Alpha, Product, Divides, NN;
    var n := NN(f);
    assert Divides(d, n) && Divides(d, k);
    var e := ProperCofactor(d, k, n);
    i := SomePrimeDivides(ps, e);
    assert Prime(ps[i]);
    var t := CofactorOfPrime(d, e, n, ps[i]);
    PowersOfOne(f, d, t);
  }

  lemma ProperCofactor(d: nat, k: nat, n: nat) returns (e: nat)
    requires Divides(d, n) && Divides(d, k) && 0 < k < n
    ensures e > 1 && d * e == n && Divides(e, n)
  {
    e := n / d;
    WholeQuotient(d, n);
    WholeQuotient(d, k);
    if k / d >= 1 { MulAtLeast(k / d, d); }
    assert e != 0 && e != 1;
    Multiple(e, d);
  }

  lemma CofactorOfPrime(d: nat, e: nat, n: nat, q: nat) returns (t: nat)
    requires d * e == n && Divides(q, e)
    ensures q >= 1 && n / q == t * d
  {
    t := e / q;
    WholeQuotient(q, e);
    var x := t * d;
    assert d * (t * q) == x * q;
    Multiple(q, x);
  }
}
