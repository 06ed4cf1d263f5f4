/** The field with 2^mm elements in which the Reed-Solomon codec computes. Its nonzero elements are the powers of
    x, which the table construction of init_rs runs through; products add exponents. */
module GaloisField {
  import opened Bits
  import opened ExclusiveOr

  /** Bits per symbol and the field generator polynomial. */
  datatype FieldParams = FieldParams(mm: nat, gfpoly: nat)

  function NN(f: FieldParams): nat { Pow2(f.mm) - 1 }

  /** x multiplied k times by the element 2, the polynomial x. */
  function ShiftBy(f: FieldParams, x: nat, k: nat): nat {
    if k == 0 then x else Shift(f.mm, f.gfpoly, ShiftBy(f, x, k - 1))
  }

  function Alpha(f: FieldParams, i: nat): nat { ShiftBy(f, 1, i) }

  /** The powers of x return to 1 after 2^mm - 1 steps and not earlier. */
  ghost predicate Primitive(f: FieldParams) {
    && f.mm >= 1
    && Alpha(f, NN(f)) == 1
    && forall i :: 0 < i < NN(f) ==> Alpha(f, i) != 1
  }

  type Field = f: FieldParams | Primitive(f) ghost witness TwoElements()

  ghost function TwoElements(): (f: FieldParams)
    ensures Primitive(f)
  {
    var f := FieldParams(1, 3);
    assert Pow2(1) == 2 * Pow2(0);
    assert Xor(2, 3) == 2 * Xor(1, 1) + 1;
    assert Low(1, 1) == 2 * Low(0, 0) + 1;
    assert Alpha(f, 1) == Shift(1, 3, ShiftBy(f, 1, 0));
    f
  }

  /** x is one of the 2^mm elements. */
  predicate In(f: FieldParams, x: nat) { x <= NN(f) }

  lemma FieldSize(f: Field)
    ensures NN(f) >= 1
  {
    assert Pow2(f.mm) == 2 * Pow2(f.mm - 1);
  }

  // ---------------------------------------------------------------- powers of x

  lemma AlphaZero(f: FieldParams)
    ensures Alpha(f, 0) == 1 && ShiftBy(f, 1, 0) == 1
  {}

  lemma AlphaNext(f: FieldParams, i: nat)
    ensures Alpha(f, i + 1) == Shift(f.mm, f.gfpoly, Alpha(f, i))
  {}

  lemma {:induction false} ShiftByAdd(f: FieldParams, x: nat, j: nat, k: nat)
    ensures ShiftBy(f, x, j + k) == ShiftBy(f, ShiftBy(f, x, j), k)
  {
    if k > 0 { ShiftByAdd(f, x, j, k - 1); }
  }

  lemma {:induction false} ShiftByLinear(f: FieldParams, a: nat, b: nat, k: nat)
    ensures ShiftBy(f, Xor(a, b), k) == Xor(ShiftBy(f, a, k), ShiftBy(f, b, k))
    ensures ShiftBy(f, 0, k) == 0
  {
    hide Xor, Shift;
    ShiftZero(f.mm, f.gfpoly);
    if k > 0 {
      ShiftByLinear(f, a, b, k - 1);
      ShiftLinear(f.mm, f.gfpoly, ShiftBy(f, a, k - 1), ShiftBy(f, b, k - 1));
    }
  }

  lemma ShiftByIn(f: FieldParams, x: nat, k: nat)
    requires In(f, x)
    ensures In(f, ShiftBy(f, x, k))
  {
    if k > 0 { ShiftBound(f.mm, f.gfpoly, ShiftBy(f, x, k - 1)); }
  }

  lemma AlphaIn(f: Field, i: nat)
    ensures In(f, Alpha(f, i))
  {
    FieldSize(f);
    ShiftByIn(f, 1, i);
  }

  lemma AlphaAdd(f: FieldParams, i: nat, j: nat)
    ensures Alpha(f, i + j) == ShiftBy(f, Alpha(f, i), j)
  {
    ShiftByAdd(f, 1, i, j);
  }

  lemma AlphaTurn(f: Field, i: nat)
    ensures Alpha(f, NN(f) + i) == Alpha(f, i)
  {
    AlphaAdd(f, NN(f), i);
  }

  lemma {:induction false} AlphaTurns(f: Field, i: nat, k: nat)
    ensures Alpha(f, k * NN(f) + i) == Alpha(f, i)
  {
    hide Alpha, Primitive, NN;
    if k > 0 {
      AlphaTurns(f, i, k - 1);
      AlphaTurn(f, (k - 1) * NN(f) + i);
      assert NN(f) + ((k - 1) * NN(f) + i) == k * NN(f) + i;
    }
  }

  /** Exponents count modulo 2^mm - 1. */
  lemma AlphaMod(f: Field, i: nat)
    ensures NN(f) >= 1 && Alpha(f, i) == Alpha(f, i % NN(f))
  {
    FieldSize(f);
    assert i == i / NN(f) * NN(f) + i % NN(f);
    AlphaTurns(f, i % NN(f), i / NN(f));
  }

  lemma AlphaNonzero(f: Field, i: nat)
    ensures Alpha(f, i) != 0
  {
    AlphaMod(f, i);
    var j := i % NN(f);
    AlphaAdd(f, j, NN(f) - j);
    ShiftByLinear(f, 0, 0, NN(f) - j);
  }

  lemma AlphaDistinct(f: Field, i: nat, j: nat)
    requires i < j < NN(f)
    ensures Alpha(f, i) != Alpha(f, j)
  {
    hide Alpha, ShiftBy;
    var k := NN(f) - i;
    AlphaAdd(f, i, k);
    AlphaAdd(f, j, k);
    AlphaTurn(f, j - i);
    assert j + k == NN(f) + (j - i);
  }

  // ---------------------------------------------------------------- logarithms

  ghost function PowersBelow(f: FieldParams, n: nat): set<nat> {
    if n == 0 then {} else PowersBelow(f, n - 1) + {Alpha(f, n - 1)}
  }

  ghost predicate IsPower(f: FieldParams, n: nat, x: nat) { exists i :: 0 <= i < n && Alpha(f, i) == x }

  lemma {:induction false} PowersBelowArePowers(f: FieldParams, n: nat, x: nat)
    requires x in PowersBelow(f, n)
    ensures IsPower(f, n, x)
  {
    if x != Alpha(f, n - 1) {
      PowersBelowArePowers(f, n - 1, x);
      var i :| 0 <= i < n - 1 && Alpha(f, i) == x;
      assert 0 <= i < n;
    }
  }

  lemma {:induction false} PowersAreMany(f: Field, n: nat)
    requires n <= NN(f)
    ensures |PowersBelow(f, n)| == n && PowersBelow(f, n) <= UpTo(NN(f))
  {
    hide Primitive, Alpha, UpTo;
    if n > 0 {
      PowersAreMany(f, n - 1);
      AlphaIn(f, n - 1);
      AlphaNonzero(f, n - 1);
      InUpTo(NN(f), Alpha(f, n - 1));
      if Alpha(f, n - 1) in PowersBelow(f, n - 1) {
        PowersBelowArePowers(f, n - 1, Alpha(f, n - 1));
        var i :| 0 <= i < n - 1 && Alpha(f, i) == Alpha(f, n - 1);
        AlphaDistinct(f, i, n - 1);
        assert false;
      }
    }
  }

  function UpTo(n: nat): set<nat> { if n == 0 then {} else UpTo(n - 1) + {n} }

  lemma {:induction false} InUpTo(n: nat, x: nat)
    ensures x in UpTo(n) <==> 1 <= x <= n
  {
    if n > 0 { InUpTo(n - 1, x); }
  }

  lemma {:induction false} UpToSize(n: nat)
    ensures |UpTo(n)| == n
  {
    if n > 0 {
      UpToSize(n - 1);
      InUpTo(n - 1, n);
    }
  }

  lemma SubsetOfSameSize(a: set<nat>, b: set<nat>)
    requires a <= b && |a| == |b|
    ensures a == b
  {
    assert |b - a| == |b| - |a|;
  }

  /** Every nonzero element is a power of x. */
  lemma LogExists(f: Field, x: nat)
    requires 0 < x <= NN(f)
    ensures exists i :: 0 <= i < NN(f) && Alpha(f, i) == x
  {
    PowersAreMany(f, NN(f));
    UpToSize(NN(f));
    SubsetOfSameSize(PowersBelow(f, NN(f)), UpTo(NN(f)));
    InUpTo(NN(f), x);
    PowersBelowArePowers(f, NN(f), x);
  }

  ghost function Log(f: Field, x: nat): (i: nat)
    requires 0 < x <= NN(f)
    ensures i < NN(f) && Alpha(f, i) == x
  {
    LogExists(f, x);
    var i :| 0 <= i < NN(f) && Alpha(f, i) == x;
    i
  }

  lemma LogOfAlpha(f: Field, i: nat)
    ensures 0 < Alpha(f, i) <= NN(f) && NN(f) >= 1 && Log(f, Alpha(f, i)) == i % NN(f)
  {
    AlphaIn(f, i);
    AlphaNonzero(f, i);
    AlphaMod(f, i);
    var j, k := Log(f, Alpha(f, i)), i % NN(f);
    if j < k { AlphaDistinct(f, j, k); } else if k < j { AlphaDistinct(f, k, j); }
  }

  // ---------------------------------------------------------------- the product

  /** Zero times anything is zero; other products add logarithms. Bits above the symbol size are ignored. */
  ghost function Mul(f: Field, a: nat, b: nat): nat {
    var x, y := Low(a, f.mm), Low(b, f.mm);
    if x == 0 || y == 0 then 0
    else LowIn(f, a); LowIn(f, b); Alpha(f, Log(f, x) + Log(f, y))
  }

  lemma LowIn(f: FieldParams, a: nat)
    ensures In(f, Low(a, f.mm))
    ensures In(f, a) ==> Low(a, f.mm) == a
  {
    LowBound(a, f.mm);
    if In(f, a) { LowOfSmall(a, f.mm); }
  }

  lemma MulIn(f: Field, a: nat, b: nat)
    ensures In(f, Mul(f, a, b))
  {
    var x, y := Low(a, f.mm), Low(b, f.mm);
    if x != 0 && y != 0 {
      LowIn(f, a); LowIn(f, b);
      AlphaIn(f, Log(f, x) + Log(f, y));
    }
  }

  lemma MulCommutes(f: Field, a: nat, b: nat)
    ensures Mul(f, a, b) == Mul(f, b, a)
  {}

  lemma MulZero(f: Field, a: nat)
    ensures Mul(f, a, 0) == 0 && Mul(f, 0, a) == 0
  {
    LowIn(f, 0);
  }

  /** There are no zero divisors. */
  lemma MulNonzero(f: Field, a: nat, b: nat)
    requires In(f, a) && In(f, b) && Mul(f, a, b) == 0
    ensures a == 0 || b == 0
  {
    LowIn(f, a); LowIn(f, b);
    if a != 0 && b != 0 { AlphaNonzero(f, Log(f, a) + Log(f, b)); }
  }

  /** Multiplying by a power of x repeats the shift. */
  lemma MulAlpha(f: Field, a: nat, k: nat)
    ensures Mul(f, a, Alpha(f, k)) == ShiftBy(f, Low(a, f.mm), k)
  {
    hide Low, Alpha, ShiftBy, Log, Primitive, NN;
    var x := Low(a, f.mm);
    LowIn(f, a);
    AlphaIn(f, k);
    LowIn(f, Alpha(f, k));
    AlphaNonzero(f, k);
    LowSize(f, x);
    if x == 0 {
      ShiftByLinear(f, 0, 0, k);
    } else {
      LogOfAlpha(f, k);
      AlphaAdd(f, Log(f, x), k);
      SumMod(f, Log(f, x), k);
    }
  }

  lemma LowSize(f: FieldParams, x: nat)
    ensures In(f, x) <==> x <= NN(f)
  {}

  lemma SumMod(f: Field, i: nat, j: nat)
    ensures NN(f) >= 1 && Alpha(f, i + j % NN(f)) == Alpha(f, i + j)
  {
    hide Alpha, Primitive, NN;
    FieldSize(f);
    AlphaTurns(f, i + j % NN(f), j / NN(f));
    assert j / NN(f) * NN(f) + (i + j % NN(f)) == i + j;
  }

  lemma MulAlphas(f: Field, i: nat, j: nat)
    ensures Mul(f, Alpha(f, i), Alpha(f, j)) == Alpha(f, i + j)
  {
    MulAlpha(f, Alpha(f, i), j);
    AlphaIn(f, i);
    LowIn(f, Alpha(f, i));
    AlphaAdd(f, i, j);
  }

  lemma MulOne(f: Field, a: nat)
    requires In(f, a)
    ensures Mul(f, a, 1) == a && Mul(f, 1, a) == a
  {
    MulAlpha(f, a, 0);
    LowIn(f, a);
    MulCommutes(f, a, 1);
  }

  lemma MulDistributes(f: Field, a: nat, b: nat, c: nat)
    ensures Mul(f, Xor(a, b), c) == Xor(Mul(f, a, c), Mul(f, b, c))
    ensures Mul(f, c, Xor(a, b)) == Xor(Mul(f, c, a), Mul(f, c, b))
  {
    hide Mul, Xor;
    MulCommutes(f, Xor(a, b), c);
    MulCommutes(f, a, c);
    MulCommutes(f, b, c);
    MulIgnoresHigh(f, a, c);
    MulIgnoresHigh(f, b, c);
    MulIgnoresHigh(f, Xor(a, b), c);
    LowIn(f, c);
    if Low(c, f.mm) == 0 {
      MulZero(f, a);
      MulZero(f, b);
      MulZero(f, Xor(a, b));
      XorZero(0);
    } else {
      var k := Log(f, Low(c, f.mm));
      MulAlpha(f, a, k);
      MulAlpha(f, b, k);
      MulAlpha(f, Xor(a, b), k);
      XorLow(a, b, f.mm);
      ShiftByLinear(f, Low(a, f.mm), Low(b, f.mm), k);
    }
  }

  lemma MulIgnoresHigh(f: Field, a: nat, c: nat)
    ensures Mul(f, a, Low(c, f.mm)) == Mul(f, a, c)
  {
    hide Low, Alpha, Log, NN;
    LowIn(f, c);
    LowIn(f, Low(c, f.mm));
  }

  lemma MulAssociatesIn(f: Field, a: nat, b: nat, c: nat)
    requires In(f, a) && In(f, b) && In(f, c)
    ensures Mul(f, Mul(f, a, b), c) == Mul(f, a, Mul(f, b, c))
  {
    hide Mul, Alpha, Log, Primitive, NN;
    if a == 0 || b == 0 || c == 0 {
      MulZero(f, a); MulZero(f, b); MulZero(f, c); MulZero(f, Mul(f, a, b)); MulZero(f, Mul(f, b, c));
    } else {
      var i, j, k := Log(f, a), Log(f, b), Log(f, c);
      MulAlphas(f, i, j);
      MulAlphas(f, i + j, k);
      MulAlphas(f, j, k);
      MulAlphas(f, i, j + k);
      assert (i + j) + k == i + (j + k);
    }
  }

  lemma MulAssociates(f: Field, a: nat, b: nat, c: nat)
    ensures Mul(f, Mul(f, a, b), c) == Mul(f, a, Mul(f, b, c))
  {
    hide Mul, Low, Primitive, NN;
    var x, y, z := Low(a, f.mm), Low(b, f.mm), Low(c, f.mm);
    LowIn(f, a); LowIn(f, b); LowIn(f, c);
    MulAssociatesIn(f, x, y, z);
    MulIgnoresLeft(f, a, y); MulIgnoresHigh(f, a, b);
    MulIgnoresHigh(f, Mul(f, a, b), c);
    MulIgnoresLeft(f, b, z); MulIgnoresHigh(f, b, c);
    MulIgnoresLeft(f, a, Mul(f, b, c));
  }

  lemma MulIgnoresLeft(f: Field, a: nat, c: nat)
    ensures Mul(f, Low(a, f.mm), c) == Mul(f, a, c)
  {
    hide Mul;
    MulCommutes(f, Low(a, f.mm), c);
    MulCommutes(f, a, c);
    MulIgnoresHigh(f, c, a);
  }
}
