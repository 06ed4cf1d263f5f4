/** Why Berlekamp-Massey, Chien search and Forney's formula recover up to half as many errors as there are
    syndromes: statements about power sums, recurrences and words only. */
module ErrorLocation {
  import opened Bits
  import opened ExclusiveOr
  import opened GaloisField
  import opened PowerSums
  import opened RsInit
  import opened Sequences
  import opened Words

  /** s lists the power sums of nonzero weights ys at different nonzero locators xs. */
  ghost predicate Errors(f: Field, ys: seq<nat>, xs: seq<nat>, s: seq<nat>) {
    && |ys| == |xs| && AllIn(f, ys) && AllIn(f, xs) && Distinct(xs)
    && (forall l :: 0 <= l < |xs| ==> xs[l] != 0 && ys[l] != 0)
    && forall m :: 0 <= m < |s| ==> s[m] == PowerSum(f, ys, xs, m)
  }

  // ---------------------------------------------------------------- the error locator generates the syndromes

  /** The product of y + x over all locators. */
  ghost function LocatorWord(f: Field, xs: seq<nat>): (c: seq<nat>)
    ensures |c| == |xs| + 1
  {
    if xs == [] then [1] else MulRoot(f, LocatorWord(f, Front(xs)), Last(xs))
  }

  lemma {:induction false} LocatorWordRoots(f: Field, xs: seq<nat>, l: nat)
    requires l < |xs|
    ensures Eval(f, LocatorWord(f, xs), xs[l]) == 0
  {
    hide Mul, Xor, Eval, MulRoot;
    var c := LocatorWord(f, Front(xs));
    MulRootEval(f, c, Last(xs), xs[l]);
    if l < |xs| - 1 {
      LocatorWordRoots(f, Front(xs), l);
      MulZero(f, Xor(xs[l], Last(xs)));
    } else {
      XorSelf(xs[l]);
      MulZero(f, Eval(f, c, xs[l]));
    }
  }

  lemma {:induction false} LocatorWordIsMonic(f: Field, xs: seq<nat>)
    ensures LocatorWord(f, xs)[0] == 1
  {
    hide Mul, Xor, MulRoot;
    if xs != [] {
      LocatorWordIsMonic(f, Front(xs));
      MulRootAt(f, LocatorWord(f, Front(xs)), Last(xs), 0);
    }
  }

  /** Power sums at few locators satisfy the recurrence of these locators, whatever the weights. */
  lemma SumsAreGenerated(f: Field, ys: seq<nat>, xs: seq<nat>, s: seq<nat>)
    requires |ys| == |xs| && forall m :: 0 <= m < |s| ==> s[m] == PowerSum(f, ys, xs, m)
    ensures Generates(f, LocatorWord(f, xs), |xs|, s, |s|)
  {
    hide Mul, Xor, Eval, LocatorWord, Conv, PowerSum, Weigh, In, NN;
    var c := LocatorWord(f, xs);
    LocatorWordIsMonic(f, xs);
    forall l | 0 <= l < |ys| ensures Weigh(f, ys, xs, c)[l] == 0 {
      WeighAt(f, ys, xs, c, l);
      LocatorWordRoots(f, xs, l);
      MulZero(f, ys[l]);
    }
    forall j | |xs| <= j < |s| ensures Conv(f, c, s, j) == 0 {
      ConvIsPowerSum(f, c, ys, xs, s, j);
      PowerSumOfZeros(f, Weigh(f, ys, xs, c), xs, j + 1 - |c|);
    }
  }

  lemma LocatorGenerates(f: Field, ys: seq<nat>, xs: seq<nat>, s: seq<nat>)
    requires Errors(f, ys, xs, s)
    ensures Generates(f, LocatorWord(f, xs), |xs|, s, |s|)
  {
    SumsAreGenerated(f, ys, xs, s);
  }

  // ---------------------------------------------------------------- a shortest recurrence is the error locator

  /** Coefficients beyond the range of s or equal to zero do not count. */
  lemma {:induction false} ConvCut(f: Field, c: seq<nat>, s: seq<nat>, j: nat, k: nat)
    requires k <= |c| && forall i :: k <= i < |c| ==> c[i] == 0 || i > j
    ensures Conv(f, c, s, j) == Conv(f, c[..k], s, j)
    decreases |c|
  {
    hide Mul, Xor;
    if k == |c| {
      assert c[..k] == c;
    } else {
      ConvCut(f, Front(c), s, j, k);
      assert Front(c)[..k] == c[..k];
      var a := At(s, j - (|c| - 1));
      MulZero(f, a);
      MulZero(f, Last(c));
      XorZero(Conv(f, Front(c), s, j));
    }
  }

  /** A recurrence that is not longer than the number of errors, of which there are at most half as many as terms,
      vanishes at all locators. */
  lemma ShortRecurrenceVanishes(f: Field, ys: seq<nat>, xs: seq<nat>, s: seq<nat>, c: seq<nat>, len: nat)
    requires Errors(f, ys, xs, s) && 2 * |xs| <= |s|
    requires AllIn(f, c) && Generates(f, c, len, s, |s|) && len <= |xs| && len < |c|
    ensures forall l :: 0 <= l < |xs| ==> Eval(f, c[..len + 1], xs[l]) == 0
  {
    hide Mul, Xor, Eval, Conv, PowerSum, Weigh, In, NN, Pow;
    var w := c[..len + 1];
    var zs := Weigh(f, ys, xs, w);
    forall l | 0 <= l < |zs| ensures In(f, zs[l]) {
      WeighAt(f, ys, xs, w, l);
      MulIn(f, ys[l], Eval(f, w, xs[l]));
    }
    forall k | 0 <= k < |xs| ensures PowerSum(f, zs, xs, k) == 0 {
      ConvCut(f, c, s, len + k, len + 1);
      ConvIsPowerSum(f, w, ys, xs, s, len + k);
    }
    VanishingSums(f, zs, xs, 0);
    forall l | 0 <= l < |xs| ensures Eval(f, w, xs[l]) == 0 {
      WeighAt(f, ys, xs, w, l);
      EvalIn(f, w, xs[l]);
      MulNonzero(f, ys[l], Eval(f, w, xs[l]));
    }
  }

  /** Such a recurrence has exactly the locators for roots, and its degree is their number. */
  lemma ShortRecurrenceIsLocator(f: Field, ys: seq<nat>, xs: seq<nat>, s: seq<nat>, c: seq<nat>, len: nat)
    requires Errors(f, ys, xs, s) && 2 * |xs| <= |s|
    requires AllIn(f, c) && Generates(f, c, len, s, |s|) && len <= |xs| && |xs| < |c|
    ensures len == |xs| && c[len] != 0
    ensures forall x :: In(f, x) && x != 0 && Eval(f, c[..len + 1], x) == 0 ==> x in xs
  {
    hide Mul, Xor, Eval, Conv, PowerSum, In, NN, Errors, Distinct;
    var w := c[..len + 1];
    ShortRecurrenceVanishes(f, ys, xs, s, c, len);
    assert |ys| == |xs| && AllIn(f, xs) && Distinct(xs) && forall l :: 0 <= l < |xs| ==> xs[l] != 0 by {
      ErrorsGood(f, ys, xs, s);
    }
    assert w[0] == 1 && (len > 0 ==> Front(w)[0] == 1);
    if len < |xs| { TooManyRoots(f, w, xs); }
    if c[len] == 0 {
      forall l | 0 <= l < |xs| ensures Eval(f, Front(w), xs[l]) == 0 { TrailingZero(f, w, xs[l]); }
      TooManyRoots(f, Front(w), xs);
    }
    forall x | In(f, x) && x != 0 && Eval(f, w, x) == 0 ensures x in xs {
      if x !in xs {
        AddRoot(f, xs, x);
        TooManyRoots(f, w, xs + [x]);
      }
    }
  }

  lemma ErrorsGood(f: Field, ys: seq<nat>, xs: seq<nat>, s: seq<nat>)
    requires Errors(f, ys, xs, s)
    ensures |ys| == |xs| && AllIn(f, xs) && Distinct(xs) && forall l :: 0 <= l < |xs| ==> xs[l] != 0
  {}

  lemma AddRoot(f: Field, xs: seq<nat>, x: nat)
    requires AllIn(f, xs) && Distinct(xs) && x !in xs && In(f, x)
    ensures AllIn(f, xs + [x]) && Distinct(xs + [x])
  {}

  lemma TrailingZero(f: Field, w: seq<nat>, x: nat)
    requires w != [] && AllIn(f, w) && Last(w) == 0 && In(f, x) && x != 0 && Eval(f, w, x) == 0
    ensures Eval(f, Front(w), x) == 0
  {
    hide Mul, Xor;
    var e := Eval(f, Front(w), x);
    XorZero(Mul(f, e, x));
    EvalIn(f, Front(w), x);
    MulNonzero(f, e, x);
  }

  // ---------------------------------------------------------------- the error values

  /** The weighted sum of the values at y of the quotients by y + xs[l]. */
  ghost function QuotientSum(f: Field, ys: seq<nat>, xs: seq<nat>, w: seq<nat>, y: nat): nat
    requires |ys| == |xs| && w != []
  {
    if ys == [] then 0
    else Xor(QuotientSum(f, Front(ys), Front(xs), w, y), Mul(f, Last(ys), Eval(f, Quotient(f, w, Last(xs)), y)))
  }

  lemma {:induction false} QuotientSumStep(f: Field, ys: seq<nat>, xs: seq<nat>, w: seq<nat>, y: nat)
    requires |ys| == |xs| && |w| >= 2
    ensures QuotientSum(f, ys, xs, w, y)
            == Xor(Mul(f, QuotientSum(f, ys, xs, Front(w), y), y), PowerSum(f, Weigh(f, ys, xs, Front(w)), xs, 0))
    decreases |ys|
  {
    hide Mul, Xor, Eval, Quotient;
    if ys == [] {
      MulZero(f, y);
      XorZero(0);
    } else {
      QuotientSumStep(f, Front(ys), Front(xs), w, y);
      var v, b, x := Front(w), Last(ys), Last(xs);
      var q, e := Eval(f, Quotient(f, v, x), y), Eval(f, v, x);
      LastQuotient(f, w, x, y);
      FrontOfAppend(Weigh(f, Front(ys), Front(xs), v), Mul(f, b, e));
      var S, T := QuotientSum(f, Front(ys), Front(xs), v, y), PowerSum(f, Weigh(f, Front(ys), Front(xs), v), Front(xs), 0);
      MulIn(f, b, e);
      MulOne(f, Mul(f, b, e));
      MulDistributes(f, Mul(f, q, y), e, b);
      MulAssociates(f, b, q, y);
      MulDistributes(f, S, Mul(f, b, q), y);
      XorShuffle(Mul(f, S, y), T, Mul(f, Mul(f, b, q), y), Mul(f, b, e));
    }
  }

  lemma LastQuotient(f: Field, w: seq<nat>, x: nat, y: nat)
    requires |w| >= 2
    ensures Eval(f, Quotient(f, w, x), y) == Xor(Mul(f, Eval(f, Quotient(f, Front(w), x), y), y), Eval(f, Front(w), x))
  {
    hide Mul, Xor, Eval;
    EvalAppend(f, Quotient(f, Front(w), x), Eval(f, Front(w), x), y);
  }

  /** The error evaluator: the first |w| - 1 terms of the product of the syndromes with the recurrence. */
  ghost function Evaluator(f: Field, c: seq<nat>, s: seq<nat>, n: nat): (o: seq<nat>)
    ensures |o| == n
  {
    if n == 0 then [] else Evaluator(f, c, s, n - 1) + [Conv(f, c, s, n - 1)]
  }

  /** The evaluator is the weighted sum of the quotients. */
  lemma {:induction false} EvaluatorIsQuotientSum(f: Field, ys: seq<nat>, xs: seq<nat>, s: seq<nat>, c: seq<nat>, n: nat, y: nat)
    requires Errors(f, ys, xs, s) && n <= |s| && n < |c|
    ensures Eval(f, Evaluator(f, c, s, n), y) == QuotientSum(f, ys, xs, c[..n + 1], y)
    decreases n
  {
    hide Mul, Xor, Eval, Conv, PowerSum, Weigh, Quotient, QuotientSum, In, NN;
    if n == 0 {
      assert Eval(f, Evaluator(f, c, s, 0), y) == 0 by { EvalZeros(f, [], y); }
      EmptyQuotients(f, ys, xs, c[..1], y);
    } else {
      EvaluatorIsQuotientSum(f, ys, xs, s, c, n - 1, y);
      EvalAppend(f, Evaluator(f, c, s, n - 1), Conv(f, c, s, n - 1), y);
      assert Front(c[..n + 1]) == c[..n];
      QuotientSumStep(f, ys, xs, c[..n + 1], y);
      ConvCut(f, c, s, n - 1, n);
      ConvIsPowerSum(f, c[..n], ys, xs, s, n - 1);
    }
  }

  lemma {:induction false} EmptyQuotients(f: Field, ys: seq<nat>, xs: seq<nat>, w: seq<nat>, y: nat)
    requires |ys| == |xs| && |w| == 1
    ensures QuotientSum(f, ys, xs, w, y) == 0
  {
    hide Mul, Xor;
    if ys != [] {
      EmptyQuotients(f, Front(ys), Front(xs), w, y);
      EvalZeros(f, Quotient(f, w, Last(xs)), y);
      MulZero(f, Last(ys));
      XorZero(0);
    }
  }

  /** At a locator only its own quotient survives. */
  lemma {:induction false} QuotientSumAtRoot(f: Field, ys: seq<nat>, xs: seq<nat>, w: seq<nat>, x: nat)
    requires |ys| == |xs| && w != [] && AllIn(f, w) && AllIn(f, xs) && Distinct(xs) && In(f, x) && Eval(f, w, x) == 0
    requires forall l :: 0 <= l < |xs| ==> Eval(f, w, xs[l]) == 0
    ensures x !in xs ==> QuotientSum(f, ys, xs, w, x) == 0
    ensures forall l :: 0 <= l < |xs| && xs[l] == x ==>
              QuotientSum(f, ys, xs, w, x) == Mul(f, ys[l], Eval(f, Quotient(f, w, x), x))
    decreases |ys|
  {
    hide Mul, Xor, Eval, Quotient, In, NN;
    if ys != [] {
      var fx := Front(xs);
      assert forall l {:trigger fx[l]} :: 0 <= l < |fx| ==> fx[l] == xs[l];
      QuotientSumAtRoot(f, Front(ys), fx, w, x);
      var e := Eval(f, Quotient(f, w, Last(xs)), x);
      if Last(xs) == x {
        XorZero(Mul(f, Last(ys), e));
      } else {
        QuotientRoot(f, w, Last(xs), x);
        MulZero(f, Last(ys));
        XorZero(QuotientSum(f, Front(ys), fx, w, x));
      }
    }
  }

  /** A locator is a simple root: its quotient does not vanish there. */
  lemma SimpleRoot(f: Field, xs: seq<nat>, w: seq<nat>, m: nat)
    requires AllIn(f, w) && AllIn(f, xs) && Distinct(xs) && m < |xs| == |w| - 1 && w[0] == 1
    requires forall l :: 0 <= l < |xs| ==> Eval(f, w, xs[l]) == 0
    ensures Eval(f, Quotient(f, w, xs[m]), xs[m]) != 0
  {
    hide Mul, Xor, Eval, Quotient, In, NN;
    var q := Quotient(f, w, xs[m]);
    if Eval(f, q, xs[m]) == 0 {
      forall l | 0 <= l < |xs| ensures Eval(f, q, xs[l]) == 0 {
        if l != m { QuotientRoot(f, w, xs[m], xs[l]); }
      }
      QuotientIn(f, w, xs[m]);
      TooManyRoots(f, q, xs);
      ZeroQuotient(f, w, xs[m]);
    }
  }

  /** The formal derivative: every other coefficient. */
  function Derivative(w: seq<nat>): (d: seq<nat>)
    requires w != []
    ensures |d| == |w| - 1
  {
    if |w| == 1 then [] else Derivative(Front(w)) + [if |w| % 2 == 0 then Last(w) else 0]
  }

  /** The derivative at x is x times the quotient by y + x, up to the value at x itself. */
  lemma {:induction false} DerivativeEval(f: Field, w: seq<nat>, x: nat)
    requires w != []
    ensures Eval(f, Derivative(w), x)
            == Xor(Mul(f, Eval(f, Quotient(f, w, x), x), x), if |w| % 2 == 0 then Eval(f, w, x) else 0)
    decreases |w|
  {
    hide Mul, Xor, Eval, Quotient, Derivative;
    if |w| == 1 {
      EvalZeros(f, Derivative(w), x);
      EvalZeros(f, Quotient(f, w, x), x);
      MulZero(f, x);
      XorZero(0);
    } else {
      var v, a := Front(w), Last(w);
      DerivativeEval(f, v, x);
      DerivativeUnfolds(f, w, x);
      LastQuotient(f, w, x, x);
      DerivativeAlgebra(f, Eval(f, Quotient(f, v, x), x), Eval(f, v, x), a, x);
    }
  }

  lemma DerivativeUnfolds(f: Field, w: seq<nat>, x: nat)
    requires |w| >= 2
    ensures Eval(f, Derivative(w), x)
            == Xor(Mul(f, Eval(f, Derivative(Front(w)), x), x), if |w| % 2 == 0 then Last(w) else 0)
    ensures Eval(f, w, x) == Xor(Mul(f, Eval(f, Front(w), x), x), Last(w))
  {
    hide Mul, Xor;
    FrontOfAppend(Derivative(Front(w)), if |w| % 2 == 0 then Last(w) else 0);
  }

  /** (q x) x + a  =  (q x + c) x + (c x + a)  and  (q x + c) x + 0  =  (q x + c) x + 0, the two parities. */
  lemma DerivativeAlgebra(f: Field, q: nat, c: nat, a: nat, x: nat)
    ensures Xor(Mul(f, Xor(Mul(f, q, x), 0), x), a) == Xor(Mul(f, Xor(Mul(f, q, x), c), x), Xor(Mul(f, c, x), a))
    ensures Xor(Mul(f, Xor(Mul(f, q, x), c), x), 0) == Mul(f, Xor(Mul(f, q, x), c), x)
  {
    hide *;
    MulDistributes(f, Mul(f, q, x), c, x);
    var A, C := Mul(f, Mul(f, q, x), x), Mul(f, c, x);
    XorZero(Mul(f, q, x));
    XorZero(Xor(A, C));
    XorAssociates(A, C, Xor(C, a));
    XorCancel(C, a);
  }

  // ---------------------------------------------------------------- words read from the other end

  /** The value of a word whose first symbol is the constant coefficient. */
  ghost function LowEval(f: Field, p: seq<nat>, x: nat): nat {
    if p == [] then 0 else Xor(LowEval(f, Front(p), x), Mul(f, Last(p), Pow(f, x, |p| - 1)))
  }

  /** Reading a word from the other end turns it around a power of the inverse. */
  lemma {:induction false} ReverseEval(f: Field, p: seq<nat>, x: nat, y: nat)
    requires p != [] && AllIn(f, p) && Mul(f, x, y) == 1
    ensures Eval(f, p, y) == Mul(f, Pow(f, y, |p| - 1), LowEval(f, p, x))
    decreases |p|
  {
    hide Mul, Xor;
    if |p| == 1 {
      assert Front(p) == [];
      assert p == [p[0]];
      EvalSingle(f, p[0], y);
      MulOne(f, p[0]);
      XorZero(p[0]);
    } else {
      ReverseEval(f, Front(p), x, y);
      var k, a, E := |p| - 1, Last(p), LowEval(f, Front(p), x);
      InversePowers(f, x, y, k);
      MulDistributes(f, E, Mul(f, a, Pow(f, x, k)), Pow(f, y, k));
      MulSwapLeft(f, Pow(f, y, k), a, Pow(f, x, k));
      MulCommutes(f, Pow(f, y, k), Pow(f, x, k));
      MulOne(f, a);
      MulSwap(f, Pow(f, y, k - 1), y, E);
    }
  }

  lemma {:induction false} InversePowers(f: Field, x: nat, y: nat, k: nat)
    requires Mul(f, x, y) == 1
    ensures Mul(f, Pow(f, x, k), Pow(f, y, k)) == 1
  {
    hide Mul;
    FieldSize(f);
    MulOne(f, 1);
    if k > 0 {
      InversePowers(f, x, y, k - 1);
      var p, q := Pow(f, x, k - 1), Pow(f, y, k - 1);
      MulAssociates(f, p, x, Mul(f, q, y));
      MulSwapLeft(f, x, q, y);
      PowIn(f, y, k - 1);
      MulOne(f, q);
    }
  }

  /** w vanishes at every locator and has no other roots to spare. */
  ghost predicate Locates(f: Field, w: seq<nat>, xs: seq<nat>) {
    && AllIn(f, w) && AllIn(f, xs) && Distinct(xs) && |w| == |xs| + 1 && w[0] == 1
    && forall l :: 0 <= l < |xs| ==> xs[l] != 0 && Eval(f, w, xs[l]) == 0
  }

  /** The value at a locator of the quotient by that locator. */
  ghost function OwnQuotient(f: Field, w: seq<nat>, x: nat): nat
    requires w != []
  {
    Eval(f, Quotient(f, w, x), x)
  }

  lemma EvaluatorAtLocator(f: Field, ys: seq<nat>, xs: seq<nat>, s: seq<nat>, c: seq<nat>, m: nat)
    requires Errors(f, ys, xs, s) && m < |xs| <= |s| && |xs| < |c| && Locates(f, c[..|xs| + 1], xs)
    ensures Eval(f, Evaluator(f, c, s, |xs|), xs[m]) == Mul(f, ys[m], OwnQuotient(f, c[..|xs| + 1], xs[m]))
  {
    hide Mul, Xor, Eval, Quotient, In, NN, Evaluator, QuotientSum;
    EvaluatorIsQuotientSum(f, ys, xs, s, c, |xs|, xs[m]);
    QuotientSumAtRoot(f, ys, xs, c[..|xs| + 1], xs[m]);
  }

  lemma DerivativeAtLocator(f: Field, w: seq<nat>, xs: seq<nat>, m: nat)
    requires Locates(f, w, xs) && m < |xs|
    ensures Eval(f, Derivative(w), xs[m]) == Mul(f, OwnQuotient(f, w, xs[m]), xs[m])
    ensures OwnQuotient(f, w, xs[m]) != 0 && In(f, OwnQuotient(f, w, xs[m]))
  {
    hide Mul, Xor, Eval, Quotient, NN, Derivative;
    DerivativeEval(f, w, xs[m]);
    XorZero(Mul(f, OwnQuotient(f, w, xs[m]), xs[m]));
    SimpleRoot(f, xs, w, m);
    QuotientIn(f, w, xs[m]);
    EvalIn(f, Quotient(f, w, xs[m]), xs[m]);
  }

  /** Forney's formula: the evaluator at the inverse of a locator, times the locator, is the weight times the
      derivative there. */
  lemma ForneyFormula(f: Field, ys: seq<nat>, xs: seq<nat>, s: seq<nat>, c: seq<nat>, m: nat, x: nat)
    requires |ys| == |xs| && Errors(f, ys, xs, s)
    requires m < |xs| <= |s| && |xs| < |c| && Locates(f, c[..|xs| + 1], xs) && Mul(f, x, xs[m]) == 1
    ensures var n := |xs|;
            var num, den := LowEval(f, Evaluator(f, c, s, n), x), LowEval(f, Derivative(c[..n + 1]), x);
            Mul(f, num, xs[m]) == Mul(f, ys[m], den) && den != 0
  {
    hide *;
    var n, w, X := |xs|, c[..|xs| + 1], xs[m];
    EvaluatorAtLocator(f, ys, xs, s, c, m);
    DerivativeAtLocator(f, w, xs, m);
    EvaluatorIn(f, c, s, n);
    assert AllIn(f, w) && In(f, X) && X != 0 by { LocatesParts(f, w, xs, m); }
    DerivativeIn(f, w);
    ReverseEval(f, Evaluator(f, c, s, n), x, X);
    ReverseEval(f, Derivative(w), x, X);
    LowEvalIn(f, Evaluator(f, c, s, n), x);
    LowEvalIn(f, Derivative(w), x);
    CancelPower(f, Pow(f, X, n - 1), LowEval(f, Evaluator(f, c, s, n), x), LowEval(f, Derivative(w), x),
                ys[m], OwnQuotient(f, w, X), X, n);
  }

  lemma LocatesParts(f: Field, w: seq<nat>, xs: seq<nat>, m: nat)
    requires Locates(f, w, xs) && m < |xs|
    ensures AllIn(f, w) && In(f, xs[m]) && xs[m] != 0
  {}

  lemma CancelPower(f: Field, P: nat, num: nat, den: nat, y: nat, q: nat, X: nat, n: nat)
    requires n >= 1 && P == Pow(f, X, n - 1) && In(f, X) && X != 0 && In(f, q) && q != 0
    requires Mul(f, P, num) == Mul(f, y, q) && Mul(f, P, den) == Mul(f, q, X)
    ensures Mul(f, num, X) == Mul(f, y, den) && den != 0
  {
    hide Mul, Pow, In, NN;
    PowNonzero(f, X, n - 1);
    PowIn(f, X, n - 1);
    MulIn(f, num, X);
    MulIn(f, y, den);
    MulAssociates(f, P, num, X);
    MulAssociates(f, y, q, X);
    MulSwapLeft(f, y, P, den);
    MulCommutes(f, P, Mul(f, num, X));
    MulCommutes(f, P, Mul(f, y, den));
    MulCancel(f, Mul(f, num, X), Mul(f, y, den), P);
    MulZero(f, P);
    if Mul(f, q, X) == 0 { MulNonzero(f, q, X); }
  }

  lemma {:induction false} EvaluatorIn(f: Field, c: seq<nat>, s: seq<nat>, n: nat)
    ensures AllIn(f, Evaluator(f, c, s, n))
  {
    hide Conv, In;
    if n > 0 {
      EvaluatorIn(f, c, s, n - 1);
      ConvIn(f, c, s, n - 1);
    }
  }

  lemma {:induction false} DerivativeIn(f: Field, w: seq<nat>)
    requires w != [] && AllIn(f, w)
    ensures AllIn(f, Derivative(w))
    decreases |w|
  {
    if |w| > 1 { DerivativeIn(f, Front(w)); }
  }

  lemma {:induction false} LowEvalIn(f: Field, p: seq<nat>, x: nat)
    ensures In(f, LowEval(f, p, x))
  {
    hide Mul, Xor;
    if p != [] {
      LowEvalIn(f, Front(p), x);
      MulIn(f, Last(p), Pow(f, x, |p| - 1));
      XorIn(f, LowEval(f, Front(p), x), Mul(f, Last(p), Pow(f, x, |p| - 1)));
    }
  }
}
