/** Words over the field, read as polynomials whose first symbol is the leading coefficient. */
module Words {
  import opened Bits
  import opened ExclusiveOr
  import opened GaloisField
  import opened Sequences

  ghost predicate AllIn(f: Field, w: seq<nat>) {
    forall i :: 0 <= i < |w| ==> In(f, w[i])
  }

  /** Horner evaluation of a word at x. */
  ghost function Eval(f: Field, w: seq<nat>, x: nat): nat {
    if w == [] then 0 else Xor(Mul(f, Eval(f, Front(w), x), x), Last(w))
  }

  ghost function Pow(f: Field, x: nat, k: nat): nat {
    if k == 0 then 1 else Mul(f, Pow(f, x, k - 1), x)
  }

  function Sum(a: seq<nat>, b: seq<nat>): (c: seq<nat>)
    requires |a| == |b|
    ensures |c| == |a|
  {
    if a == [] then [] else Sum(Front(a), Front(b)) + [Xor(Last(a), Last(b))]
  }

  ghost function Scale(f: Field, c: nat, w: seq<nat>): (v: seq<nat>)
    ensures |v| == |w|
  {
    if w == [] then [] else Scale(f, c, Front(w)) + [Mul(f, c, Last(w))]
  }

  // ---------------------------------------------------------------- regrouping products and sums

  lemma MulSwap(f: Field, a: nat, b: nat, c: nat)
    ensures Mul(f, Mul(f, a, b), c) == Mul(f, Mul(f, a, c), b)
  {
    hide *;
    MulAssociates(f, a, b, c);
    MulCommutes(f, b, c);
    MulAssociates(f, a, c, b);
  }

  lemma MulSwapLeft(f: Field, a: nat, b: nat, c: nat)
    ensures Mul(f, a, Mul(f, b, c)) == Mul(f, b, Mul(f, a, c))
  {
    hide *;
    MulAssociates(f, a, b, c);
    MulCommutes(f, a, b);
    MulAssociates(f, b, a, c);
  }

  lemma XorIn(f: Field, a: nat, b: nat)
    requires In(f, a) && In(f, b)
    ensures In(f, Xor(a, b))
  {
    XorBound(a, b, f.mm);
  }

  lemma {:induction false} EvalIn(f: Field, w: seq<nat>, x: nat)
    requires AllIn(f, w)
    ensures In(f, Eval(f, w, x))
  {
    hide Mul, Xor;
    if w != [] {
      MulIn(f, Eval(f, Front(w), x), x);
      XorIn(f, Mul(f, Eval(f, Front(w), x), x), Last(w));
    }
  }

  lemma {:induction false} EvalSum(f: Field, a: seq<nat>, b: seq<nat>, x: nat)
    requires |a| == |b|
    ensures Eval(f, Sum(a, b), x) == Xor(Eval(f, a, x), Eval(f, b, x))
    decreases |a|
  {
    hide Mul, Xor;
    if a == [] {
      XorZero(0);
    } else {
      EvalSum(f, Front(a), Front(b), x);
      FrontOfAppend(Sum(Front(a), Front(b)), Xor(Last(a), Last(b)));
      var p, q := Eval(f, Front(a), x), Eval(f, Front(b), x);
      MulDistributes(f, p, q, x);
      XorShuffle(Mul(f, p, x), Mul(f, q, x), Last(a), Last(b));
    }
  }

  lemma {:induction false} EvalScale(f: Field, c: nat, w: seq<nat>, x: nat)
    ensures Eval(f, Scale(f, c, w), x) == Mul(f, c, Eval(f, w, x))
  {
    hide Mul, Xor;
    if w == [] {
      MulZero(f, c);
    } else {
      EvalScale(f, c, Front(w), x);
      FrontOfAppend(Scale(f, c, Front(w)), Mul(f, c, Last(w)));
      var e := Eval(f, Front(w), x);
      MulAssociates(f, c, e, x);
      MulDistributes(f, Mul(f, e, x), Last(w), c);
    }
  }

  lemma EvalAppend(f: Field, w: seq<nat>, a: nat, x: nat)
    ensures Eval(f, w + [a], x) == Xor(Mul(f, Eval(f, w, x), x), a)
  {
    FrontOfAppend(w, a);
  }

  lemma EvalSingle(f: Field, a: nat, x: nat)
    ensures Eval(f, [a], x) == a
  {
    hide Mul, Xor;
    assert Front([a]) == [];
    MulZero(f, x);
    XorZero(a);
  }

  /** The leading symbol counts with the highest power. */
  lemma {:induction false} EvalPrepend(f: Field, a: nat, w: seq<nat>, x: nat)
    requires In(f, a)
    ensures Eval(f, [a] + w, x) == Xor(Mul(f, a, Pow(f, x, |w|)), Eval(f, w, x))
    decreases |w|
  {
    hide Mul, Xor;
    if w == [] {
      assert [a] + w == [a] && Front([a]) == [];
      MulZero(f, x);
      XorZero(a);
      MulOne(f, a);
    } else {
      EvalPrepend(f, a, Front(w), x);
      assert Front([a] + w) == [a] + Front(w);
      var p, e := Pow(f, x, |w| - 1), Eval(f, Front(w), x);
      MulDistributes(f, Mul(f, a, p), e, x);
      MulAssociates(f, a, p, x);
      XorAssociates(Mul(f, Mul(f, a, p), x), Mul(f, e, x), Last(w));
    }
  }

  lemma {:induction false} EvalZeros(f: Field, w: seq<nat>, x: nat)
    requires forall i :: 0 <= i < |w| ==> w[i] == 0
    ensures Eval(f, w, x) == 0
  {
    hide Mul, Xor;
    if w != [] {
      EvalZeros(f, Front(w), x);
      MulZero(f, x);
      XorZero(0);
    }
  }

  /** Leading zeros do not count. */
  lemma {:induction false} EvalPadded(f: Field, pad: seq<nat>, w: seq<nat>, x: nat)
    requires forall i :: 0 <= i < |pad| ==> pad[i] == 0
    ensures Eval(f, pad + w, x) == Eval(f, w, x)
    decreases |w|
  {
    if w == [] {
      assert pad + w == pad;
      EvalZeros(f, pad, x);
    } else {
      EvalPadded(f, pad, Front(w), x);
      assert Front(pad + w) == pad + Front(w);
    }
  }

  lemma {:induction false} PowIn(f: Field, x: nat, k: nat)
    ensures In(f, Pow(f, x, k))
  {
    if k == 0 { FieldSize(f); } else { MulIn(f, Pow(f, x, k - 1), x); }
  }

  lemma {:induction false} PowAdd(f: Field, x: nat, j: nat, k: nat)
    ensures Pow(f, x, j + k) == Mul(f, Pow(f, x, j), Pow(f, x, k))
  {
    hide Mul;
    if k == 0 {
      PowIn(f, x, j);
      MulOne(f, Pow(f, x, j));
    } else {
      PowAdd(f, x, j, k - 1);
      MulAssociates(f, Pow(f, x, j), Pow(f, x, k - 1), x);
    }
  }

  lemma {:induction false} PowNonzero(f: Field, x: nat, k: nat)
    requires In(f, x) && x != 0
    ensures Pow(f, x, k) != 0
  {
    hide Mul;
    if k > 0 {
      PowNonzero(f, x, k - 1);
      PowIn(f, x, k - 1);
      if Pow(f, x, k) == 0 { MulNonzero(f, Pow(f, x, k - 1), x); }
    }
  }

  lemma {:induction false} PowAlpha(f: Field, i: nat, k: nat)
    ensures Pow(f, Alpha(f, i), k) == Alpha(f, i * k)
  {
    hide Mul;
    if k > 0 {
      PowAlpha(f, i, k - 1);
      MulAlphas(f, i * (k - 1), i);
      assert i * (k - 1) + i == i * k;
    }
  }

  /** A common factor can be cancelled. */
  lemma MulCancel(f: Field, a: nat, b: nat, c: nat)
    requires In(f, a) && In(f, b) && In(f, c) && c != 0 && Mul(f, a, c) == Mul(f, b, c)
    ensures a == b
  {
    hide Mul, Xor;
    MulDistributes(f, a, b, c);
    XorZeroIffEqual(Mul(f, a, c), Mul(f, b, c));
    XorIn(f, a, b);
    MulNonzero(f, Xor(a, b), c);
    XorZeroIffEqual(a, b);
  }

  // ---------------------------------------------------------------- division by y + x and the number of roots

  /** The quotient of w by y + x: the values that Horner's scheme passes through at x, without the last. */
  ghost function Quotient(f: Field, w: seq<nat>, x: nat): (q: seq<nat>)
    requires w != []
    ensures |q| == |w| - 1
  {
    if |w| == 1 then [] else Quotient(f, Front(w), x) + [Eval(f, Front(w), x)]
  }

  /** w(y) = (y + x) q(y) + w(x). */
  lemma {:induction false} Division(f: Field, w: seq<nat>, x: nat, y: nat)
    requires w != [] && AllIn(f, w)
    ensures Eval(f, w, y) == Xor(Mul(f, Xor(y, x), Eval(f, Quotient(f, w, x), y)), Eval(f, w, x))
    decreases |w|
  {
    hide Mul, Xor;
    if |w| == 1 {
      MulZero(f, x); MulZero(f, y); MulZero(f, Xor(y, x));
      assert Front(w) == [];
      XorZero(Last(w));
    } else {
      Division(f, Front(w), x, y);
      var v, q := Front(w), Quotient(f, Front(w), x);
      EvalAppend(f, q, Eval(f, v, x), y);
      DivisionStep(f, Eval(f, q, y), Eval(f, v, x), Last(w), x, y);
    }
  }

  /** ((y+x) q + c) y + a  =  (y+x) (q y + c) + (c x + a). */
  lemma DivisionStep(f: Field, q: nat, c: nat, a: nat, x: nat, y: nat)
    ensures Xor(Mul(f, Xor(Mul(f, Xor(y, x), q), c), y), a)
            == Xor(Mul(f, Xor(y, x), Xor(Mul(f, q, y), c)), Xor(Mul(f, c, x), a))
  {
    hide *;
    var s := Xor(y, x);
    var A, B, C := Mul(f, s, Mul(f, q, y)), Mul(f, c, y), Mul(f, c, x);
    MulDistributes(f, Mul(f, s, q), c, y);
    MulAssociates(f, s, q, y);
    MulDistributes(f, Mul(f, q, y), c, s);
    MulCommutes(f, s, c);
    MulDistributes(f, y, x, c);
    // left: (A + B) + a; right: (A + (B + C)) + (C + a)
    XorAssociates(A, B, C);
    XorAssociates(Xor(A, B), C, Xor(C, a));
    XorCancel(C, a);
    XorAssociates(C, C, a);
  }

  ghost predicate Distinct(xs: seq<nat>) {
    forall i, j :: 0 <= i < j < |xs| ==> xs[i] != xs[j]
  }

  /** A word with at least as many different roots as symbols is zero. */
  lemma {:induction false} TooManyRoots(f: Field, w: seq<nat>, xs: seq<nat>)
    requires AllIn(f, w) && AllIn(f, xs) && Distinct(xs) && |xs| >= |w|
    requires forall i :: 0 <= i < |xs| ==> Eval(f, w, xs[i]) == 0
    ensures forall i :: 0 <= i < |w| ==> w[i] == 0
    decreases |w|
  {
    if w != [] {
      var x, q := Last(xs), Quotient(f, w, Last(xs));
      QuotientIn(f, w, x);
      forall i | 0 <= i < |xs| - 1 ensures Eval(f, q, xs[i]) == 0 {
        QuotientRoot(f, w, x, xs[i]);
      }
      TooManyRoots(f, q, Front(xs));
      ZeroQuotient(f, w, x);
    }
  }

  lemma {:induction false} QuotientIn(f: Field, w: seq<nat>, x: nat)
    requires w != [] && AllIn(f, w)
    ensures AllIn(f, Quotient(f, w, x))
    decreases |w|
  {
    if |w| > 1 {
      QuotientIn(f, Front(w), x);
      EvalIn(f, Front(w), x);
    }
  }

  /** Another root of w is a root of the quotient. */
  lemma QuotientRoot(f: Field, w: seq<nat>, x: nat, y: nat)
    requires w != [] && AllIn(f, w) && In(f, x) && In(f, y) && x != y
    requires Eval(f, w, x) == 0 && Eval(f, w, y) == 0
    ensures Eval(f, Quotient(f, w, x), y) == 0
  {
    hide Mul, Xor, Eval;
    var q := Quotient(f, w, x);
    Division(f, w, x, y);
    XorZero(Mul(f, Xor(y, x), Eval(f, q, y)));
    QuotientIn(f, w, x);
    EvalIn(f, q, y);
    XorIn(f, y, x);
    XorZeroIffEqual(y, x);
    MulNonzero(f, Xor(y, x), Eval(f, q, y));
  }

  /** If the quotient is zero and x is a root then w is zero. */
  lemma {:induction false} ZeroQuotient(f: Field, w: seq<nat>, x: nat)
    requires w != [] && Eval(f, w, x) == 0
    requires forall i :: 0 <= i < |w| - 1 ==> Quotient(f, w, x)[i] == 0
    ensures forall i :: 0 <= i < |w| ==> w[i] == 0
    decreases |w|
  {
    hide Mul, Xor;
    MulZero(f, x);
    if |w| == 1 {
      assert Front(w) == [];
      XorZero(Last(w));
    } else {
      var v := Front(w);
      FrontOfAppend(Quotient(f, v, x), Eval(f, v, x));
      assert Quotient(f, w, x)[|w| - 2] == Eval(f, v, x) == 0;
      forall i | 0 <= i < |v| - 1 ensures Quotient(f, v, x)[i] == 0 { assert Quotient(f, w, x)[i] == 0; }
      ZeroQuotient(f, v, x);
      XorZero(Last(w));
    }
  }
}
