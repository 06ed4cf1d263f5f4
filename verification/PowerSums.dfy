/** Sums of weighted powers, the recurrences they satisfy, and shortest recurrences. */
module PowerSums {
  import opened Bits
  import opened ExclusiveOr
  import opened GaloisField
  import opened Sequences
  import opened Words

  /** The sum of ys[l] * xs[l]^j. */
  ghost function PowerSum(f: Field, ys: seq<nat>, xs: seq<nat>, j: nat): nat
    requires |ys| == |xs|
  {
    if ys == [] then 0
    else Xor(PowerSum(f, Front(ys), Front(xs), j), Mul(f, Last(ys), Pow(f, Last(xs), j)))
  }

  /** Every weight ys[l] multiplied by the value of w at xs[l]. */
  ghost function Weigh(f: Field, ys: seq<nat>, xs: seq<nat>, w: seq<nat>): (zs: seq<nat>)
    requires |ys| == |xs|
    ensures |zs| == |ys|
  {
    if ys == [] then []
    else Weigh(f, Front(ys), Front(xs), w) + [Mul(f, Last(ys), Eval(f, w, Last(xs)))]
  }

  lemma {:induction false} WeighAt(f: Field, ys: seq<nat>, xs: seq<nat>, w: seq<nat>, l: nat)
    requires |ys| == |xs| && l < |ys|
    ensures Weigh(f, ys, xs, w)[l] == Mul(f, ys[l], Eval(f, w, xs[l]))
  {
    if l < |ys| - 1 { WeighAt(f, Front(ys), Front(xs), w, l); }
  }

  lemma {:induction false} PowerSumIn(f: Field, ys: seq<nat>, xs: seq<nat>, j: nat)
    requires |ys| == |xs|
    ensures In(f, PowerSum(f, ys, xs, j))
  {
    hide Mul, Xor;
    if ys != [] {
      PowerSumIn(f, Front(ys), Front(xs), j);
      MulIn(f, Last(ys), Pow(f, Last(xs), j));
      XorIn(f, PowerSum(f, Front(ys), Front(xs), j), Mul(f, Last(ys), Pow(f, Last(xs), j)));
    }
  }

  lemma {:induction false} PowerSumOfZeros(f: Field, ys: seq<nat>, xs: seq<nat>, j: nat)
    requires |ys| == |xs| && forall l :: 0 <= l < |ys| ==> ys[l] == 0
    ensures PowerSum(f, ys, xs, j) == 0
  {
    hide Mul, Xor;
    if ys != [] {
      PowerSumOfZeros(f, Front(ys), Front(xs), j);
      MulZero(f, Pow(f, Last(xs), j));
      XorZero(0);
    }
  }

  /** One more symbol in the weighing word. */
  lemma {:induction false} WeighStep(f: Field, ys: seq<nat>, xs: seq<nat>, w: seq<nat>, a: nat, k: nat)
    requires |ys| == |xs|
    ensures PowerSum(f, Weigh(f, ys, xs, w + [a]), xs, k)
            == Xor(PowerSum(f, Weigh(f, ys, xs, w), xs, k + 1), Mul(f, a, PowerSum(f, ys, xs, k)))
  {
    hide Mul, Xor, Eval, Pow;
    if ys == [] {
      MulZero(f, a);
      XorZero(0);
    } else {
      var y, x, e := Last(ys), Last(xs), Eval(f, w, Last(xs));
      WeighStep(f, Front(ys), Front(xs), w, a, k);
      EvalAppend(f, w, a, x);
      FrontOfAppend(Weigh(f, Front(ys), Front(xs), w), Mul(f, y, e));
      FrontOfAppend(Weigh(f, Front(ys), Front(xs), w + [a]), Mul(f, y, Xor(Mul(f, e, x), a)));
      WeighTerm(f, y, x, e, a, k);
      var P, Q := PowerSum(f, Weigh(f, Front(ys), Front(xs), w), Front(xs), k + 1), PowerSum(f, Front(ys), Front(xs), k);
      XorShuffle(P, Mul(f, a, Q), Mul(f, Mul(f, y, e), Pow(f, x, k + 1)), Mul(f, a, Mul(f, y, Pow(f, x, k))));
      MulDistributes(f, Q, Mul(f, y, Pow(f, x, k)), a);
    }
  }

  /** y (e x + a) x^k = (y e) x^(k+1) + a (y x^k). */
  lemma WeighTerm(f: Field, y: nat, x: nat, e: nat, a: nat, k: nat)
    ensures Mul(f, Mul(f, y, Xor(Mul(f, e, x), a)), Pow(f, x, k))
            == Xor(Mul(f, Mul(f, y, e), Pow(f, x, k + 1)), Mul(f, a, Mul(f, y, Pow(f, x, k))))
  {
    hide Mul, Xor;
    var p := Pow(f, x, k);
    MulDistributes(f, Mul(f, e, x), a, y);
    MulDistributes(f, Mul(f, y, Mul(f, e, x)), Mul(f, y, a), p);
    MulAssociates(f, y, e, x);
    MulAssociates(f, Mul(f, y, e), x, p);
    MulCommutes(f, x, p);
    MulCommutes(f, y, a);
    MulAssociates(f, a, y, p);
  }

  // ---------------------------------------------------------------- recurrences

  function At(s: seq<nat>, k: int): nat { if 0 <= k < |s| then s[k] else 0 }

  /** The sum of c[i] * s[j - i], where s is zero outside its range. */
  ghost function Conv(f: Field, c: seq<nat>, s: seq<nat>, j: int): nat {
    if c == [] then 0
    else Xor(Conv(f, Front(c), s, j), Mul(f, Last(c), At(s, j - (|c| - 1))))
  }

  /** On power sums, a recurrence acts by weighing. */
  lemma {:induction false} ConvIsPowerSum(f: Field, c: seq<nat>, ys: seq<nat>, xs: seq<nat>, s: seq<nat>, j: nat)
    requires |ys| == |xs| && |c| <= j + 1 && j < |s|
    requires forall m :: 0 <= m < |s| ==> s[m] == PowerSum(f, ys, xs, m)
    ensures Conv(f, c, s, j) == PowerSum(f, Weigh(f, ys, xs, c), xs, j + 1 - |c|)
    decreases |c|
  {
    hide Mul, Xor, PowerSum;
    if c == [] {
      forall l | 0 <= l < |ys| ensures Weigh(f, ys, xs, c)[l] == 0 {
        WeighAt(f, ys, xs, c, l);
        MulZero(f, ys[l]);
      }
      PowerSumOfZeros(f, Weigh(f, ys, xs, c), xs, j + 1);
    } else {
      ConvIsPowerSum(f, Front(c), ys, xs, s, j);
      FrontLast(c);
      WeighStep(f, ys, xs, Front(c), Last(c), j + 1 - |c|);
    }
  }

  /** If the weighted power sums vanish for as many consecutive exponents as there are different elements,
      all weights are zero. */
  lemma {:induction false} VanishingSums(f: Field, ys: seq<nat>, xs: seq<nat>, k: nat)
    requires |ys| == |xs| && AllIn(f, ys) && AllIn(f, xs) && Distinct(xs)
    requires forall l :: 0 <= l < |xs| ==> xs[l] != 0
    requires forall j :: k <= j < k + |xs| ==> PowerSum(f, ys, xs, j) == 0
    ensures forall l :: 0 <= l < |ys| ==> ys[l] == 0
    decreases |ys|
  {
    hide Mul, Xor, Pow, PowerSum, In;
    if ys != [] {
      var n, a := |ys| - 1, Last(xs);
      var zs := Weigh(f, ys, xs, [1, a]);
      forall l | 0 <= l < |ys| ensures zs[l] == Mul(f, ys[l], Xor(xs[l], a)) && In(f, zs[l]) {
        WeighAt(f, ys, xs, [1, a], l);
        EvalRoot(f, a, xs[l]);
        MulIn(f, ys[l], Xor(xs[l], a));
      }
      forall j | k <= j < k + n ensures PowerSum(f, Front(zs), Front(xs), j) == 0 {
        EliminateLast(f, ys, xs, j);
      }
      VanishingSums(f, Front(zs), Front(xs), k);
      forall l | 0 <= l < n ensures ys[l] == 0 {
        assert Front(zs)[l] == 0 == zs[l];
        XorZeroIffEqual(xs[l], a);
        XorIn(f, xs[l], a);
        MulNonzero(f, ys[l], Xor(xs[l], a));
      }
      OnlyLast(f, ys, xs, k);
    }
  }

  lemma EvalRoot(f: Field, a: nat, x: nat)
    requires In(f, x)
    ensures Eval(f, [1, a], x) == Xor(x, a)
  {
    hide Mul, Xor;
    assert [1] + [a] == [1, a];
    EvalAppend(f, [1], a, x);
    EvalSingle(f, 1, x);
    MulOne(f, x);
  }

  /** Weighing with x + a, a the last element, leaves a vanishing sum over the other elements. */
  lemma EliminateLast(f: Field, ys: seq<nat>, xs: seq<nat>, j: nat)
    requires |ys| == |xs| > 0 && AllIn(f, xs)
    requires PowerSum(f, ys, xs, j) == 0 && PowerSum(f, ys, xs, j + 1) == 0
    ensures var zs := Weigh(f, ys, xs, [1, Last(xs)]); PowerSum(f, Front(zs), Front(xs), j) == 0
  {
    hide Mul, Xor, Pow;
    var a := Last(xs);
    var zs := Weigh(f, ys, xs, [1, a]);
    WeighOne(f, ys, xs, j + 1);
    assert [1] + [a] == [1, a];
    WeighStep(f, ys, xs, [1], a, j);
    MulZero(f, a);
    XorZero(0);
    WeighAt(f, ys, xs, [1, a], |ys| - 1);
    EvalRoot(f, a, a);
    XorSelf(a);
    MulZero(f, Last(ys));
    MulZero(f, Pow(f, a, j));
    XorZero(PowerSum(f, Front(zs), Front(xs), j));
  }

  lemma {:induction false} WeighOne(f: Field, ys: seq<nat>, xs: seq<nat>, j: nat)
    requires |ys| == |xs|
    ensures PowerSum(f, Weigh(f, ys, xs, [1]), xs, j) == PowerSum(f, ys, xs, j)
  {
    hide Mul, Xor, Pow;
    if ys != [] {
      WeighOne(f, Front(ys), Front(xs), j);
      EvalSingle(f, 1, Last(xs));
      FrontOfAppend(Weigh(f, Front(ys), Front(xs), [1]), Mul(f, Last(ys), 1));
      MulAssociates(f, Last(ys), 1, Pow(f, Last(xs), j));
      PowIn(f, Last(xs), j);
      MulOne(f, Pow(f, Last(xs), j));
    }
  }

  /** A vanishing sum whose weights are all zero but the last has a zero last weight. */
  lemma OnlyLast(f: Field, ys: seq<nat>, xs: seq<nat>, k: nat)
    requires |ys| == |xs| > 0 && In(f, Last(ys)) && In(f, Last(xs)) && Last(xs) != 0
    requires PowerSum(f, ys, xs, k) == 0 && forall l :: 0 <= l < |ys| - 1 ==> ys[l] == 0
    ensures Last(ys) == 0
  {
    hide Mul, Xor, Pow;
    PowerSumOfZeros(f, Front(ys), Front(xs), k);
    XorZero(Mul(f, Last(ys), Pow(f, Last(xs), k)));
    PowIn(f, Last(xs), k);
    PowNonzero(f, Last(xs), k);
    MulNonzero(f, Last(ys), Pow(f, Last(xs), k));
  }

  // ---------------------------------------------------------------- shortest recurrences

  /** c is monic of degree at most len and generates the first n terms of s from the first len ones. */
  ghost predicate Generates(f: Field, c: seq<nat>, len: nat, s: seq<nat>, n: nat) {
    && c != [] && c[0] == 1
    && (forall i :: len < i < |c| ==> c[i] == 0)
    && forall j :: len <= j < n ==> Conv(f, c, s, j) == 0
  }

  /** Two recurrences applied one after the other: the sum of b[i] * Conv(c, s, j - i). */
  ghost function Twice(f: Field, b: seq<nat>, c: seq<nat>, s: seq<nat>, j: int): nat {
    if b == [] then 0
    else Xor(Twice(f, Front(b), c, s, j), Mul(f, Last(b), Conv(f, c, s, j - (|b| - 1))))
  }

  lemma {:induction false} TwiceNone(f: Field, b: seq<nat>, s: seq<nat>, j: int)
    ensures Twice(f, b, [], s, j) == 0
  {
    hide Mul, Xor;
    if b != [] {
      TwiceNone(f, Front(b), s, j);
      MulZero(f, Last(b));
      XorZero(0);
    }
  }

  lemma {:induction false} TwiceStep(f: Field, b: seq<nat>, c: seq<nat>, s: seq<nat>, j: int)
    requires c != []
    ensures Twice(f, b, c, s, j) == Xor(Twice(f, b, Front(c), s, j), Mul(f, Last(c), Conv(f, b, s, j - (|c| - 1))))
  {
    hide Mul, Xor;
    if b == [] {
      MulZero(f, Last(c));
      XorZero(0);
    } else {
      TwiceStep(f, Front(b), c, s, j);
      var x, y, m := Last(b), Last(c), |c| - 1;
      var i := j - (|b| - 1);
      var T, U := Twice(f, Front(b), Front(c), s, j), Conv(f, Front(b), s, j - m);
      var V, w := Conv(f, Front(c), s, i), At(s, i - m);
      assert At(s, j - m - (|b| - 1)) == w;
      MulDistributes(f, V, Mul(f, y, w), x);
      MulSwapLeft(f, x, y, w);
      MulDistributes(f, U, Mul(f, x, w), y);
      XorShuffle(T, Mul(f, y, U), Mul(f, x, V), Mul(f, y, Mul(f, x, w)));
    }
  }

  /** Applying two recurrences one after the other does not depend on their order. */
  lemma {:induction false} TwiceCommutes(f: Field, b: seq<nat>, c: seq<nat>, s: seq<nat>, j: int)
    ensures Twice(f, b, c, s, j) == Twice(f, c, b, s, j)
    decreases |c|
  {
    hide Mul, Xor, Conv;
    if c == [] {
      TwiceNone(f, b, s, j);
    } else {
      TwiceStep(f, b, c, s, j);
      TwiceCommutes(f, b, Front(c), s, j);
    }
  }

  /** Where every term vanishes the sum does. */
  lemma {:induction false} TwiceZero(f: Field, b: seq<nat>, c: seq<nat>, s: seq<nat>, j: int)
    requires forall i :: 0 <= i < |b| ==> b[i] == 0 || Conv(f, c, s, j - i) == 0
    ensures Twice(f, b, c, s, j) == 0
    decreases |b|
  {
    hide Mul, Xor, Conv;
    if b != [] {
      TwiceZero(f, Front(b), c, s, j);
      MulZero(f, Last(b));
      MulZero(f, Conv(f, c, s, j - (|b| - 1)));
      XorZero(0);
    }
  }

  /** Where every term but the first vanishes the first one is the sum. */
  lemma {:induction false} TwiceFirst(f: Field, b: seq<nat>, c: seq<nat>, s: seq<nat>, j: int)
    requires b != [] && b[0] == 1 && In(f, Conv(f, c, s, j))
    requires forall i :: 1 <= i < |b| ==> b[i] == 0 || Conv(f, c, s, j - i) == 0
    ensures Twice(f, b, c, s, j) == Conv(f, c, s, j)
    decreases |b|
  {
    hide Mul, Xor, Conv;
    if |b| == 1 {
      assert Front(b) == [];
      MulOne(f, Conv(f, c, s, j));
      XorZero(Conv(f, c, s, j));
    } else {
      TwiceFirst(f, Front(b), c, s, j);
      MulZero(f, Last(b));
      MulZero(f, Conv(f, c, s, j - (|b| - 1)));
      XorZero(Conv(f, c, s, j));
    }
  }

  lemma {:induction false} ConvIn(f: Field, c: seq<nat>, s: seq<nat>, j: int)
    ensures In(f, Conv(f, c, s, j))
  {
    hide Mul, Xor;
    if c != [] {
      ConvIn(f, Front(c), s, j);
      MulIn(f, Last(c), At(s, j - (|c| - 1)));
      XorIn(f, Conv(f, Front(c), s, j), Mul(f, Last(c), At(s, j - (|c| - 1))));
    }
  }

  /** If b generates the first n terms with length len but misses the next one, no recurrence that gets
      the next one right is shorter than n + 1 - len. */
  lemma LengthMustGrow(f: Field, b: seq<nat>, len: nat, c: seq<nat>, len': nat, s: seq<nat>, n: nat)
    requires Generates(f, b, len, s, n) && Conv(f, b, s, n) != 0
    requires Generates(f, c, len', s, n + 1)
    ensures len + len' >= n + 1
  {
    hide Conv, Twice;
    if len + len' <= n {
      TwiceZero(f, b, c, s, n);
      TwiceCommutes(f, b, c, s, n);
      ConvIn(f, b, s, n);
      TwiceFirst(f, c, b, s, n);
      assert false;
    }
  }
}
