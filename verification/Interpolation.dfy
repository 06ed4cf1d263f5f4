/** The converse of error location: the roots of a shortest recurrence are locators, with weights that turn its terms
    into power sums. */
module Interpolation {
  import opened BerlekampMassey
  import opened Bits
  import opened ErrorLocation
  import opened ExclusiveOr
  import opened GaloisField
  import opened PowerSums
  import opened Sequences
  import opened Words

  // ---------------------------------------------------------------- division

  ghost function Inverse(f: Field, a: nat): (b: nat)
    requires 0 < a <= NN(f)
  {
    Alpha(f, NN(f) - Log(f, a))
  }

  lemma InverseTimes(f: Field, a: nat)
    requires 0 < a <= NN(f)
    ensures Mul(f, Inverse(f, a), a) == 1 && In(f, Inverse(f, a))
  {
    hide Mul, Alpha, Log;
    var i := Log(f, a);
    MulAlphas(f, NN(f) - i, i);
    AlphaIn(f, NN(f) - i);
    AlphaTurn(f, 0);
    AlphaZero(f);
  }

  /** Every element is a multiple of a nonzero one. */
  lemma Divide(f: Field, y: nat, a: nat) returns (v: nat)
    requires In(f, y) && In(f, a) && a != 0
    ensures In(f, v) && Mul(f, v, a) == y
  {
    hide Mul, Inverse, NN;
    InverseTimes(f, a);
    v := Mul(f, y, Inverse(f, a));
    MulIn(f, y, Inverse(f, a));
    MulAssociates(f, y, Inverse(f, a), a);
    MulOne(f, y);
  }

  // ---------------------------------------------------------------- weights for given power sums

  /** Weights that become zs when multiplied by xs[l] + a. */
  lemma {:induction false} Unweigh(f: Field, zs: seq<nat>, xs: seq<nat>, a: nat) returns (ys: seq<nat>)
    requires |zs| == |xs| && AllIn(f, zs) && AllIn(f, xs) && In(f, a) && a !in xs
    ensures |ys| == |xs| && AllIn(f, ys) && Weigh(f, ys, xs, [1, a]) == zs
    decreases |zs|
  {
    hide Mul, Xor, Eval, In, NN;
    if zs == [] {
      ys := [];
    } else {
      var x, z := Last(xs), Last(zs);
      var front := Unweigh(f, Front(zs), Front(xs), a);
      EvalRoot(f, a, x);
      XorIn(f, x, a);
      XorZeroIffEqual(x, a);
      var y := Divide(f, z, Xor(x, a));
      ys := front + [y];
      FrontOfAppend(front, y);
      FrontLast(zs);
    }
  }

  /** The values that are left when the last element is eliminated. */
  ghost function Eliminated(f: Field, t: seq<nat>, a: nat): (u: seq<nat>)
    requires t != [] && AllIn(f, t)
    ensures |u| == |t| - 1 && AllIn(f, u)
  {
    forall j | 0 <= j < |t| - 1 ensures In(f, Xor(t[j + 1], Mul(f, a, t[j]))) {
      MulIn(f, a, t[j]);
      XorIn(f, t[j + 1], Mul(f, a, t[j]));
    }
    seq(|t| - 1, j requires 0 <= j < |t| - 1 => Xor(t[j + 1], Mul(f, a, t[j])))
  }

  /** The weights front for all elements but the last, and for the last one what is missing in the first sum, give all
      the sums: every further one follows from the one before. */
  lemma {:induction false} SumsFollow(f: Field, front: seq<nat>, xs: seq<nat>, t: seq<nat>, j: nat)
    requires |t| == |xs| == |front| + 1 && AllIn(f, xs) && AllIn(f, t) && j < |t|
    requires forall i :: 0 <= i < |t| - 1 ==>
               PowerSum(f, Weigh(f, front, Front(xs), [1, Last(xs)]), Front(xs), i) == Eliminated(f, t, Last(xs))[i]
    ensures PowerSum(f, front + [Xor(t[0], PowerSum(f, front, Front(xs), 0))], xs, j) == t[j]
    decreases j
  {
    hide Mul, Xor, Eval, In, NN, PowerSum, Weigh, Pow;
    var y, a := Xor(t[0], PowerSum(f, front, Front(xs), 0)), Last(xs);
    var ys := front + [y];
    FrontOfAppend(front, y);
    if j == 0 {
      PowerSumIn(f, front, Front(xs), 0);
      XorIn(f, t[0], PowerSum(f, front, Front(xs), 0));
      FirstSum(f, ys, xs);
      XorCommutes(t[0], PowerSum(f, front, Front(xs), 0));
      XorCancel(PowerSum(f, front, Front(xs), 0), t[0]);
    } else {
      SumsFollow(f, front, xs, t, j - 1);
      NextSum(f, ys, xs, j - 1);
      var m := Mul(f, a, t[j - 1]);
      XorCancel(m, t[j]);
      XorCancel(m, PowerSum(f, ys, xs, j));
    }
  }

  lemma FirstSum(f: Field, ys: seq<nat>, xs: seq<nat>)
    requires |ys| == |xs| > 0 && In(f, Last(ys))
    ensures PowerSum(f, ys, xs, 0) == Xor(PowerSum(f, Front(ys), Front(xs), 0), Last(ys))
  {
    hide Mul, Xor;
    MulOne(f, Last(ys));
  }

  /** Two consecutive sums and the sum without the last element. */
  lemma NextSum(f: Field, ys: seq<nat>, xs: seq<nat>, j: nat)
    requires |ys| == |xs| > 0 && AllIn(f, xs)
    ensures PowerSum(f, Weigh(f, Front(ys), Front(xs), [1, Last(xs)]), Front(xs), j)
            == Xor(PowerSum(f, ys, xs, j + 1), Mul(f, Last(xs), PowerSum(f, ys, xs, j)))
  {
    hide Mul, Xor, Eval, Pow, PowerSum, In, NN;
    var a := Last(xs);
    var zs := Weigh(f, ys, xs, [1, a]);
    assert [1] + [a] == [1, a];
    WeighStep(f, ys, xs, [1], a, j);
    WeighOne(f, ys, xs, j + 1);
    InAt(f, xs, |xs| - 1);
    EvalRoot(f, a, a);
    XorSelf(a);
    MulZero(f, Last(ys));
    FrontOfAppend(Weigh(f, Front(ys), Front(xs), [1, a]), 0);
    LastIsZero(f, zs, xs, j);
  }

  lemma LastIsZero(f: Field, zs: seq<nat>, xs: seq<nat>, j: nat)
    requires |zs| == |xs| > 0 && Last(zs) == 0
    ensures PowerSum(f, zs, xs, j) == PowerSum(f, Front(zs), Front(xs), j)
  {
    hide Mul, Xor;
    MulZero(f, Pow(f, Last(xs), j));
    XorZero(PowerSum(f, Front(zs), Front(xs), j));
  }

  /** For different elements xs and as many values there are weights whose power sums are these values. */
  lemma {:induction false} Solve(f: Field, xs: seq<nat>, t: seq<nat>) returns (ys: seq<nat>)
    requires |t| == |xs| && AllIn(f, xs) && Distinct(xs) && AllIn(f, t)
    ensures |ys| == |xs| && AllIn(f, ys)
    ensures forall j :: 0 <= j < |t| ==> PowerSum(f, ys, xs, j) == t[j]
    decreases |xs|
  {
    hide Mul, Xor, Eval, In, NN, PowerSum, Weigh, Pow;
    if xs == [] {
      ys := [];
    } else {
      var n: nat, a := |xs| - 1, Last(xs);
      var u := Eliminated(f, t, a);
      var zs := Solve(f, Front(xs), u);
      var front := Unweigh(f, zs, Front(xs), a);
      PowerSumIn(f, front, Front(xs), 0);
      InAt(f, t, 0);
      var y := Xor(t[0], PowerSum(f, front, Front(xs), 0));
      XorIn(f, t[0], PowerSum(f, front, Front(xs), 0));
      ys := front + [y];
      forall j | 0 <= j < |t| ensures PowerSum(f, ys, xs, j) == t[j] { SumsFollow(f, front, xs, t, j); }
    }
  }

  lemma InAt(f: Field, t: seq<nat>, i: nat)
    requires AllIn(f, t) && i < |t|
    ensures In(f, t[i])
  {}

  // ---------------------------------------------------------------- a recurrence determines its terms

  /** Where two sequences agree before term j, a monic recurrence differs at j by what the terms differ. */
  lemma {:induction false} ConvDiffers(f: Field, c: seq<nat>, s: seq<nat>, t: seq<nat>, j: nat)
    requires c != [] && c[0] == 1 && j < |s| && j < |t| && In(f, s[j]) && In(f, t[j])
    requires forall i :: 0 <= i < j ==> s[i] == t[i]
    ensures Xor(Conv(f, c, s, j), Conv(f, c, t, j)) == Xor(s[j], t[j])
    decreases |c|
  {
    hide Mul, Xor;
    if |c| == 1 {
      ConvOfOne(f, c, s, j);
      ConvOfOne(f, c, t, j);
    } else {
      ConvDiffers(f, Front(c), s, t, j);
      assert At(s, j - (|c| - 1)) == At(t, j - (|c| - 1));
      var m := Mul(f, Last(c), At(s, j - (|c| - 1)));
      XorShuffle(Conv(f, Front(c), s, j), m, Conv(f, Front(c), t, j), m);
      XorSelf(m);
      XorZero(Xor(s[j], t[j]));
    }
  }

  lemma ConvOfOne(f: Field, c: seq<nat>, s: seq<nat>, j: nat)
    requires |c| == 1 && c[0] == 1 && j < |s| && In(f, s[j])
    ensures Conv(f, c, s, j) == s[j]
  {
    hide Mul, Xor;
    assert Front(c) == [];
    MulOne(f, s[j]);
    XorZero(s[j]);
  }

  /** Sequences that start alike and satisfy the same recurrence are equal. */
  lemma {:induction false} SameTerms(f: Field, c: seq<nat>, len: nat, s: seq<nat>, t: seq<nat>, n: nat)
    requires Generates(f, c, len, s, |s|) && Generates(f, c, len, t, |t|) && n <= |s| == |t|
    requires AllIn(f, s) && AllIn(f, t) && forall i :: 0 <= i < len && i < |s| ==> s[i] == t[i]
    ensures forall i :: 0 <= i < n ==> s[i] == t[i]
    decreases n
  {
    hide Conv, Xor, In, NN;
    if n > 0 {
      SameTerms(f, c, len, s, t, n - 1);
      if n > len {
        ConvDiffers(f, c, s, t, n - 1);
        XorSelf(0);
        XorZeroIffEqual(s[n - 1], t[n - 1]);
      }
    }
  }

  /** Power sums satisfy every recurrence that vanishes at their locators. */
  lemma SumsSatisfy(f: Field, c: seq<nat>, ys: seq<nat>, xs: seq<nat>, s: seq<nat>)
    requires |ys| == |xs| && forall m :: 0 <= m < |s| ==> s[m] == PowerSum(f, ys, xs, m)
    requires |xs| < |c| && c[0] == 1 && (forall i :: |xs| < i < |c| ==> c[i] == 0) && Locates(f, c[..|xs| + 1], xs)
    ensures Generates(f, c, |xs|, s, |s|)
  {
    hide Mul, Xor, Eval, Conv, PowerSum, Weigh, In, NN;
    var n, w := |xs|, c[..|xs| + 1];
    forall l | 0 <= l < n ensures Weigh(f, ys, xs, w)[l] == 0 {
      WeighAt(f, ys, xs, w, l);
      MulZero(f, ys[l]);
    }
    forall j | n <= j < |s| ensures Conv(f, c, s, j) == 0 {
      ConvCut(f, c, s, j, n + 1);
      ConvIsPowerSum(f, w, ys, xs, s, j);
      PowerSumOfZeros(f, Weigh(f, ys, xs, w), xs, j - n);
    }
  }

  // ---------------------------------------------------------------- no weight is zero

  function Without(s: seq<nat>, m: nat): (t: seq<nat>)
    requires m < |s|
    ensures |t| == |s| - 1
  {
    s[..m] + s[m + 1..]
  }

  /** A zero weight can be left out with its locator. */
  lemma {:induction false} SumWithout(f: Field, ys: seq<nat>, xs: seq<nat>, m: nat, j: nat)
    requires |ys| == |xs| && m < |ys| && ys[m] == 0
    ensures PowerSum(f, Without(ys, m), Without(xs, m), j) == PowerSum(f, ys, xs, j)
    decreases |ys|
  {
    hide Mul, Xor, Pow;
    if m == |ys| - 1 {
      assert Without(ys, m) == Front(ys) && Without(xs, m) == Front(xs);
      LastIsZero(f, ys, xs, j);
    } else {
      SumWithout(f, Front(ys), Front(xs), m, j);
      assert Without(ys, m) == Without(Front(ys), m) + [Last(ys)];
      assert Without(xs, m) == Without(Front(xs), m) + [Last(xs)];
      FrontOfAppend(Without(Front(ys), m), Last(ys));
      FrontOfAppend(Without(Front(xs), m), Last(xs));
    }
  }

  /** If no recurrence is shorter than the number of locators then no weight is zero. */
  lemma ShortestNeedsAll(f: Field, ys: seq<nat>, xs: seq<nat>, s: seq<nat>, m: nat)
    requires |ys| == |xs| && m < |ys| && forall j :: 0 <= j < |s| ==> s[j] == PowerSum(f, ys, xs, j)
    requires Shortest(f, |xs|, s, |s|)
    ensures ys[m] != 0
  {
    hide PowerSum, Generates;
    if ys[m] == 0 {
      forall j | 0 <= j < |s| ensures s[j] == PowerSum(f, Without(ys, m), Without(xs, m), j) {
        SumWithout(f, ys, xs, m, j);
      }
      SumsAreGenerated(f, Without(ys, m), Without(xs, m), s);
    }
  }

  /** A shortest recurrence that vanishes at as many different elements as it is long makes its terms power sums of
      these elements, with nonzero weights. */
  lemma RootsAreLocators(f: Field, c: seq<nat>, xs: seq<nat>, s: seq<nat>) returns (ys: seq<nat>)
    requires AllIn(f, s) && |xs| <= |s| && |xs| < |c| && Locates(f, c[..|xs| + 1], xs)
    requires Generates(f, c, |xs|, s, |s|) && Shortest(f, |xs|, s, |s|)
    ensures |ys| == |xs| && Errors(f, ys, xs, s)
  {
    hide Conv, PowerSum, Eval, In, NN, Shortest;
    var n := |xs|;
    ys := Solve(f, xs, s[..n]);
    var t := Sums(f, ys, xs, |s|);
    SumsIn(f, ys, xs, |s|);
    SumsSatisfy(f, c, ys, xs, t);
    SameTerms(f, c, n, s, t, |s|);
    forall l | 0 <= l < n ensures ys[l] != 0 { ShortestNeedsAll(f, ys, xs, s, l); }
  }

  ghost function Sums(f: Field, ys: seq<nat>, xs: seq<nat>, n: nat): (t: seq<nat>)
    requires |ys| == |xs|
    ensures |t| == n && forall j :: 0 <= j < n ==> t[j] == PowerSum(f, ys, xs, j)
  {
    seq(n, j requires 0 <= j < n => PowerSum(f, ys, xs, j))
  }

  lemma SumsIn(f: Field, ys: seq<nat>, xs: seq<nat>, n: nat)
    requires |ys| == |xs|
    ensures AllIn(f, Sums(f, ys, xs, n))
  {
    hide PowerSum, In;
    forall j | 0 <= j < n ensures In(f, Sums(f, ys, xs, n)[j]) { PowerSumIn(f, ys, xs, j); }
  }
}
