/** Words by their nonzero symbols: locators, weights, and the minimum distance of the Reed-Solomon code. */
module Locators {
  import opened Arithmetic
  import opened Bits
  import opened ExclusiveOr
  import opened GaloisField
  import opened PowerSums
  import opened RsInit
  import opened Sequences
  import opened Words

  /** The symbol of w that counts with power e. */
  function AtPower(w: seq<nat>, e: nat): nat
    requires e < |w|
  {
    w[|w| - 1 - e]
  }

  /** The powers at which w has nonzero symbols, in increasing order. */
  function Support(w: seq<nat>): (es: seq<nat>)
    ensures forall l :: 0 <= l < |es| ==> es[l] < |w|
  {
    if w == [] then []
    else if w[0] == 0 then Support(w[1..])
    else Support(w[1..]) + [|w| - 1]
  }

  lemma {:induction false} SupportIsNonzero(w: seq<nat>)
    ensures forall l :: 0 <= l < |Support(w)| ==> AtPower(w, Support(w)[l]) != 0
    ensures forall e :: 0 <= e < |w| && AtPower(w, e) != 0 ==> e in Support(w)
    ensures forall l, m :: 0 <= l < m < |Support(w)| ==> Support(w)[l] < Support(w)[m]
  {
    if w != [] {
      var v := w[1..];
      SupportIsNonzero(v);
      forall l | 0 <= l < |Support(w)| ensures AtPower(w, Support(w)[l]) != 0 {
        if l < |Support(v)| { assert AtPower(w, Support(v)[l]) == AtPower(v, Support(v)[l]); }
      }
      forall e | 0 <= e < |w| && AtPower(w, e) != 0 ensures e in Support(w) {
        if e < |v| {
          assert AtPower(v, e) == AtPower(w, e);
        } else {
          assert Last(Support(w)) == e;
        }
      }
    }
  }

  /** The locator alpha^(prim * e) of every listed power. */
  ghost function Locate(f: Field, prim: nat, es: seq<nat>): (xs: seq<nat>)
    ensures |xs| == |es|
  {
    if es == [] then [] else Locate(f, prim, Front(es)) + [Alpha(f, prim * Last(es))]
  }

  /** The symbols at the listed powers, each times the power of its locator that the first syndrome sees. */
  ghost function Weights(f: Field, fcr: nat, prim: nat, w: seq<nat>, es: seq<nat>): (ys: seq<nat>)
    requires forall l :: 0 <= l < |es| ==> es[l] < |w|
    ensures |ys| == |es|
  {
    if es == [] then []
    else Weights(f, fcr, prim, w, Front(es)) + [Mul(f, AtPower(w, Last(es)), Alpha(f, prim * Last(es) * fcr))]
  }

  lemma {:induction false} LocateAt(f: Field, prim: nat, es: seq<nat>, l: nat)
    requires l < |es|
    ensures Locate(f, prim, es)[l] == Alpha(f, prim * es[l])
  {
    if l < |es| - 1 { LocateAt(f, prim, Front(es), l); }
  }

  lemma {:induction false} WeightsAt(f: Field, fcr: nat, prim: nat, w: seq<nat>, es: seq<nat>, l: nat)
    requires l < |es| && forall l :: 0 <= l < |es| ==> es[l] < |w|
    ensures Weights(f, fcr, prim, w, es)[l] == Mul(f, AtPower(w, es[l]), Alpha(f, prim * es[l] * fcr))
  {
    if l < |es| - 1 { WeightsAt(f, fcr, prim, w, Front(es), l); }
  }

  /** Weights do not depend on symbols in front of the listed ones. */
  lemma {:induction false} WeightsOfTail(f: Field, fcr: nat, prim: nat, w: seq<nat>, es: seq<nat>)
    requires w != [] && forall l :: 0 <= l < |es| ==> es[l] < |w| - 1
    ensures Weights(f, fcr, prim, w, es) == Weights(f, fcr, prim, w[1..], es)
  {
    if es != [] {
      WeightsOfTail(f, fcr, prim, w, Front(es));
      assert AtPower(w, Last(es)) == AtPower(w[1..], Last(es));
    }
  }

  /** What a word evaluates to at generator root i is a weighted sum of powers of its locators. */
  lemma {:induction false} SyndromeIsPowerSum(f: Field, fcr: nat, prim: nat, w: seq<nat>, i: nat)
    requires AllIn(f, w)
    ensures Eval(f, w, Alpha(f, RootIndex(fcr, prim, i)))
            == PowerSum(f, Weights(f, fcr, prim, w, Support(w)), Locate(f, prim, Support(w)), i)
    decreases |w|
  {
    hide Mul, Xor, Alpha, RootIndex, Eval;
    var x := Alpha(f, RootIndex(fcr, prim, i));
    if w == [] {
      EvalZeros(f, w, x);
    } else {
      var v, a := w[1..], w[0];
      SyndromeIsPowerSum(f, fcr, prim, v, i);
      WeightsOfTail(f, fcr, prim, w, Support(v));
      assert w == [a] + v;
      EvalPrepend(f, a, v, x);
      if a == 0 {
        MulZero(f, Pow(f, x, |v|));
        XorZero(Eval(f, v, x));
      } else {
        LeadingTerm(f, fcr, prim, w, i);
        XorCommutes(Mul(f, a, Pow(f, x, |v|)), Eval(f, v, x));
      }
    }
  }

  /** The contribution of a nonzero leading symbol. */
  lemma LeadingTerm(f: Field, fcr: nat, prim: nat, w: seq<nat>, i: nat)
    requires w != [] && w[0] != 0
    ensures var es := Support(w[1..]);
            PowerSum(f, Weights(f, fcr, prim, w, Support(w)), Locate(f, prim, Support(w)), i)
            == Xor(PowerSum(f, Weights(f, fcr, prim, w, es), Locate(f, prim, es), i),
                   Mul(f, w[0], Pow(f, Alpha(f, RootIndex(fcr, prim, i)), |w| - 1)))
  {
    hide *;
    var e, es := |w| - 1, Support(w[1..]);
    var y, x := Mul(f, w[0], Alpha(f, prim * e * fcr)), Alpha(f, prim * e);
    LeadingParts(f, fcr, prim, w);
    PowerSumAppend(f, Weights(f, fcr, prim, w, es), Locate(f, prim, es), y, x, i);
    TermOfSyndrome(f, fcr, prim, w[0], e, i);
  }

  lemma LeadingParts(f: Field, fcr: nat, prim: nat, w: seq<nat>)
    requires w != [] && w[0] != 0
    ensures var e, es := |w| - 1, Support(w[1..]);
            Weights(f, fcr, prim, w, Support(w)) == Weights(f, fcr, prim, w, es) + [Mul(f, w[0], Alpha(f, prim * e * fcr))]
            && Locate(f, prim, Support(w)) == Locate(f, prim, es) + [Alpha(f, prim * e)]
  {
    hide Mul, Alpha;
    FrontOfAppend(Support(w[1..]), |w| - 1);
  }

  lemma PowerSumAppend(f: Field, ys: seq<nat>, xs: seq<nat>, y: nat, x: nat, i: nat)
    requires |ys| == |xs|
    ensures PowerSum(f, ys + [y], xs + [x], i) == Xor(PowerSum(f, ys, xs, i), Mul(f, y, Pow(f, x, i)))
  {
    hide Mul, Xor, Pow;
    FrontOfAppend(ys, y);
    FrontOfAppend(xs, x);
  }

  lemma TermOfSyndrome(f: Field, fcr: nat, prim: nat, a: nat, e: nat, i: nat)
    ensures Mul(f, a, Pow(f, Alpha(f, RootIndex(fcr, prim, i)), e))
            == Mul(f, Mul(f, a, Alpha(f, prim * e * fcr)), Pow(f, Alpha(f, prim * e), i))
  {
    hide Mul, Alpha, Pow;
    PowAlpha(f, RootIndex(fcr, prim, i), e);
    PowAlpha(f, prim * e, i);
    SplitExponent(fcr, prim, i, e);
    MulAlphas(f, prim * e * fcr, prim * e * i);
    MulAssociates(f, a, Alpha(f, prim * e * fcr), Alpha(f, prim * e * i));
  }

  lemma SplitExponent(fcr: nat, prim: nat, i: nat, e: nat)
    ensures RootIndex(fcr, prim, i) * e == prim * e * fcr + prim * e * i
  {
    var k := prim * e;
    assert (fcr + i) * prim * e == (fcr + i) * k;
    assert (fcr + i) * k == k * fcr + k * i;
  }

  /** prim has the inverse iprim modulo nn, so multiples of prim below nn turns are different. */
  ghost predicate Inverts(f: Field, prim: nat, iprim: nat) {
    NN(f) >= 1 && prim * iprim % NN(f) == 1 % NN(f)
  }

  lemma DifferentLocators(f: Field, prim: nat, iprim: nat, d: nat, e: nat)
    requires Inverts(f, prim, iprim) && d < NN(f) && e < NN(f)
    requires Alpha(f, prim * d) == Alpha(f, prim * e)
    ensures d == e
  {
    hide Alpha;
    LogOfAlpha(f, prim * d);
    LogOfAlpha(f, prim * e);
    Unscale(NN(f), prim, iprim, d);
    Unscale(NN(f), prim, iprim, e);
  }

  /** Multiplying by iprim undoes multiplying by prim. */
  lemma Unscale(nn: nat, prim: nat, iprim: nat, e: nat)
    requires nn >= 1 && prim * iprim % nn == 1 % nn && e < nn
    ensures iprim * (prim * e % nn) % nn == e
  {
    ModMul(iprim, prim * e, nn);
    var p := prim * iprim;
    assert iprim * (prim * e) == e * p;
    ModMul(e, p, nn);
    ModMul(e, 1, nn);
    ModOfSmall(e, nn);
  }

  lemma LocatorsAreGood(f: Field, prim: nat, iprim: nat, es: seq<nat>)
    requires Inverts(f, prim, iprim)
    requires forall l :: 0 <= l < |es| ==> es[l] < NN(f)
    requires forall l, m :: 0 <= l < m < |es| ==> es[l] != es[m]
    ensures var xs := Locate(f, prim, es);
            AllIn(f, xs) && Distinct(xs) && forall l :: 0 <= l < |xs| ==> xs[l] != 0
  {
    hide Alpha, Inverts, NN, In, Primitive, Locate;
    var xs := Locate(f, prim, es);
    forall l | 0 <= l < |xs| ensures xs[l] != 0 && In(f, xs[l]) {
      LocateAt(f, prim, es, l);
      AlphaNonzero(f, prim * es[l]);
      AlphaIn(f, prim * es[l]);
    }
    forall l, m | 0 <= l < m < |xs| ensures xs[l] != xs[m] {
      LocateAt(f, prim, es, l);
      LocateAt(f, prim, es, m);
      if xs[l] == xs[m] { DifferentLocators(f, prim, iprim, es[l], es[m]); }
    }
  }

  /** The minimum distance: a word that has n consecutive generator roots and at most n nonzero symbols is zero. */
  lemma MinimumDistance(f: Field, fcr: nat, prim: nat, iprim: nat, w: seq<nat>, n: nat)
    requires Inverts(f, prim, iprim) && AllIn(f, w) && |w| <= NN(f) && |Support(w)| <= n
    requires forall i :: 0 <= i < n ==> Eval(f, w, Alpha(f, RootIndex(fcr, prim, i))) == 0
    ensures Support(w) == []
  {
    hide *;
    var es := Support(w);
    var ys, xs := Weights(f, fcr, prim, w, es), Locate(f, prim, es);
    SupportIsNonzero(w);
    LocatorsAreGood(f, prim, iprim, es);
    forall l | 0 <= l < |ys| ensures In(f, ys[l]) { WeightsIn(f, fcr, prim, w, es, l); }
    AllInIntro(f, ys);
    forall j | 0 <= j < |xs| ensures PowerSum(f, ys, xs, j) == 0 { SyndromeIsPowerSum(f, fcr, prim, w, j); }
    VanishingSums(f, ys, xs, 0);
    assert ys == [] || ys[0] == 0;
    WeightsAreNonzero(f, fcr, prim, w, es);
  }

  lemma AllInIntro(f: Field, w: seq<nat>)
    requires forall i :: 0 <= i < |w| ==> In(f, w[i])
    ensures AllIn(f, w)
  {}

  lemma WeightsIn(f: Field, fcr: nat, prim: nat, w: seq<nat>, es: seq<nat>, l: nat)
    requires l < |es| && forall l :: 0 <= l < |es| ==> es[l] < |w|
    ensures In(f, Weights(f, fcr, prim, w, es)[l])
  {
    hide *;
    WeightsAt(f, fcr, prim, w, es, l);
    MulIn(f, AtPower(w, es[l]), Alpha(f, prim * es[l] * fcr));
  }

  lemma WeightsAreNonzero(f: Field, fcr: nat, prim: nat, w: seq<nat>, es: seq<nat>)
    requires AllIn(f, w) && forall l :: 0 <= l < |es| ==> es[l] < |w| && AtPower(w, es[l]) != 0
    ensures var ys := Weights(f, fcr, prim, w, es); AllIn(f, ys) && forall l :: 0 <= l < |ys| ==> ys[l] != 0
  {
    hide Mul, Alpha, In;
    var ys := Weights(f, fcr, prim, w, es);
    forall l | 0 <= l < |ys| ensures In(f, ys[l]) && ys[l] != 0 {
      WeightsAt(f, fcr, prim, w, es, l);
      var a, b := AtPower(w, es[l]), Alpha(f, prim * es[l] * fcr);
      MulIn(f, a, b);
      AlphaIn(f, prim * es[l] * fcr);
      AlphaNonzero(f, prim * es[l] * fcr);
      if ys[l] == 0 { MulNonzero(f, a, b); }
    }
  }

  /** No coefficient of the generator polynomial is zero, which is why the encoder need not test for one. */
  lemma GeneratorHasNoZeros(f: Field, fcr: nat, prim: nat, iprim: nat, n: nat)
    requires Inverts(f, prim, iprim) && n < NN(f)
    ensures forall k :: 0 <= k <= n ==> Generator(f, fcr, prim, n)[k] != 0
  {
    hide Mul, Alpha, Eval, RootIndex, Inverts, Generator;
    var g := Generator(f, fcr, prim, n);
    GeneratorIsMonic(f, fcr, prim, n);
    forall i | 0 <= i < n ensures Eval(f, g, Alpha(f, RootIndex(fcr, prim, i))) == 0 {
      AlphaIn(f, RootIndex(fcr, prim, i));
      GeneratorRoots(f, fcr, prim, n, Alpha(f, RootIndex(fcr, prim, i)));
    }
    SupportIsNonzero(g);
    assert AtPower(g, n) == 1;
    if |Support(g)| <= n {
      MinimumDistance(f, fcr, prim, iprim, g, n);
    }
    FullSupport(g);
  }

  /** A word with as many nonzero symbols as it has symbols has no zeros. */
  lemma {:induction false} FullSupport(w: seq<nat>)
    ensures |Support(w)| <= |w|
    ensures |Support(w)| == |w| ==> forall k :: 0 <= k < |w| ==> w[k] != 0
  {
    if w != [] { FullSupport(w[1..]); }
  }
}
