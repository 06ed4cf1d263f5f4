/** Syndromes, the errors behind them, and what locating and correcting these errors means for a received word. */
module RsErrors {
  import opened Arithmetic
  import opened BerlekampMassey
  import opened Bits
  import opened ChienForney
  import opened ErrorLocation
  import opened ExclusiveOr
  import opened GaloisField
  import opened Locators
  import opened PowerSums
  import opened RsEncode
  import opened RsInit
  import opened Sequences
  import opened Words

  /** The number of places where two words differ. */
  function Differences(w: seq<nat>, c: seq<nat>): nat {
    if w == [] || c == [] then 0
    else (if w[0] != c[0] then 1 else 0) + Differences(w[1..], c[1..])
  }

  // ---------------------------------------------------------------- syndromes

  ghost function Syndromes(rs: Rs, f: Field, w: seq<nat>): (s: seq<nat>)
    ensures |s| == rs.nroots && forall i :: 0 <= i < rs.nroots ==> s[i] == Eval(f, w, Root(rs, f, i))
  {
    seq(rs.nroots, i requires 0 <= i < rs.nroots => Eval(f, w, Root(rs, f, i)))
  }

  // ---------------------------------------------------------------- the errors behind the syndromes

  /** w is the codeword c with few enough errors: at most half as many as there are parity symbols. */
  ghost predicate Correctable(rs: Rs, f: Field, w: seq<nat>, c: seq<nat>) {
    |c| == |w| && IsCodeword(rs, f, c) && 2 * Differences(w, c) <= rs.nroots
  }

  lemma {:induction false} DifferencesAreSupport(w: seq<nat>, c: seq<nat>)
    requires |w| == |c|
    ensures |Support(Sum(w, c))| == Differences(w, c)
  {
    hide Xor;
    if w != [] {
      SumTail(w, c);
      DifferencesAreSupport(w[1..], c[1..]);
      SumAt(w, c, 0);
      XorZeroIffEqual(w[0], c[0]);
    }
  }

  lemma SumTail(w: seq<nat>, c: seq<nat>)
    requires |w| == |c| > 0
    ensures Sum(w, c)[1..] == Sum(w[1..], c[1..])
  {
    hide Xor;
    forall i | 0 <= i < |w| - 1 ensures Sum(w, c)[1..][i] == Sum(w[1..], c[1..])[i] {
      SumAt(w, c, i + 1);
      SumAt(w[1..], c[1..], i);
    }
  }

  lemma SumIn(f: Field, w: seq<nat>, c: seq<nat>)
    requires |w| == |c| && AllIn(f, w) && AllIn(f, c)
    ensures AllIn(f, Sum(w, c))
  {
    hide Xor, NN, Sum;
    forall i | 0 <= i < |w| ensures In(f, Sum(w, c)[i]) {
      SumAt(w, c, i);
      XorIn(f, w[i], c[i]);
    }
  }

  /** The syndromes are the power sums of the errors. */
  lemma SyndromesOfErrors(rs: Rs, f: Field, w: seq<nat>, c: seq<nat>)
    requires Valid(rs, f) && |c| == |w| <= rs.nn && AllIn(f, w) && IsCodeword(rs, f, c)
    ensures var e := Sum(w, c); var es := Support(e);
            && AllIn(f, e) && |es| == Differences(w, c)
            && Errors(f, Weights(f, rs.fcr, rs.prim, e, es), Locate(f, rs.prim, es), Syndromes(rs, f, w))
  {
    hide Eval, Mul, Xor, Alpha, RootIndex, Sum, Support, Weights, Locate, PowerSum, In, NN, HasTables, Generator, AllIn;
    var e := Sum(w, c);
    var es := Support(e);
    SumIn(f, w, c);
    DifferencesAreSupport(w, c);
    SupportIsNonzero(e);
    assert Inverts(f, rs.prim, rs.iprim) by { PrimInverts(rs, f); }
    assert rs.nn == NN(f) by { PrimInverts(rs, f); }
    LocatorsAreGood(f, rs.prim, rs.iprim, es);
    WeightsAreNonzero(f, rs.fcr, rs.prim, e, es);
    forall m | 0 <= m < rs.nroots
      ensures Syndromes(rs, f, w)[m] == PowerSum(f, Weights(f, rs.fcr, rs.prim, e, es), Locate(f, rs.prim, es), m)
    {
      SyndromeIsPowerSum(f, rs.fcr, rs.prim, e, m);
      ErrorSyndrome(rs, f, w, c, m);
    }
  }

  lemma PrimInverts(rs: Rs, f: Field)
    requires Valid(rs, f)
    ensures Inverts(f, rs.prim, rs.iprim) && rs.nn == NN(f)
  {
    FieldSize(f);
  }

  /** A codeword's symbols do not change the syndromes. */
  lemma ErrorSyndrome(rs: Rs, f: Field, w: seq<nat>, c: seq<nat>, i: nat)
    requires |w| == |c| && IsCodeword(rs, f, c) && i < rs.nroots
    ensures Eval(f, Sum(w, c), Alpha(f, RootIndex(rs.fcr, rs.prim, i))) == Syndromes(rs, f, w)[i]
  {
    hide Eval, Xor, Alpha, RootIndex, Sum;
    EvalSum(f, w, c, Root(rs, f, i));
    assert Eval(f, c, Root(rs, f, i)) == 0;
    XorZero(Eval(f, w, Root(rs, f, i)));
  }

  /** No nonzero syndrome: the word is the codeword. */
  lemma NoErrors(rs: Rs, f: Field, w: seq<nat>, c: seq<nat>)
    requires Valid(rs, f) && |w| <= rs.nn && AllIn(f, w) && |c| == |w| && Correctable(rs, f, w, c)
    requires forall i :: 0 <= i < rs.nroots ==> Syndromes(rs, f, w)[i] == 0
    ensures w == c && Differences(w, c) == 0
  {
    hide *;
    CorrectableParts(rs, f, w, c);
    PrimInverts(rs, f);
    var e := Sum(w, c);
    SumIn(f, w, c);
    DifferencesAreSupport(w, c);
    forall i | 0 <= i < rs.nroots ensures Eval(f, e, Alpha(f, RootIndex(rs.fcr, rs.prim, i))) == 0 {
      ErrorSyndrome(rs, f, w, c, i);
    }
    MinimumDistance(f, rs.fcr, rs.prim, rs.iprim, e, rs.nroots);
    NoDifferences(w, c);
  }

  lemma CorrectableParts(rs: Rs, f: Field, w: seq<nat>, c: seq<nat>)
    requires Correctable(rs, f, w, c)
    ensures |c| == |w| && IsCodeword(rs, f, c) && AllIn(f, c) && 2 * Differences(w, c) <= rs.nroots
  {}

  lemma {:induction false} NoDifferences(w: seq<nat>, c: seq<nat>)
    requires |w| == |c| && Differences(w, c) == 0
    ensures w == c
  {
    if w != [] { NoDifferences(w[1..], c[1..]); }
  }

  // ---------------------------------------------------------------- roots, positions and values

  /** Position loc, counted from the front of a full block, has power e; the root that points to it is the inverse
      of that power's locator. */
  lemma LocationIsLocator(f: Field, prim: nat, r: nat, loc: nat, e: nat)
    requires 1 <= r <= NN(f) == loc + 1 + e && prim * (loc + 1) % NN(f) == r % NN(f)
    ensures Alpha(f, NN(f) - r) == Alpha(f, prim * e)
    ensures Mul(f, Alpha(f, r), Alpha(f, prim * e)) == 1
  {
    hide *;
    var n, k, p := NN(f), prim * (loc + 1), prim * e;
    assert k + p == prim * n;
    AlphaMod(f, k);
    AlphaMod(f, r);
    MulAlphas(f, k, p);
    AlphaTurns(f, 0, prim);
    AlphaZero(f);
    SameInverse(f, r, n - r, p);
  }

  /** Inverses of a power of x are equal. */
  lemma SameInverse(f: Field, r: nat, i: nat, j: nat)
    requires r + i == NN(f) && Mul(f, Alpha(f, r), Alpha(f, j)) == 1
    ensures Alpha(f, i) == Alpha(f, j)
  {
    hide *;
    MulAlphas(f, r, i);
    AlphaTurn(f, 0);
    AlphaZero(f);
    AlphaIn(f, r); AlphaIn(f, i); AlphaIn(f, j);
    AlphaNonzero(f, r);
    MulCommutes(f, Alpha(f, r), Alpha(f, i));
    MulCommutes(f, Alpha(f, r), Alpha(f, j));
    MulCancel(f, Alpha(f, i), Alpha(f, j), Alpha(f, r));
  }

  /** The exponent of the factor that Forney's formula needs for root r. */
  function FactorIndex(rs: Rs, r: nat): int { r * (rs.fcr - 1) + rs.nn }

  lemma FactorIndexIsNat(rs: Rs, r: nat)
    requires r <= rs.nn
    ensures FactorIndex(rs, r) >= 0 && FactorIndex(rs, r) + r == r * rs.fcr + rs.nn
  {
    assert r * (rs.fcr - 1) == r * rs.fcr - r;
    assert r * rs.fcr >= 0;
  }

  /** What the decoder adds to the symbol that root r points to. */
  ghost function Fix(rs: Rs, f: Field, o: seq<nat>, d: seq<nat>, r: nat): nat {
    var num, den := LowEval(f, o, Alpha(f, r)), LowEval(f, d, Alpha(f, r));
    if num == 0 || r > rs.nn then 0
    else FactorIndexIsNat(rs, r); Ratio(rs, f, num, Alpha(f, FactorIndex(rs, r)), den)
  }

  /** num times fac over den, by the tables. */
  function Ratio(rs: Rs, f: Field, num: nat, fac: nat, den: nat): nat {
    if num < |rs.indexOf| && fac < |rs.indexOf| && den < |rs.indexOf| && rs.nn >= 1 && |rs.alphaTo| > rs.nn
       && rs.indexOf[den] <= rs.nn
    then rs.alphaTo[(rs.indexOf[num] + rs.indexOf[fac] + rs.nn - rs.indexOf[den]) % rs.nn]
    else 0
  }

  lemma RatioTimes(rs: Rs, f: Field, num: nat, fac: nat, den: nat)
    requires HasTables(rs, f) && 0 < num <= rs.nn && 0 < fac <= rs.nn && 0 < den <= rs.nn
    ensures In(f, Ratio(rs, f, num, fac, den))
    ensures Mul(f, Ratio(rs, f, num, fac, den), den) == Mul(f, num, fac)
  {
    hide Alpha, Mul;
    FieldSize(f);
    var i, j, k, n := rs.indexOf[num], rs.indexOf[fac], rs.indexOf[den], rs.nn;
    AlphaMod(f, i + j + n - k);
    MulAlphas(f, i + j + n - k, k);
    AlphaTurn(f, i + j);
    AlphaIn(f, i + j + n - k);
    assert i + j + n - k + k == n + (i + j);
    MulAlphas(f, i, j);
  }

  lemma RatioIn(rs: Rs, f: Field, num: nat, fac: nat, den: nat)
    requires HasTables(rs, f)
    ensures In(f, Ratio(rs, f, num, fac, den))
  {
    hide Alpha;
    if num < |rs.indexOf| && fac < |rs.indexOf| && den < |rs.indexOf| && rs.nn >= 1 && rs.indexOf[den] <= rs.nn {
      AlphaIn(f, (rs.indexOf[num] + rs.indexOf[fac] + rs.nn - rs.indexOf[den]) % rs.nn);
    }
  }

  /** The factor turns the weight of an error back into the error times its locator. */
  lemma FactorUndoesWeight(f: Field, fcr: nat, r: nat, p: nat, q: nat, k: nat)
    requires k == p * fcr && q + r == r * fcr + NN(f)
    requires Mul(f, Alpha(f, r), Alpha(f, p)) == 1
    ensures Mul(f, Alpha(f, k), Alpha(f, q)) == Alpha(f, p)
  {
    hide *;
    var m := (r + p) * fcr;
    assert m == r * fcr + k;
    MulAlphas(f, r, p);
    PowAlpha(f, r + p, fcr);
    PowOfOne(f, fcr);
    AlphaTurn(f, m);
    MulAlphas(f, k, q);
    MulAlphas(f, k + q, r);
    AlphaIn(f, k + q); AlphaIn(f, p); AlphaIn(f, r);
    AlphaNonzero(f, r);
    MulCommutes(f, Alpha(f, r), Alpha(f, p));
    MulCancel(f, Alpha(f, k + q), Alpha(f, p), Alpha(f, r));
  }

  lemma {:induction false} PowOfOne(f: Field, k: nat)
    ensures Pow(f, 1, k) == 1
  {
    hide Mul;
    FieldSize(f);
    MulOne(f, 1);
    if k > 0 { PowOfOne(f, k - 1); }
  }

  /** v den = num fac, num X = (E K) den and K fac = X give v = E. */
  lemma SolveForError(f: Field, v: nat, den: nat, num: nat, fac: nat, X: nat, E: nat, K: nat)
    requires In(f, v) && In(f, E) && In(f, X) && X != 0 && In(f, den) && den != 0
    requires Mul(f, v, den) == Mul(f, num, fac) && Mul(f, num, X) == Mul(f, Mul(f, E, K), den)
    requires Mul(f, K, fac) == X
    ensures v == E
  {
    hide Mul, NN;
    MulIn(f, v, X);
    MulIn(f, E, X);
    MulSwap(f, v, X, den);
    MulSwap(f, num, fac, X);
    MulSwap(f, Mul(f, E, K), den, fac);
    MulAssociates(f, E, K, fac);
    MulCancel(f, Mul(f, v, X), Mul(f, E, X), den);
    MulCancel(f, v, E, X);
  }

  /** The errors e, nonzero at the powers es, have the syndromes s, and w is their locator. */
  ghost predicate Located(rs: Rs, f: Field, e: seq<nat>, es: seq<nat>, s: seq<nat>, w: seq<nat>) {
    && AllIn(f, e) && (forall l :: 0 <= l < |es| ==> es[l] < |e|)
    && Errors(f, Weights(f, rs.fcr, rs.prim, e, es), Locate(f, rs.prim, es), s)
    && |es| <= |s| && |es| < |w| && AllIn(f, w)
    && Locates(f, w[..|es| + 1], Locate(f, rs.prim, es))
  }

  /** The value that Forney's formula gives for root r. */
  ghost function FixFor(rs: Rs, f: Field, w: seq<nat>, s: seq<nat>, n: nat, r: nat): nat {
    if n < |w| then Fix(rs, f, Evaluator(f, w, s, n), Derivative(w[..n + 1]), r) else 0
  }

  /** Forney's formula for one error: numerator times locator is weight times denominator. */
  lemma FormulaForError(rs: Rs, f: Field, e: seq<nat>, es: seq<nat>, s: seq<nat>, w: seq<nat>, l: nat, r: nat, p: nat, k: nat)
    requires Located(rs, f, e, es, s, w) && l < |es| && p == rs.prim * es[l] && k == p * rs.fcr
    requires Mul(f, Alpha(f, r), Alpha(f, p)) == 1
    ensures es[l] < |e| && In(f, AtPower(e, es[l])) && |es| < |w|
    ensures var num, den := LowEval(f, Evaluator(f, w, s, |es|), Alpha(f, r)), LowEval(f, Derivative(w[..|es| + 1]), Alpha(f, r));
            && In(f, num) && In(f, den) && num != 0 && den != 0
            && Mul(f, num, Alpha(f, p)) == Mul(f, Mul(f, AtPower(e, es[l]), Alpha(f, k)), den)
  {
    hide Alpha, Mul, LowEval, Evaluator, Derivative, Locates, Errors, Weights, Locate, NN, Primitive;
    var ys, xs := Weights(f, rs.fcr, rs.prim, e, es), Locate(f, rs.prim, es);
    LocateAt(f, rs.prim, es, l);
    WeightsAt(f, rs.fcr, rs.prim, e, es, l);
    ForneyFormula(f, ys, xs, s, w, l, Alpha(f, r));
    LowEvalIn(f, Evaluator(f, w, s, |es|), Alpha(f, r));
    LowEvalIn(f, Derivative(w[..|es| + 1]), Alpha(f, r));
    NumeratorIsNonzero(f, ys, xs, s, l, LowEval(f, Evaluator(f, w, s, |es|), Alpha(f, r)),
                       LowEval(f, Derivative(w[..|es| + 1]), Alpha(f, r)));
  }

  /** Forney's formula yields the error at the located position. */
  lemma FixIsError(rs: Rs, f: Field, e: seq<nat>, es: seq<nat>, s: seq<nat>, w: seq<nat>, l: nat, r: nat, p: nat, k: nat)
    requires Valid(rs, f) && Located(rs, f, e, es, s, w) && l < |es| && p == rs.prim * es[l] && k == p * rs.fcr
    requires 1 <= r <= rs.nn && Mul(f, Alpha(f, r), Alpha(f, p)) == 1
    ensures es[l] < |e| && FixFor(rs, f, w, s, |es|, r) == AtPower(e, es[l])
  {
    hide *;
    FormulaForError(rs, f, e, es, s, w, l, r, p, k);
    SolvedError(rs, f, LowEval(f, Evaluator(f, w, s, |es|), Alpha(f, r)), LowEval(f, Derivative(w[..|es| + 1]), Alpha(f, r)),
                AtPower(e, es[l]), r, p, k);
    FixUnfolds(rs, f, w, s, |es|, r);
  }

  lemma FixUnfolds(rs: Rs, f: Field, w: seq<nat>, s: seq<nat>, n: nat, r: nat)
    requires n < |w| && LowEval(f, Evaluator(f, w, s, n), Alpha(f, r)) != 0 && r <= rs.nn
    ensures FactorIndex(rs, r) >= 0
    ensures FixFor(rs, f, w, s, n, r)
            == Ratio(rs, f, LowEval(f, Evaluator(f, w, s, n), Alpha(f, r)), Alpha(f, FactorIndex(rs, r)),
                     LowEval(f, Derivative(w[..n + 1]), Alpha(f, r)))
  {
    hide LowEval, Alpha, Ratio, FactorIndex, Evaluator, Derivative;
    FactorIndexIsNat(rs, r);
  }

  /** What the tables compute from numerator and denominator is the error symbol E at power p's position. */
  lemma SolvedError(rs: Rs, f: Field, num: nat, den: nat, E: nat, r: nat, p: nat, k: nat)
    requires Valid(rs, f) && In(f, num) && num != 0 && In(f, den) && den != 0 && In(f, E) && r <= rs.nn
    requires k == p * rs.fcr && Mul(f, Alpha(f, r), Alpha(f, p)) == 1
    requires Mul(f, num, Alpha(f, p)) == Mul(f, Mul(f, E, Alpha(f, k)), den)
    ensures FactorIndex(rs, r) >= 0 && Ratio(rs, f, num, Alpha(f, FactorIndex(rs, r)), den) == E
  {
    hide Alpha, Mul, HasTables, Ratio, FactorIndex, Generator, Primitive, InRange;
    PrimInverts(rs, f);
    FactorIndexIsNat(rs, r);
    var q: nat := FactorIndex(rs, r);
    FactorUndoesWeight(f, rs.fcr, r, p, q, k);
    AlphaIn(f, p);
    AlphaNonzero(f, p);
    AlphaIn(f, q);
    AlphaNonzero(f, q);
    RatioTimes(rs, f, num, Alpha(f, q), den);
    SolveForError(f, Ratio(rs, f, num, Alpha(f, q), den), den, num, Alpha(f, q), Alpha(f, p), E, Alpha(f, k));
  }

  lemma NumeratorIsNonzero(f: Field, ys: seq<nat>, xs: seq<nat>, s: seq<nat>, l: nat, num: nat, den: nat)
    requires Errors(f, ys, xs, s) && l < |xs| == |ys| && In(f, den) && den != 0 && Mul(f, num, xs[l]) == Mul(f, ys[l], den)
    ensures num != 0
  {
    hide Mul, NN;
    MulZero(f, xs[l]);
    if num == 0 { MulNonzero(f, ys[l], den); }
  }

  // ---------------------------------------------------------------- the located errors

  /** The degree of lambda, as the decoder measures it. */
  ghost predicate HasDegree(w: seq<nat>, deg: nat) {
    deg < |w| && (deg > 0 ==> w[deg] != 0) && forall i :: deg < i < |w| ==> w[i] == 0
  }

  /** With few enough errors lambda is their locator, its degree is their number, and it has no other roots. */
  lemma LambdaLocates(rs: Rs, f: Field, w: seq<nat>, c: seq<nat>, lambda: seq<nat>, el: nat, deg: nat)
    requires Valid(rs, f) && |w| <= rs.nn && AllIn(f, w) && |c| == |w| && Correctable(rs, f, w, c)
    requires AllIn(f, lambda) && |lambda| == rs.nroots + 1 && HasDegree(lambda, deg)
    requires Generates(f, lambda, el, Syndromes(rs, f, w), rs.nroots) && Shortest(f, el, Syndromes(rs, f, w), rs.nroots)
    ensures var es := Support(Sum(w, c));
            && deg == |es| == Differences(w, c)
            && Located(rs, f, Sum(w, c), es, Syndromes(rs, f, w), lambda)
            && forall x :: In(f, x) && x != 0 && Eval(f, lambda[..deg + 1], x) == 0 ==> x in Locate(f, rs.prim, es)
  {
    hide Eval, Conv, PowerSum, Valid, Syndromes, Weights, Locate, NN, In, Sum, Support, Differences;
    var e, s := Sum(w, c), Syndromes(rs, f, w);
    var es := Support(e);
    var ys, xs := Weights(f, rs.fcr, rs.prim, e, es), Locate(f, rs.prim, es);
    SyndromesOfErrors(rs, f, w, c);
    LocatorGenerates(f, ys, xs, s);
    ShortRecurrenceIsLocator(f, ys, xs, s, lambda, el);
    ShortRecurrenceVanishes(f, ys, xs, s, lambda, el);
  }

  /** The list of roots is complete and every root comes with its position. */
  ghost predicate Searched(rs: Rs, f: Field, w: seq<nat>, deg: nat, root: seq<nat>, loc: seq<nat>) {
    && |root| == |loc| <= deg < |w|
    && (forall k :: 0 <= k < |root| ==> 1 <= root[k] <= rs.nn && IsRoot(f, w, deg, root[k]) && PointsTo(rs, root[k], loc[k]))
    && (forall r :: 1 <= r <= rs.nn && IsRoot(f, w, deg, r) ==> r in root)
    && forall k, l :: 0 <= k < l < |loc| ==> loc[k] != loc[l]
  }

  /** Every located position carries an error. */
  lemma RootIsError(rs: Rs, f: Field, es: seq<nat>, w: seq<nat>, root: seq<nat>, loc: seq<nat>, k: nat, p: nat)
    requires Valid(rs, f) && AllIn(f, w) && Searched(rs, f, w, |es|, root, loc) && k < |root|
    requires forall l :: 0 <= l < |es| ==> es[l] < rs.nn
    requires forall x :: In(f, x) && x != 0 && Eval(f, w[..|es| + 1], x) == 0 ==> x in Locate(f, rs.prim, es)
    requires loc[k] < rs.nn && p == rs.prim * (rs.nn - 1 - loc[k])
    ensures Mul(f, Alpha(f, root[k]), Alpha(f, p)) == 1 && rs.nn - 1 - loc[k] in es
  {
    hide Alpha, Mul, Eval, Locate, IsRoot, HasTables, Generator, Primitive, InRange;
    PrimInverts(rs, f);
    var r, e := root[k], rs.nn - 1 - loc[k];
    RootOfWord(f, w, |es|, r);
    assert PointsTo(rs, r, loc[k]);
    LocationIsLocator(f, rs.prim, r, loc[k], e);
    AlphaIn(f, NN(f) - r);
    AlphaNonzero(f, NN(f) - r);
    var l :| 0 <= l < |es| && Locate(f, rs.prim, es)[l] == Alpha(f, NN(f) - r);
    LocateAt(f, rs.prim, es, l);
    DifferentLocators(f, rs.prim, rs.iprim, e, es[l]);
  }

  /** Every error is located. */
  lemma ErrorHasRoot(rs: Rs, f: Field, es: seq<nat>, w: seq<nat>, root: seq<nat>, loc: seq<nat>, l: nat, p: nat)
    returns (k: nat)
    requires Valid(rs, f) && AllIn(f, w) && Searched(rs, f, w, |es|, root, loc) && l < |es| && es[l] < rs.nn
    requires p == rs.prim * es[l] && Eval(f, w[..|es| + 1], Alpha(f, p)) == 0
    ensures k < |loc| && loc[k] == rs.nn - 1 - es[l] && Mul(f, Alpha(f, root[k]), Alpha(f, p)) == 1
  {
    hide Alpha, Mul, Eval, IsRoot, HasTables, Generator, Primitive, InRange;
    PrimInverts(rs, f);
    var r := rs.nn - p % rs.nn;
    AlphaMod(f, p);
    RootOfWord(f, w, |es|, r);
    assert r in root;
    k :| 0 <= k < |root| && root[k] == r;
    assert PointsTo(rs, r, loc[k]);
    LocationIsLocator(f, rs.prim, r, loc[k], rs.nn - 1 - loc[k]);
    DifferentLocators(f, rs.prim, rs.iprim, rs.nn - 1 - loc[k], es[l]);
  }

  // ---------------------------------------------------------------- counting

  /** Positions, counted from the front of a full block, of the powers es. */
  function Positions(nn: nat, es: seq<nat>): (ps: seq<nat>)
    ensures |ps| == |es|
  {
    seq(|es|, l requires 0 <= l < |es| => if es[l] < nn then nn - 1 - es[l] else 0)
  }

  /** As many roots are found as there are errors. */
  lemma AllErrorsFound(rs: Rs, f: Field, es: seq<nat>, w: seq<nat>, root: seq<nat>, loc: seq<nat>)
    requires Valid(rs, f) && AllIn(f, w) && Searched(rs, f, w, |es|, root, loc)
    requires forall l :: 0 <= l < |es| ==> es[l] < rs.nn
    requires forall l, m :: 0 <= l < m < |es| ==> es[l] != es[m]
    requires Locates(f, w[..|es| + 1], Locate(f, rs.prim, es))
    ensures |root| == |es|
  {
    hide Alpha, Mul, Eval, IsRoot, HasTables, Generator, Primitive;
    hide InRange, Valid, Locate, PointsTo, NN, Locates, Positions, In;
    var ps := Positions(rs.nn, es);
    PositionsApart(rs.nn, es);
    forall l | 0 <= l < |ps| ensures ps[l] in loc {
      LocateAt(f, rs.prim, es, l);
      RootsOf(f, w[..|es| + 1], Locate(f, rs.prim, es), l);
      var k := ErrorHasRoot(rs, f, es, w, root, loc, l, rs.prim * es[l]);
      assert loc[k] in loc;
    }
    DistinctInto(ps, loc);
  }

  lemma PositionsApart(nn: nat, es: seq<nat>)
    requires forall l :: 0 <= l < |es| ==> es[l] < nn
    requires forall l, m :: 0 <= l < m < |es| ==> es[l] != es[m]
    ensures forall l :: 0 <= l < |es| ==> Positions(nn, es)[l] == nn - 1 - es[l]
    ensures forall l, m :: 0 <= l < m < |es| ==> Positions(nn, es)[l] != Positions(nn, es)[m]
  {}

  // ---------------------------------------------------------------- the correction

  /** What the correction loop has done when it has handled the roots from number j on. */
  ghost predicate Fixed(rs: Rs, f: Field, before: seq<nat>, after: seq<nat>, root: seq<nat>, loc: seq<nat>, j: nat,
                        w: seq<nat>, s: seq<nat>, n: nat) {
    && |after| == |before| && |root| == |loc|
    && (forall p :: 0 <= p < |before| && (forall k :: j <= k < |loc| ==> loc[k] != p + rs.pad) ==> after[p] == before[p])
    && forall k :: j <= k < |loc| ==> FixedAt(rs, f, before, after, loc[k] - rs.pad, FixFor(rs, f, w, s, n, root[k]))
  }

  ghost predicate FixedAt(rs: Rs, f: Field, before: seq<nat>, after: seq<nat>, p: int, v: nat) {
    0 <= p < |before| && |after| == |before| ==> after[p] == Xor(before[p], v)
  }

  lemma FixedStep(rs: Rs, f: Field, before: seq<nat>, mid: seq<nat>, after: seq<nat>, root: seq<nat>, loc: seq<nat>, j: nat,
                  w: seq<nat>, s: seq<nat>, n: nat)
    requires Fixed(rs, f, before, mid, root, loc, j + 1, w, s, n) && j < |loc| && |after| == |before|
    requires forall k, l :: 0 <= k < l < |loc| ==> loc[k] != loc[l]
    requires forall p :: 0 <= p < |before| && p != loc[j] - rs.pad ==> after[p] == mid[p]
    requires var p := loc[j] - rs.pad; 0 <= p < |before| ==> after[p] == Xor(mid[p], FixFor(rs, f, w, s, n, root[j]))
    ensures Fixed(rs, f, before, after, root, loc, j, w, s, n)
  {
    hide FixFor, Xor;
    forall k | j <= k < |loc|
      ensures FixedAt(rs, f, before, after, loc[k] - rs.pad, FixFor(rs, f, w, s, n, root[k]))
    {
      var p := loc[k] - rs.pad;
      if k == j {
        if 0 <= p < |before| {
          forall m | j + 1 <= m < |loc| ensures loc[m] != p + rs.pad { assert loc[j] != loc[m]; }
          assert mid[p] == before[p];
        }
      } else {
        assert FixedAt(rs, f, before, mid, p, FixFor(rs, f, w, s, n, root[k]));
        assert loc[j] != loc[k];
      }
    }
  }

  /** lambda locates the errors that turn c into w, and the search has found its roots and no others. */
  ghost predicate AllLocated(rs: Rs, f: Field, w: seq<nat>, c: seq<nat>, lambda: seq<nat>, root: seq<nat>, loc: seq<nat>,
                             es: seq<nat>) {
    && |w| == |c| == rs.nn - rs.pad && es == Support(Sum(w, c)) && |es| < |lambda|
    && Located(rs, f, Sum(w, c), es, Syndromes(rs, f, w), lambda)
    && Searched(rs, f, lambda, |es|, root, loc)
    && forall x :: In(f, x) && x != 0 && Eval(f, lambda[..|es| + 1], x) == 0 ==> x in Locate(f, rs.prim, es)
  }

  /** The corrected block is the codeword. */
  lemma CorrectionRestores(rs: Rs, f: Field, w: seq<nat>, c: seq<nat>, after: seq<nat>, lambda: seq<nat>,
                           root: seq<nat>, loc: seq<nat>, es: seq<nat>)
    requires Valid(rs, f) && AllLocated(rs, f, w, c, lambda, root, loc, es)
    requires Fixed(rs, f, w, after, root, loc, 0, lambda, Syndromes(rs, f, w), |es|)
    ensures after == c
  {
    hide *;
    SameLengthAfter(rs, f, w, after, root, loc, lambda, Syndromes(rs, f, w), |es|);
    AllLocatedParts(rs, f, w, c, lambda, root, loc, es);
    forall p | 0 <= p < |w| ensures after[p] == c[p] {
      if |w| - 1 - p in es {
        var l :| 0 <= l < |es| && es[l] == |w| - 1 - p;
        ErrorIsCorrected(rs, f, w, c, after, lambda, root, loc, es, l);
      } else {
        CleanStaysClean(rs, f, w, c, after, lambda, root, loc, es, p);
      }
    }
  }

  lemma AllLocatedParts(rs: Rs, f: Field, w: seq<nat>, c: seq<nat>, lambda: seq<nat>, root: seq<nat>, loc: seq<nat>,
                        es: seq<nat>)
    requires AllLocated(rs, f, w, c, lambda, root, loc, es)
    ensures |w| == |c| == rs.nn - rs.pad && es == Support(Sum(w, c)) && |es| < |lambda| && AllIn(f, lambda)
    ensures Located(rs, f, Sum(w, c), es, Syndromes(rs, f, w), lambda) && Searched(rs, f, lambda, |es|, root, loc)
    ensures forall l :: 0 <= l < |es| ==> es[l] < |w|
    ensures forall x :: In(f, x) && x != 0 && Eval(f, lambda[..|es| + 1], x) == 0 ==> x in Locate(f, rs.prim, es)
  {
    hide Errors, Locates, Searched, Eval, In;
    SumLength(w, c);
  }

  lemma SameLengthAfter(rs: Rs, f: Field, w: seq<nat>, after: seq<nat>, root: seq<nat>, loc: seq<nat>, lambda: seq<nat>,
                        s: seq<nat>, n: nat)
    requires Fixed(rs, f, w, after, root, loc, 0, lambda, s, n)
    ensures |after| == |w|
  {}

  lemma ErrorIsCorrected(rs: Rs, f: Field, w: seq<nat>, c: seq<nat>, after: seq<nat>, lambda: seq<nat>,
                         root: seq<nat>, loc: seq<nat>, es: seq<nat>, l: nat)
    requires Valid(rs, f) && AllLocated(rs, f, w, c, lambda, root, loc, es) && |after| == |w| && l < |es|
    requires Fixed(rs, f, w, after, root, loc, 0, lambda, Syndromes(rs, f, w), |es|)
    ensures var p := |w| - 1 - es[l]; 0 <= p < |w| && after[p] == c[p]
  {
    hide Valid, Alpha, Mul, Xor, Eval, Sum, Support, Locate;
    hide Weights, Syndromes, FixFor, IsRoot, PointsTo, Errors, NN, Locates, Primitive;
    var e, s := Sum(w, c), Syndromes(rs, f, w);
    var q: nat := rs.prim * es[l];
    var p := |w| - 1 - es[l];
    LocateAt(f, rs.prim, es, l);
    RootsOf(f, lambda[..|es| + 1], Locate(f, rs.prim, es), l);
    var k := ErrorHasRoot(rs, f, es, lambda, root, loc, l, q);
    FixIsError(rs, f, e, es, s, lambda, l, root[k], q, q * rs.fcr);
    assert FixedAt(rs, f, w, after, loc[k] - rs.pad, FixFor(rs, f, lambda, s, |es|, root[k]));
    SumAt(w, c, p);
    XorCancel(w[p], c[p]);
  }

  lemma RootsOf(f: Field, w: seq<nat>, xs: seq<nat>, l: nat)
    requires Locates(f, w, xs) && l < |xs|
    ensures Eval(f, w, xs[l]) == 0
  {}

  lemma CleanStaysClean(rs: Rs, f: Field, w: seq<nat>, c: seq<nat>, after: seq<nat>, lambda: seq<nat>,
                        root: seq<nat>, loc: seq<nat>, es: seq<nat>, p: nat)
    requires Valid(rs, f) && AllLocated(rs, f, w, c, lambda, root, loc, es) && |after| == |w| && p < |w|
    requires Fixed(rs, f, w, after, root, loc, 0, lambda, Syndromes(rs, f, w), |es|) && |w| - 1 - p !in es
    ensures p < |c| && after[p] == c[p]
  {
    hide *;
    AllLocatedParts(rs, f, w, c, lambda, root, loc, es);
    CleanSymbol(w, c, p);
    forall k | 0 <= k < |loc| && k < |root| ensures loc[k] != p + rs.pad {
      NotLocated(rs, f, w, c, lambda, root, loc, es, p, k);
    }
    Untouched(rs, f, w, after, root, loc, lambda, Syndromes(rs, f, w), |es|, p);
  }

  lemma NotLocated(rs: Rs, f: Field, w: seq<nat>, c: seq<nat>, lambda: seq<nat>, root: seq<nat>, loc: seq<nat>,
                   es: seq<nat>, p: nat, k: nat)
    requires Valid(rs, f) && AllLocated(rs, f, w, c, lambda, root, loc, es) && p < |w| && |w| - 1 - p !in es
    requires k < |root| && k < |loc|
    ensures loc[k] != p + rs.pad
  {
    hide *;
    AllLocatedParts(rs, f, w, c, lambda, root, loc, es);
    if loc[k] == p + rs.pad {
      var q: nat := rs.prim * (|w| - 1 - p);
      RootIsError(rs, f, es, lambda, root, loc, k, q);
    }
  }

  lemma CleanSymbol(w: seq<nat>, c: seq<nat>, p: nat)
    requires |w| == |c| && p < |w| && |w| - 1 - p !in Support(Sum(w, c))
    ensures w[p] == c[p] && |Sum(w, c)| == |w|
  {
    hide Xor;
    SupportIsNonzero(Sum(w, c));
    assert AtPower(Sum(w, c), |w| - 1 - p) == Sum(w, c)[p];
    SumAt(w, c, p);
    XorZeroIffEqual(w[p], c[p]);
  }

  lemma Untouched(rs: Rs, f: Field, before: seq<nat>, after: seq<nat>, root: seq<nat>, loc: seq<nat>, w: seq<nat>,
                  s: seq<nat>, n: nat, p: nat)
    requires Fixed(rs, f, before, after, root, loc, 0, w, s, n) && p < |before|
    requires forall k :: 0 <= k < |loc| && k < |root| ==> loc[k] != p + rs.pad
    ensures |after| == |before| && after[p] == before[p]
  {
    hide FixedAt;
  }

  lemma MonicLocator(f: Field, w: seq<nat>, el: nat, s: seq<nat>, deg: nat)
    requires Generates(f, w, el, s, |s|) && deg < |w|
    requires (forall i :: deg < i < |w| ==> w[i] == 0) && (deg > 0 ==> w[deg] != 0)
    ensures w[0] == 1 && HasDegree(w, deg)
  {
    hide Conv;
  }

  /** With few enough errors the search finds as many roots as there are errors, and the correction restores the
      codeword. */
  lemma FewErrorsAreFound(rs: Rs, f: Field, w: seq<nat>, c: seq<nat>, lambda: seq<nat>, el: nat, deg: nat,
                          root: seq<nat>, loc: seq<nat>)
    requires Valid(rs, f) && |w| == rs.nn - rs.pad && AllIn(f, w) && Correctable(rs, f, w, c)
    requires AllIn(f, lambda) && |lambda| == rs.nroots + 1 && HasDegree(lambda, deg)
    requires Generates(f, lambda, el, Syndromes(rs, f, w), rs.nroots) && Shortest(f, el, Syndromes(rs, f, w), rs.nroots)
    requires Searched(rs, f, lambda, deg, root, loc)
    ensures |root| == deg == Differences(w, c)
    ensures forall after :: Fixed(rs, f, w, after, root, loc, 0, lambda, Syndromes(rs, f, w), deg) ==> after == c
  {
    hide *;
    CorrectableParts(rs, f, w, c);
    PadBelow(rs, f);
    LambdaLocates(rs, f, w, c, lambda, el, deg);
    var es := Support(Sum(w, c));
    LocatedAll(rs, f, Sum(w, c), es, Syndromes(rs, f, w), lambda);
    AllLocatedFrom(rs, f, w, c, lambda, root, loc, es);
    SupportIsDistinct(rs, w, c);
    AllErrorsFound(rs, f, es, lambda, root, loc);
    forall after | Fixed(rs, f, w, after, root, loc, 0, lambda, Syndromes(rs, f, w), deg) ensures after == c {
      CorrectionRestores(rs, f, w, c, after, lambda, root, loc, es);
    }
  }

  lemma AllLocatedFrom(rs: Rs, f: Field, w: seq<nat>, c: seq<nat>, lambda: seq<nat>, root: seq<nat>, loc: seq<nat>,
                       es: seq<nat>)
    requires |w| == |c| == rs.nn - rs.pad && es == Support(Sum(w, c)) && |es| < |lambda|
    requires Located(rs, f, Sum(w, c), es, Syndromes(rs, f, w), lambda) && Searched(rs, f, lambda, |es|, root, loc)
    requires forall x :: In(f, x) && x != 0 && Eval(f, lambda[..|es| + 1], x) == 0 ==> x in Locate(f, rs.prim, es)
    ensures AllLocated(rs, f, w, c, lambda, root, loc, es)
  {}

  lemma PadBelow(rs: Rs, f: Field)
    requires Valid(rs, f)
    ensures rs.nn - rs.pad <= rs.nn
  {}

  lemma LocatedAll(rs: Rs, f: Field, e: seq<nat>, es: seq<nat>, s: seq<nat>, w: seq<nat>)
    requires Located(rs, f, e, es, s, w)
    ensures |es| < |w| && Locates(f, w[..|es| + 1], Locate(f, rs.prim, es))
  {
    hide Errors, Locates;
  }

  lemma SupportIsDistinct(rs: Rs, w: seq<nat>, c: seq<nat>)
    requires |w| == |c| <= rs.nn
    ensures var es := Support(Sum(w, c));
            && (forall l :: 0 <= l < |es| ==> es[l] < rs.nn)
            && forall l, m :: 0 <= l < m < |es| ==> es[l] != es[m]
  {
    hide Sum;
    SupportIsNonzero(Sum(w, c));
    SumLength(w, c);
  }

  lemma SumLength(w: seq<nat>, c: seq<nat>)
    requires |w| == |c|
    ensures |Sum(w, c)| == |w|
  {}

  lemma NothingFixed(rs: Rs, f: Field, before: seq<nat>, after: seq<nat>, root: seq<nat>, loc: seq<nat>, w: seq<nat>,
                     s: seq<nat>, n: nat)
    requires Fixed(rs, f, before, after, root, loc, 0, w, s, n) && root == []
    ensures after == before
  {}

  lemma RootsApart(n: nat, r: nat, r': nat)
    requires 1 <= r < r' <= n
    ensures r % n != r' % n
  {
    ModOfSmall(r, n);
    if r' < n { ModOfSmall(r', n); }
  }

  /** Different roots point to different positions. */
  lemma DifferentPositions(rs: Rs, r: nat, r': nat, l: nat, l': nat)
    requires 1 <= r < r' <= rs.nn && PointsTo(rs, r, l) && PointsTo(rs, r', l')
    ensures l != l'
  {
    RootsApart(rs.nn, r, r');
  }
}
