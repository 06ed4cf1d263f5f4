/** What a call of the decoder makes of a received word, whether or not a codeword is near, and when its answer can be
    trusted. */
module RsOutcome {
  import opened Arithmetic
  import opened BerlekampMassey
  import opened Bits
  import opened ChienForney
  import opened ErrorLocation
  import opened ExclusiveOr
  import opened GaloisField
  import opened Interpolation
  import opened Locators
  import opened PowerSums
  import opened RsEncode
  import opened RsErrors
  import opened RsInit
  import opened Sequences
  import opened Words

  // ---------------------------------------------------------------- the length of a shortest recurrence

  ghost predicate Generated(f: Field, s: seq<nat>, len: nat) { exists c :: Generates(f, c, len, s, |s|) }

  lemma {:induction false} ShortestExists(f: Field, s: seq<nat>, len: nat) returns (n: nat)
    requires Generated(f, s, len)
    ensures Generated(f, s, n) && Shortest(f, n, s, |s|)
    decreases len
  {
    hide Generates;
    if Shortest(f, len, s, |s|) {
      n := len;
    } else {
      var c: seq<nat>, less: nat :| Generates(f, c, less, s, |s|) && less < len;
      assert Generated(f, s, less);
      n := ShortestExists(f, s, less);
    }
  }

  /** The linear complexity of s: the length of its shortest recurrences. */
  ghost function LinearComplexity(f: Field, s: seq<nat>): (n: nat)
    ensures Generated(f, s, n) && Shortest(f, n, s, |s|)
  {
    assert exists n :: Generated(f, s, n) && Shortest(f, n, s, |s|) by {
      assert Generates(f, [1], |s|, s, |s|);
      assert Generated(f, s, |s|);
      var m := ShortestExists(f, s, |s|);
    }
    var n: nat :| Generated(f, s, n) && Shortest(f, n, s, |s|);
    n
  }

  lemma ComplexityIs(f: Field, s: seq<nat>, c: seq<nat>, el: nat)
    requires Generates(f, c, el, s, |s|) && Shortest(f, el, s, |s|)
    ensures el == LinearComplexity(f, s)
  {
    hide Generates;
    var n := LinearComplexity(f, s);
    assert Shortest(f, n, s, |s|);
    var d :| Generates(f, d, n, s, |s|);
  }

  // ---------------------------------------------------------------- the outcome of a call

  /** lambda is a shortest recurrence for the syndromes of w, and root and loc are what the search finds. */
  ghost predicate Search(rs: Rs, f: Field, w: seq<nat>, lambda: seq<nat>, deg: nat, root: seq<nat>, loc: seq<nat>) {
    && AllIn(f, lambda) && |lambda| == rs.nroots + 1 && HasDegree(lambda, deg)
    && Generates(f, lambda, LinearComplexity(f, Syndromes(rs, f, w)), Syndromes(rs, f, w), rs.nroots)
    && Searched(rs, f, lambda, deg, root, loc)
  }

  /** The block before becomes after, count is returned and the positions pos are reported: if the search finds as many
      roots as the degree allows every located position is corrected, otherwise the block is given up. */
  ghost predicate Outcome(rs: Rs, f: Field, before: seq<nat>, after: seq<nat>, count: int, pos: seq<nat>) {
    exists lambda, deg, root, loc :: Search(rs, f, before, lambda, deg, root, loc)
      && if |root| == deg
         then count == deg && pos == loc
              && Fixed(rs, f, before, after, root, loc, 0, lambda, Syndromes(rs, f, before), deg)
         else count == -1 && after == before && pos == []
  }

  lemma SearchFrom(rs: Rs, f: Field, w: seq<nat>, lambda: seq<nat>, el: nat, deg: nat, root: seq<nat>, loc: seq<nat>)
    requires AllIn(f, lambda) && |lambda| == rs.nroots + 1 && HasDegree(lambda, deg)
    requires Generates(f, lambda, el, Syndromes(rs, f, w), rs.nroots) && Shortest(f, el, Syndromes(rs, f, w), rs.nroots)
    requires Searched(rs, f, lambda, deg, root, loc)
    ensures Search(rs, f, w, lambda, deg, root, loc)
  {
    hide Generates, Shortest, Searched, HasDegree, AllIn;
    ComplexityIs(f, Syndromes(rs, f, w), lambda, el);
  }

  lemma GivenUp(rs: Rs, f: Field, w: seq<nat>, lambda: seq<nat>, deg: nat, root: seq<nat>, loc: seq<nat>)
    requires Search(rs, f, w, lambda, deg, root, loc) && |root| != deg
    ensures Outcome(rs, f, w, w, -1, [])
  {
    hide Search;
  }

  lemma CorrectionDone(rs: Rs, f: Field, w: seq<nat>, after: seq<nat>, lambda: seq<nat>, deg: nat, root: seq<nat>, loc: seq<nat>)
    requires Search(rs, f, w, lambda, deg, root, loc) && |root| == deg
    requires Fixed(rs, f, w, after, root, loc, 0, lambda, Syndromes(rs, f, w), deg)
    ensures Outcome(rs, f, w, after, deg, loc)
  {
    hide Search, Fixed;
  }

  lemma OutcomeLength(rs: Rs, f: Field, w: seq<nat>, after: seq<nat>, count: int, pos: seq<nat>)
    requires Outcome(rs, f, w, after, count, pos)
    ensures |after| == |w| && -1 <= count <= rs.nroots && |pos| == if count < 0 then 0 else count
    ensures count < 0 ==> after == w
  {
    hide Generates, Syndromes, FixedAt, IsRoot;
  }

  /** Without a nonzero syndrome nothing is found and nothing changes. */
  lemma OutcomeOfNoErrors(rs: Rs, f: Field, w: seq<nat>)
    requires forall i :: 0 <= i < rs.nroots ==> Syndromes(rs, f, w)[i] == 0
    ensures Outcome(rs, f, w, w, 0, [])
  {
    hide Conv, Eval, LowEval, Root, In, NN, LinearComplexity, FixedAt, Shortest, PointsTo;
    var s, lambda := Syndromes(rs, f, w), [1] + seq(rs.nroots, _ => 0);
    forall j | 0 <= j < |s| ensures Conv(f, lambda, s, j) == 0 { ConvOfZeros(f, lambda, s, j); }
    assert Shortest(f, 0, s, |s|) by { NothingIsShorter(f, s); }
    ComplexityIs(f, s, lambda, 0);
    OneIn(f);
    forall i ensures !IsRoot(f, lambda, 0, i) { ConstantTerm(f, lambda, Alpha(f, i)); }
    assert Searched(rs, f, lambda, 0, [], []);
    assert Search(rs, f, w, lambda, 0, [], []);
  }

  lemma OneIn(f: Field)
    ensures In(f, 1) && In(f, 0)
  {
    FieldSize(f);
  }

  lemma NothingIsShorter(f: Field, s: seq<nat>)
    ensures Shortest(f, 0, s, |s|)
  {
    forall c, len | Generates(f, c, len, s, |s|) ensures 0 <= len {}
  }

  lemma {:induction false} ConvOfZeros(f: Field, c: seq<nat>, s: seq<nat>, j: int)
    requires forall i :: 0 <= i < |s| ==> s[i] == 0
    ensures Conv(f, c, s, j) == 0
    decreases |c|
  {
    hide Mul, Xor;
    if c != [] {
      ConvOfZeros(f, Front(c), s, j);
      MulZero(f, Last(c));
      XorZero(0);
    }
  }

  /** A codeword with few enough errors is restored, and the number of errors is returned. */
  lemma OutcomeCorrects(rs: Rs, f: Field, w: seq<nat>, after: seq<nat>, count: int, pos: seq<nat>, c: seq<nat>)
    requires Valid(rs, f) && |w| == rs.nn - rs.pad && AllIn(f, w) && Outcome(rs, f, w, after, count, pos)
    requires Correctable(rs, f, w, c)
    ensures after == c && count == Differences(w, c)
  {
    hide Generates, Syndromes, Fixed, Searched, Correctable, Valid, Differences, AllIn, HasDegree;
    var lambda, deg, root, loc :| Search(rs, f, w, lambda, deg, root, loc)
      && if |root| == deg
         then count == deg && pos == loc && Fixed(rs, f, w, after, root, loc, 0, lambda, Syndromes(rs, f, w), deg)
         else count == -1 && after == w && pos == [];
    FewErrorsAreFound(rs, f, w, c, lambda, LinearComplexity(f, Syndromes(rs, f, w)), deg, root, loc);
  }

  // ---------------------------------------------------------------- codewords are not nearer than the complexity

  /** No codeword is nearer to a word than the linear complexity of its syndromes. */
  lemma ComplexityBelowDistance(rs: Rs, f: Field, w: seq<nat>, c: seq<nat>)
    requires Valid(rs, f) && |c| == |w| <= rs.nn && AllIn(f, w) && IsCodeword(rs, f, c)
    ensures LinearComplexity(f, Syndromes(rs, f, w)) <= Differences(w, c)
  {
    hide Generates, Valid, Errors, IsCodeword, AllIn, Weights, Locate, Differences, Support, Sum;
    var e, s := Sum(w, c), Syndromes(rs, f, w);
    var es := Support(e);
    SyndromesOfErrors(rs, f, w, c);
    SupportBelow(e);
    LocatorGenerates(f, Weights(f, rs.fcr, rs.prim, e, es), Locate(f, rs.prim, es), s);
    assert Shortest(f, LinearComplexity(f, s), s, |s|);
  }

  lemma SupportBelow(e: seq<nat>)
    ensures forall l :: 0 <= l < |Support(e)| ==> Support(e)[l] < |e|
  {}

  // ---------------------------------------------------------------- how much changes

  /** The correction changes located positions only, and none that lies in the padding. */
  lemma ChangesFew(rs: Rs, f: Field, w: seq<nat>, after: seq<nat>, root: seq<nat>, loc: seq<nat>, lambda: seq<nat>,
                   s: seq<nat>, n: nat)
    requires |w| == rs.nn - rs.pad && Fixed(rs, f, w, after, root, loc, 0, lambda, s, n)
    ensures Differences(w, after) <= |loc|
    ensures forall k :: 0 <= k < |loc| && loc[k] < rs.pad ==> Differences(w, after) < |loc|
  {
    hide Differences, Support, Sum, FixedAt, Positions;
    var es := Support(Sum(w, after));
    var ps := Positions(rs.nn, es);
    DifferencesAreSupport(w, after);
    SumLength(w, after);
    SupportIsNonzero(Sum(w, after));
    PositionsApart(rs.nn, es);
    forall l | 0 <= l < |ps| ensures ps[l] in loc && ps[l] >= rs.pad {
      ChangedIsLocated(rs, f, w, after, root, loc, lambda, s, n, es[l]);
    }
    DistinctInto(ps, loc);
    forall k | 0 <= k < |loc| && loc[k] < rs.pad ensures |es| < |loc| {
      forall l | 0 <= l < |ps| ensures ps[l] in Without(loc, k) {
        var m :| 0 <= m < |loc| && loc[m] == ps[l];
        assert Without(loc, k)[if m < k then m else m - 1] == ps[l];
      }
      DistinctInto(ps, Without(loc, k));
    }
  }

  lemma ChangedIsLocated(rs: Rs, f: Field, w: seq<nat>, after: seq<nat>, root: seq<nat>, loc: seq<nat>, lambda: seq<nat>,
                         s: seq<nat>, n: nat, e: nat)
    requires |w| == rs.nn - rs.pad && Fixed(rs, f, w, after, root, loc, 0, lambda, s, n)
    requires e < |Sum(w, after)| == |w| && AtPower(Sum(w, after), e) != 0
    ensures rs.nn - 1 - e in loc && rs.nn - 1 - e >= rs.pad
  {
    hide FixedAt, Sum, Xor;
    var p := |w| - 1 - e;
    SumAt(w, after, p);
    XorZeroIffEqual(w[p], after[p]);
    assert after[p] != w[p];
    var k :| 0 <= k < |loc| && loc[k] == p + rs.pad;
  }

  // ---------------------------------------------------------------- a word with given symbols at given powers

  ghost function Placed(n: nat, es: seq<nat>, vs: seq<nat>): (w: seq<nat>)
    requires |vs| == |es|
    ensures |w| == n
  {
    if es == [] then seq(n, _ => 0)
    else
      var w := Placed(n, Front(es), Front(vs));
      if Last(es) < n then w[n - 1 - Last(es) := Last(vs)] else w
  }

  lemma {:induction false} PlacedElsewhere(n: nat, es: seq<nat>, vs: seq<nat>, q: nat)
    requires |vs| == |es| && q < n && q !in es
    ensures AtPower(Placed(n, es, vs), q) == 0
    decreases |es|
  {
    if es != [] {
      assert q !in Front(es) && Last(es) in es;
      PlacedElsewhere(n, Front(es), Front(vs), q);
    }
  }

  lemma {:induction false} PlacedAt(n: nat, es: seq<nat>, vs: seq<nat>, l: nat)
    requires |vs| == |es| && l < |es| && es[l] < n
    requires forall l, m :: 0 <= l < m < |es| ==> es[l] != es[m]
    ensures AtPower(Placed(n, es, vs), es[l]) == vs[l]
    decreases |es|
  {
    if l < |es| - 1 {
      assert es[l] != es[|es| - 1];
      PlacedAt(n, Front(es), Front(vs), l);
    }
  }

  lemma {:induction false} PlacedIn(f: Field, n: nat, es: seq<nat>, vs: seq<nat>)
    requires |vs| == |es| && AllIn(f, vs)
    ensures AllIn(f, Placed(n, es, vs))
    decreases |es|
  {
    hide NN;
    ZeroIn(f);
    if es != [] { PlacedIn(f, n, Front(es), Front(vs)); }
  }

  /** One more symbol in a word. */
  lemma {:induction false} EvalPut(f: Field, w: seq<nat>, p: nat, v: nat, x: nat)
    requires p < |w| && w[p] == 0 && AllIn(f, w) && In(f, v)
    ensures Eval(f, w[p := v], x) == Xor(Eval(f, w, x), Mul(f, v, Pow(f, x, |w| - 1 - p)))
    decreases |w|
  {
    hide Mul, Xor, Eval, Pow, NN;
    var t := w[1..];
    assert w == [w[0]] + t;
    EvalPrepend(f, w[0], t, x);
    var m := Mul(f, v, Pow(f, x, |w| - 1 - p));
    if p == 0 {
      assert w[p := v] == [v] + t;
      EvalPrepend(f, v, t, x);
      MulZero(f, Pow(f, x, |t|));
      XorZero(Eval(f, t, x));
      XorCommutes(m, Eval(f, t, x));
    } else {
      assert w[p := v] == [w[0]] + t[p - 1 := v];
      EvalPut(f, t, p - 1, v, x);
      EvalPrepend(f, w[0], t[p - 1 := v], x);
      XorAssociates(Mul(f, w[0], Pow(f, x, |t|)), Eval(f, t, x), m);
    }
  }

  /** ys are the symbols vs at the powers es as the first syndrome sees them. */
  ghost predicate Seen(rs: Rs, f: Field, es: seq<nat>, vs: seq<nat>, ys: seq<nat>) {
    && |es| == |vs| == |ys| && AllIn(f, vs)
    && forall l :: 0 <= l < |es| ==> Mul(f, vs[l], Alpha(f, rs.prim * es[l] * rs.fcr)) == ys[l]
  }

  lemma {:induction false} SymbolsSeen(rs: Rs, f: Field, es: seq<nat>, ys: seq<nat>) returns (vs: seq<nat>)
    requires |ys| == |es| && AllIn(f, ys)
    ensures Seen(rs, f, es, vs, ys)
    decreases |es|
  {
    hide Mul, Alpha, In;
    if es == [] {
      vs := [];
    } else {
      var k := rs.prim * Last(es) * rs.fcr;
      var front := SymbolsSeen(rs, f, Front(es), Front(ys));
      AlphaIn(f, k);
      AlphaNonzero(f, k);
      assert In(f, Last(ys));
      var v := Divide(f, Last(ys), Alpha(f, k));
      vs := front + [v];
    }
  }

  /** The syndromes of the word with the symbols vs at the powers es. */
  lemma {:induction false} SyndromeOfPlaced(rs: Rs, f: Field, n: nat, es: seq<nat>, vs: seq<nat>, ys: seq<nat>, i: nat)
    requires Seen(rs, f, es, vs, ys)
    requires (forall l :: 0 <= l < |es| ==> es[l] < n) && forall l, m :: 0 <= l < m < |es| ==> es[l] != es[m]
    ensures Eval(f, Placed(n, es, vs), Root(rs, f, i)) == PowerSum(f, ys, Locate(f, rs.prim, es), i)
    decreases |es|
  {
    hide Mul, Alpha, In, Eval, RootIndex, PowerSum;
    if es == [] {
      EvalZeros(f, Placed(n, es, vs), Root(rs, f, i));
      NoSum(f, i);
    } else {
      var e, v := Last(es), Last(vs);
      var w := Placed(n, Front(es), Front(vs));
      SyndromeOfPlaced(rs, f, n, Front(es), Front(vs), Front(ys), i);
      assert e !in Front(es);
      PlacedElsewhere(n, Front(es), Front(vs), e);
      PlacedIn(f, n, Front(es), Front(vs));
      assert In(f, v);
      EvalPut(f, w, n - 1 - e, v, Root(rs, f, i));
      TermOfSyndrome(f, rs.fcr, rs.prim, v, e, i);
      FrontLast(ys);
      PowerSumAppend(f, Front(ys), Locate(f, rs.prim, Front(es)), Last(ys), Alpha(f, rs.prim * e), i);
    }
  }

  lemma NoSum(f: Field, i: nat)
    ensures PowerSum(f, [], [], i) == 0
  {}

  // ---------------------------------------------------------------- when the corrected word is a codeword

  /** Root r and position l belong to the same locator, and w vanishes there. */
  ghost predicate SameLocator(rs: Rs, f: Field, w: seq<nat>, r: nat, l: nat) {
    l < rs.nn == NN(f) && 1 <= r <= rs.nn && RootAt(f, w, r, LocatorPower(rs, l))
  }

  /** The exponent of the locator that belongs to position l. */
  function LocatorPower(rs: Rs, l: nat): nat {
    if l < rs.nn then rs.prim * (rs.nn - 1 - l) else 0
  }

  ghost predicate RootAt(f: Field, w: seq<nat>, r: nat, k: nat) {
    Mul(f, Alpha(f, r), Alpha(f, k)) == 1 && Eval(f, w, Alpha(f, k)) == 0
  }

  lemma RootOfPosition(rs: Rs, f: Field, lambda: seq<nat>, deg: nat, root: seq<nat>, loc: seq<nat>, l: nat)
    requires Valid(rs, f) && AllIn(f, lambda) && Searched(rs, f, lambda, deg, root, loc) && l < |root|
    ensures l < |loc| && deg < |lambda| && SameLocator(rs, f, lambda[..deg + 1], root[l], loc[l])
  {
    hide Alpha, Mul, Eval, IsRoot, HasTables, Generator, Primitive, InRange;
    PrimInverts(rs, f);
    assert IsRoot(f, lambda, deg, root[l]) && PointsTo(rs, root[l], loc[l]);
    RootOfWord(f, lambda, deg, root[l]);
    LocationIsLocator(f, rs.prim, root[l], loc[l], rs.nn - 1 - loc[l]);
  }

  lemma Vanishes(f: Field, w: seq<nat>, r: nat, k: nat)
    requires RootAt(f, w, r, k)
    ensures Mul(f, Alpha(f, r), Alpha(f, k)) == 1 && Eval(f, w, Alpha(f, k)) == 0
  {}

  /** The positions found, as powers, give locators at which lambda vanishes. */
  lemma PositionsLocate(rs: Rs, f: Field, lambda: seq<nat>, deg: nat, root: seq<nat>, loc: seq<nat>)
    requires Valid(rs, f) && AllIn(f, lambda) && Searched(rs, f, lambda, deg, root, loc) && |root| == deg && lambda[0] == 1
    ensures var es := Positions(rs.nn, loc);
            && |es| == |loc| == deg < |lambda|
            && (forall l :: 0 <= l < |es| ==> es[l] == rs.nn - 1 - loc[l] < rs.nn)
            && (forall l, m :: 0 <= l < m < |es| ==> es[l] != es[m])
            && Locates(f, lambda[..deg + 1], Locate(f, rs.prim, es))
  {
    hide Alpha, Mul, Eval, IsRoot, Valid, Locate, PointsTo, In, NN, RootAt;
    var es := Positions(rs.nn, loc);
    forall l | 0 <= l < |es| ensures es[l] == rs.nn - 1 - loc[l] < rs.nn == NN(f) {
      RootOfPosition(rs, f, lambda, deg, root, loc, l);
    }
    PrimInverts(rs, f);
    LocatorsAreGood(f, rs.prim, rs.iprim, es);
    var xs := Locate(f, rs.prim, es);
    forall l | 0 <= l < |xs| ensures Eval(f, lambda[..deg + 1], xs[l]) == 0 {
      RootOfPosition(rs, f, lambda, deg, root, loc, l);
      LocateAt(f, rs.prim, es, l);
      Vanishes(f, lambda[..deg + 1], root[l], LocatorPower(rs, loc[l]));
    }
  }

  /** The errors that the search stands for: a word on a full block with these symbols at the positions found, whose
      syndromes are those received. */
  lemma FoundErrors(rs: Rs, f: Field, w: seq<nat>, lambda: seq<nat>, deg: nat, root: seq<nat>, loc: seq<nat>)
    returns (vs: seq<nat>)
    requires Valid(rs, f) && AllIn(f, w) && Search(rs, f, w, lambda, deg, root, loc)
    requires |root| == deg == LinearComplexity(f, Syndromes(rs, f, w))
    ensures var es := Positions(rs.nn, loc);
            && |vs| == |es| && AllIn(f, vs)
            && Located(rs, f, Placed(rs.nn, es, vs), es, Syndromes(rs, f, w), lambda)
            && forall i :: 0 <= i < rs.nroots ==> Eval(f, Placed(rs.nn, es, vs), Root(rs, f, i)) == Syndromes(rs, f, w)[i]
  {
    hide Alpha, Mul, Eval, Valid, Locate, Weights, Searched, In, NN;
    hide Locates, Errors, Conv, PowerSum, Placed, Positions, Seen, LinearComplexity, Root;
    var s, es := Syndromes(rs, f, w), Positions(rs.nn, loc);
    MonicLocator(f, lambda, deg, s, deg);
    PositionsLocate(rs, f, lambda, deg, root, loc);
    var xs := Locate(f, rs.prim, es);
    SyndromesIn(rs, f, w);
    assert Shortest(f, |xs|, s, |s|);
    var ys := RootsAreLocators(f, lambda, xs, s);
    assert AllIn(f, ys) && forall m :: 0 <= m < |s| ==> s[m] == PowerSum(f, ys, xs, m) by { ErrorsParts(f, ys, xs, s); }
    vs := SymbolsSeen(rs, f, es, ys);
    SeenParts(rs, f, es, vs, ys);
    var e := Placed(rs.nn, es, vs);
    PlacedIn(f, rs.nn, es, vs);
    WeightsOfPlaced(rs, f, es, vs, ys);
    forall i | 0 <= i < rs.nroots ensures Eval(f, e, Root(rs, f, i)) == s[i] {
      SyndromeOfPlaced(rs, f, rs.nn, es, vs, ys, i);
    }
  }

  lemma SyndromesIn(rs: Rs, f: Field, w: seq<nat>)
    requires AllIn(f, w)
    ensures AllIn(f, Syndromes(rs, f, w))
  {
    hide Eval, In, Root;
    forall i | 0 <= i < rs.nroots ensures In(f, Syndromes(rs, f, w)[i]) { EvalIn(f, w, Root(rs, f, i)); }
  }

  lemma ErrorsParts(f: Field, ys: seq<nat>, xs: seq<nat>, s: seq<nat>)
    requires Errors(f, ys, xs, s)
    ensures |ys| == |xs| && AllIn(f, ys) && forall m :: 0 <= m < |s| ==> s[m] == PowerSum(f, ys, xs, m)
  {
    hide PowerSum;
  }

  lemma SeenParts(rs: Rs, f: Field, es: seq<nat>, vs: seq<nat>, ys: seq<nat>)
    requires Seen(rs, f, es, vs, ys)
    ensures |es| == |vs| == |ys| && AllIn(f, vs)
  {}

  lemma WeightsOfPlaced(rs: Rs, f: Field, es: seq<nat>, vs: seq<nat>, ys: seq<nat>)
    requires Seen(rs, f, es, vs, ys) && forall l :: 0 <= l < |es| ==> es[l] < rs.nn
    requires forall l, m :: 0 <= l < m < |es| ==> es[l] != es[m]
    ensures Weights(f, rs.fcr, rs.prim, Placed(rs.nn, es, vs), es) == ys
  {
    hide Mul, Alpha, Placed, Weights, AllIn;
    var e := Placed(rs.nn, es, vs);
    forall l | 0 <= l < |es| ensures Weights(f, rs.fcr, rs.prim, e, es)[l] == ys[l] {
      WeightsAt(f, rs.fcr, rs.prim, e, es, l);
      PlacedAt(rs.nn, es, vs, l);
    }
  }

  /** Every symbol of the corrected word is the one received plus the error found there. */
  lemma AddsFoundErrors(rs: Rs, f: Field, w: seq<nat>, after: seq<nat>, lambda: seq<nat>, deg: nat, root: seq<nat>,
                        loc: seq<nat>, s: seq<nat>, vs: seq<nat>, p: nat)
    requires Valid(rs, f) && AllIn(f, lambda) && Searched(rs, f, lambda, deg, root, loc) && |root| == deg && lambda[0] == 1
    requires |w| == rs.nn - rs.pad && p < |w| && |vs| == |loc| && Fixed(rs, f, w, after, root, loc, 0, lambda, s, deg)
    requires var es := Positions(rs.nn, loc); Located(rs, f, Placed(rs.nn, es, vs), es, s, lambda)
    ensures |after| == |w| && after[p] == Xor(w[p], Placed(rs.nn, Positions(rs.nn, loc), vs)[p + rs.pad])
  {
    hide *;
    var es := Positions(rs.nn, loc);
    var q: nat := rs.nn - 1 - (p + rs.pad);
    SameLengthAfter(rs, f, w, after, root, loc, lambda, s, deg);
    PositionsLocate(rs, f, lambda, deg, root, loc);
    AtPosition(Placed(rs.nn, es, vs), q);
    if p + rs.pad in loc {
      var k :| 0 <= k < |loc| && loc[k] == p + rs.pad;
      FixAtPosition(rs, f, w, after, lambda, deg, root, loc, s, vs, k);
    } else {
      forall k | 0 <= k < |loc| && k < |root| ensures loc[k] != p + rs.pad { assert loc[k] in loc; }
      Untouched(rs, f, w, after, root, loc, lambda, s, deg, p);
      forall l | 0 <= l < |es| ensures es[l] != q { assert loc[l] in loc; }
      PlacedElsewhere(rs.nn, es, vs, q);
      XorZero(w[p]);
    }
  }

  lemma AtPosition(w: seq<nat>, q: nat)
    requires q < |w|
    ensures AtPower(w, q) == w[|w| - 1 - q]
  {}

  lemma FixAtPosition(rs: Rs, f: Field, w: seq<nat>, after: seq<nat>, lambda: seq<nat>, deg: nat, root: seq<nat>,
                      loc: seq<nat>, s: seq<nat>, vs: seq<nat>, k: nat)
    requires Valid(rs, f) && AllIn(f, lambda) && Searched(rs, f, lambda, deg, root, loc) && |root| == deg && lambda[0] == 1
    requires |w| == rs.nn - rs.pad && |vs| == |loc| && Fixed(rs, f, w, after, root, loc, 0, lambda, s, deg) && k < |loc|
    requires var es := Positions(rs.nn, loc); Located(rs, f, Placed(rs.nn, es, vs), es, s, lambda)
    requires loc[k] >= rs.pad
    ensures |after| == |w| && loc[k] < rs.nn
    ensures after[loc[k] - rs.pad] == Xor(w[loc[k] - rs.pad], Placed(rs.nn, Positions(rs.nn, loc), vs)[loc[k]])
  {
    hide *;
    var es := Positions(rs.nn, loc);
    SameLengthAfter(rs, f, w, after, root, loc, lambda, s, deg);
    PositionsLocate(rs, f, lambda, deg, root, loc);
    RootOfPosition(rs, f, lambda, deg, root, loc, k);
    var m := LocatorPower(rs, loc[k]);
    assert m == rs.prim * es[k] by { PowerIs(rs, loc[k]); }
    SameLocatorParts(rs, f, lambda[..deg + 1], root[k], loc[k]);
    AtPosition(Placed(rs.nn, es, vs), es[k]);
    FixIsError(rs, f, Placed(rs.nn, es, vs), es, s, lambda, k, root[k], m, m * rs.fcr);
    FixedThere(rs, f, w, after, root, loc, lambda, s, deg, k);
  }

  lemma PowerIs(rs: Rs, l: nat)
    requires l < rs.nn
    ensures LocatorPower(rs, l) == rs.prim * (rs.nn - 1 - l)
  {}

  lemma SameLocatorParts(rs: Rs, f: Field, w: seq<nat>, r: nat, l: nat)
    requires SameLocator(rs, f, w, r, l)
    ensures l < rs.nn && 1 <= r <= rs.nn && Mul(f, Alpha(f, r), Alpha(f, LocatorPower(rs, l))) == 1
  {
    hide Mul, Alpha, Eval, LocatorPower;
  }

  lemma FixedThere(rs: Rs, f: Field, w: seq<nat>, after: seq<nat>, root: seq<nat>, loc: seq<nat>, lambda: seq<nat>,
                   s: seq<nat>, n: nat, k: nat)
    requires Fixed(rs, f, w, after, root, loc, 0, lambda, s, n) && k < |loc| && rs.pad <= loc[k] < rs.pad + |w|
    ensures |after| == |w| && |root| == |loc|
    ensures after[loc[k] - rs.pad] == Xor(w[loc[k] - rs.pad], FixFor(rs, f, lambda, s, n, root[k]))
  {
    hide FixFor, Xor;
    assert FixedAt(rs, f, w, after, loc[k] - rs.pad, FixFor(rs, f, lambda, s, n, root[k]));
  }

  /** As many positions as the shortest recurrence is long, all of them inside the block: the corrected word is a
      codeword. */
  lemma CorrectedIsCodeword(rs: Rs, f: Field, w: seq<nat>, after: seq<nat>, lambda: seq<nat>, deg: nat, root: seq<nat>,
                            loc: seq<nat>)
    requires Valid(rs, f) && AllIn(f, w) && |w| == rs.nn - rs.pad && Search(rs, f, w, lambda, deg, root, loc)
    requires |root| == deg == LinearComplexity(f, Syndromes(rs, f, w))
    requires Fixed(rs, f, w, after, root, loc, 0, lambda, Syndromes(rs, f, w), deg)
    requires forall k :: 0 <= k < |loc| ==> loc[k] >= rs.pad
    ensures IsCodeword(rs, f, after)
  {
    hide Alpha, Mul, Eval, Valid, Placed, Located, Xor, Sum;
    hide In, NN, FixedAt, Searched, Generates, LinearComplexity, Root, Positions;
    MonicLocator(f, lambda, deg, Syndromes(rs, f, w), deg);
    PositionsLocate(rs, f, lambda, deg, root, loc);
    var vs := FoundErrors(rs, f, w, lambda, deg, root, loc);
    var es := Positions(rs.nn, loc);
    var e := Placed(rs.nn, es, vs);
    PlacedIn(f, rs.nn, es, vs);
    var pad, tail := e[..rs.pad], e[rs.pad..];
    assert e == pad + tail;
    forall i | 0 <= i < |pad| ensures pad[i] == 0 {
      PlacedElsewhere(rs.nn, es, vs, rs.nn - 1 - i);
      assert AtPower(e, rs.nn - 1 - i) == e[i];
    }
    forall p | 0 <= p < |w| ensures after[p] == Sum(w, tail)[p] {
      AddsFoundErrors(rs, f, w, after, lambda, deg, root, loc, Syndromes(rs, f, w), vs, p);
      SumAt(w, tail, p);
    }
    SumLength(w, tail);
    assert after == Sum(w, tail);
    SumIn(f, w, tail);
    forall i | 0 <= i < rs.nroots ensures Eval(f, after, Root(rs, f, i)) == 0 {
      EvalSum(f, w, tail, Root(rs, f, i));
      EvalPadded(f, pad, tail, Root(rs, f, i));
      XorSelf(Eval(f, w, Root(rs, f, i)));
    }
  }

  // ---------------------------------------------------------------- when the answer can be trusted

  /** The corrected word is a codeword if and only if as many positions were found as the shortest recurrence for the
      syndromes is long, and none of them lies in the padding. */
  lemma CodewordIffComplexity(rs: Rs, f: Field, w: seq<nat>, after: seq<nat>, count: int, pos: seq<nat>)
    requires Valid(rs, f) && AllIn(f, w) && |w| == rs.nn - rs.pad && Outcome(rs, f, w, after, count, pos) && count >= 0
    ensures |pos| == count <= LinearComplexity(f, Syndromes(rs, f, w)) && Differences(w, after) <= count
    ensures IsCodeword(rs, f, after) <==>
              count == LinearComplexity(f, Syndromes(rs, f, w)) && forall k :: 0 <= k < |pos| ==> pos[k] >= rs.pad
  {
    hide Generates, Syndromes, Fixed, Searched, Valid, Differences, AllIn, HasDegree, IsCodeword, LinearComplexity;
    var el := LinearComplexity(f, Syndromes(rs, f, w));
    var lambda, deg, root, loc :| Search(rs, f, w, lambda, deg, root, loc)
      && if |root| == deg
         then count == deg && pos == loc && Fixed(rs, f, w, after, root, loc, 0, lambda, Syndromes(rs, f, w), deg)
         else count == -1 && after == w && pos == [];
    DegreeBound(rs, f, w, lambda, deg, root, loc);
    ChangesFew(rs, f, w, after, root, loc, lambda, Syndromes(rs, f, w), deg);
    SameLengthAfter(rs, f, w, after, root, loc, lambda, Syndromes(rs, f, w), deg);
    if IsCodeword(rs, f, after) {
      PadBelow(rs, f);
      ComplexityBelowDistance(rs, f, w, after);
      forall k | 0 <= k < |pos| ensures pos[k] >= rs.pad {}
    }
    if count == el && forall k :: 0 <= k < |pos| ==> pos[k] >= rs.pad {
      CorrectedIsCodeword(rs, f, w, after, lambda, deg, root, loc);
    }
  }

  lemma DegreeBound(rs: Rs, f: Field, w: seq<nat>, lambda: seq<nat>, deg: nat, root: seq<nat>, loc: seq<nat>)
    requires Search(rs, f, w, lambda, deg, root, loc)
    ensures deg <= LinearComplexity(f, Syndromes(rs, f, w)) && |root| == |loc| <= deg
  {
    hide Conv, LinearComplexity, Syndromes;
  }

  /** What comes out as a codeword is a nearest one. */
  lemma CodewordIsNearest(rs: Rs, f: Field, w: seq<nat>, after: seq<nat>, count: int, pos: seq<nat>, c: seq<nat>)
    requires Valid(rs, f) && AllIn(f, w) && |w| == rs.nn - rs.pad && Outcome(rs, f, w, after, count, pos) && count >= 0
    requires IsCodeword(rs, f, after) && IsCodeword(rs, f, c) && |c| == |w|
    ensures count == Differences(w, after) <= Differences(w, c)
  {
    hide *;
    CodewordIffComplexity(rs, f, w, after, count, pos);
    PadBelow(rs, f);
    OutcomeLength(rs, f, w, after, count, pos);
    ComplexityBelowDistance(rs, f, w, after);
    ComplexityBelowDistance(rs, f, w, c);
  }

  /** A count of at most half the parity symbols can be trusted exactly where a codeword is within reach. */
  lemma SmallCountIffReachable(rs: Rs, f: Field, w: seq<nat>, after: seq<nat>, count: int, pos: seq<nat>)
    requires Valid(rs, f) && AllIn(f, w) && |w| == rs.nn - rs.pad && Outcome(rs, f, w, after, count, pos)
    ensures (0 <= count && 2 * count <= rs.nroots && IsCodeword(rs, f, after)) <==> exists c :: Correctable(rs, f, w, c)
  {
    hide *;
    OutcomeLength(rs, f, w, after, count, pos);
    if 0 <= count && 2 * count <= rs.nroots && IsCodeword(rs, f, after) {
      CodewordIffComplexity(rs, f, w, after, count, pos);
      CorrectableFrom(rs, f, w, after);
    }
    forall c | Correctable(rs, f, w, c)
      ensures 0 <= count && 2 * count <= rs.nroots && IsCodeword(rs, f, after)
    {
      OutcomeCorrects(rs, f, w, after, count, pos, c);
      CorrectableParts(rs, f, w, c);
    }
  }

  lemma CorrectableFrom(rs: Rs, f: Field, w: seq<nat>, c: seq<nat>)
    requires |c| == |w| && IsCodeword(rs, f, c) && 2 * Differences(w, c) <= rs.nroots
    ensures Correctable(rs, f, w, c)
  {}

  // ---------------------------------------------------------------- no errors reported, and yet no codeword

  /** The syndromes end with a nonzero one at el - 1 in their first half. */
  ghost predicate EndsEarly(s: seq<nat>, el: nat) {
    1 <= el && 2 * el <= |s| && s[el - 1] != 0 && forall j :: el <= j < |s| ==> s[j] == 0
  }

  /** A recurrence meets the last nonzero term with its own last coefficient. */
  lemma {:induction false} LastTerm(f: Field, c: seq<nat>, s: seq<nat>, el: nat, d: nat)
    requires EndsEarly(s, el) && AllIn(f, s) && d < |c| && el - 1 + d < |s|
    requires forall i :: d < i < |c| ==> c[i] == 0
    ensures Conv(f, c, s, el - 1 + d) == Mul(f, c[d], s[el - 1])
  {
    hide Mul, Xor;
    ConvCut(f, c, s, el - 1 + d, d + 1);
    var w := c[..d + 1];
    BeforeLastTerm(f, Front(w), s, el, d, d);
    MulIn(f, c[d], s[el - 1]);
    XorZero(Mul(f, c[d], s[el - 1]));
    assert At(s, el - 1 + d - d) == s[el - 1];
  }

  lemma {:induction false} BeforeLastTerm(f: Field, c: seq<nat>, s: seq<nat>, el: nat, d: nat, n: nat)
    requires EndsEarly(s, el) && |c| == n <= d
    ensures Conv(f, c, s, el - 1 + d) == 0
    decreases n
  {
    hide Mul, Xor;
    if n > 0 {
      BeforeLastTerm(f, Front(c), s, el, d, n - 1);
      assert At(s, el - 1 + d - (n - 1)) == 0;
      MulZero(f, Last(c));
      XorZero(0);
    }
  }

  /** The only shortest recurrence for such syndromes is the constant one. */
  lemma ConstantRecurrence(f: Field, c: seq<nat>, s: seq<nat>, el: nat)
    requires EndsEarly(s, el) && AllIn(f, s) && AllIn(f, c) && Generates(f, c, LinearComplexity(f, s), s, |s|)
    ensures LinearComplexity(f, s) == el && forall i :: 1 <= i < |c| ==> c[i] == 0
  {
    hide Mul, Conv, LinearComplexity, In, NN, EndsEarly;
    var n := LinearComplexity(f, s);
    ConstantGenerates(f, s, el);
    assert Shortest(f, n, s, |s|);
    var d := Degree(c);
    assert 1 <= el && 2 * el <= |s| && s[el - 1] != 0 by { EndsParts(s, el); }
    if el - 1 + d >= n {
      LastTerm(f, c, s, el, d);
      assert In(f, c[d]) && In(f, s[el - 1]);
      MulNonzero(f, c[d], s[el - 1]);
      assert false;
    }
  }

  lemma EndsParts(s: seq<nat>, el: nat)
    requires EndsEarly(s, el)
    ensures 1 <= el && 2 * el <= |s| && s[el - 1] != 0
  {}

  lemma ConstantGenerates(f: Field, s: seq<nat>, el: nat)
    requires EndsEarly(s, el)
    ensures Generates(f, [1], el, s, |s|)
  {
    hide Mul, Xor;
    forall j | el <= j < |s| ensures Conv(f, [1], s, j) == 0 {
      assert Front([1]) == [] && At(s, j) == 0;
      MulZero(f, 1);
      XorZero(0);
    }
  }

  lemma {:induction false} Degree(c: seq<nat>) returns (d: nat)
    requires c != [] && c[0] == 1
    ensures d < |c| && c[d] != 0 && forall i :: d < i < |c| ==> c[i] == 0
    decreases |c|
  {
    if Last(c) != 0 { d := |c| - 1; } else { d := Degree(Front(c)); }
  }

  /** If the last nonzero syndrome is in the first half, the decoder reports no errors, leaves the word as it is, and the
      word is not a codeword. */
  lemma SilentFailure(rs: Rs, f: Field, w: seq<nat>, after: seq<nat>, count: int, pos: seq<nat>, el: nat)
    requires Valid(rs, f) && AllIn(f, w) && |w| == rs.nn - rs.pad && Outcome(rs, f, w, after, count, pos)
    requires EndsEarly(Syndromes(rs, f, w), el)
    ensures count == 0 && after == w && !IsCodeword(rs, f, w)
  {
    hide Generates, Syndromes, Fixed, Searched, Valid, AllIn, HasDegree, IsCodeword, EndsEarly, LinearComplexity;
    var s := Syndromes(rs, f, w);
    var lambda, deg, root, loc :| Search(rs, f, w, lambda, deg, root, loc)
      && if |root| == deg
         then count == deg && pos == loc && Fixed(rs, f, w, after, root, loc, 0, lambda, Syndromes(rs, f, w), deg)
         else count == -1 && after == w && pos == [];
    SyndromesIn(rs, f, w);
    ConstantRecurrence(f, lambda, s, el);
    NoDegree(lambda, deg);
    SearchedAt0(rs, f, lambda, root, loc);
    NothingFixed(rs, f, w, after, root, loc, lambda, s, deg);
    EndsParts(s, el);
    SyndromeTells(rs, f, w, el - 1);
  }

  lemma NoDegree(lambda: seq<nat>, deg: nat)
    requires HasDegree(lambda, deg) && forall i :: 1 <= i < |lambda| ==> lambda[i] == 0
    ensures deg == 0
  {}

  lemma SearchedAt0(rs: Rs, f: Field, lambda: seq<nat>, root: seq<nat>, loc: seq<nat>)
    requires Searched(rs, f, lambda, 0, root, loc)
    ensures root == []
  {}

  lemma SyndromeTells(rs: Rs, f: Field, w: seq<nat>, i: nat)
    requires i < rs.nroots && Syndromes(rs, f, w)[i] != 0
    ensures !IsCodeword(rs, f, w)
  {
    hide Eval, Root;
  }
}
