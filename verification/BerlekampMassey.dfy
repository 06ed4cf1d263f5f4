/** The Berlekamp-Massey iteration of the decoder: it finds a shortest recurrence for the syndromes. */
module BerlekampMassey {
  import opened Arithmetic
  import opened Bits
  import opened ExclusiveOr
  import opened GaloisField
  import opened PowerSums
  import opened RsInit
  import opened Sequences
  import opened Words

  /** idx lists the logarithms of the symbols of w. */
  ghost predicate Logs(rs: Rs, idx: seq<nat>, w: seq<nat>) {
    |idx| == |w| && forall i :: 0 <= i < |w| ==> w[i] < |rs.indexOf| && idx[i] == rs.indexOf[w[i]]
  }

  // ---------------------------------------------------------------- recurrences add, scale and shift

  lemma ConvAppend(f: Field, c: seq<nat>, a: nat, s: seq<nat>, j: int)
    ensures Conv(f, c + [a], s, j) == Xor(Conv(f, c, s, j), Mul(f, a, At(s, j - |c|)))
  {
    hide Mul, Xor, At;
    FrontOfAppend(c, a);
  }

  lemma {:induction false} ConvSum(f: Field, a: seq<nat>, b: seq<nat>, s: seq<nat>, j: int)
    requires |a| == |b|
    ensures Conv(f, Sum(a, b), s, j) == Xor(Conv(f, a, s, j), Conv(f, b, s, j))
    decreases |a|
  {
    hide Mul, Xor, Conv, At, Primitive;
    if a == [] {
      ConvNone(f, a, s, j);
      XorZero(0);
    } else {
      ConvSum(f, Front(a), Front(b), s, j);
      var x := At(s, j - (|a| - 1));
      ConvAppend(f, Sum(Front(a), Front(b)), Xor(Last(a), Last(b)), s, j);
      ConvAppend(f, Front(a), Last(a), s, j);
      ConvAppend(f, Front(b), Last(b), s, j);
      FrontLast(a);
      FrontLast(b);
      MulDistributes(f, Last(a), Last(b), x);
      XorShuffle(Conv(f, Front(a), s, j), Conv(f, Front(b), s, j), Mul(f, Last(a), x), Mul(f, Last(b), x));
    }
  }

  lemma {:induction false} ConvScale(f: Field, c: nat, w: seq<nat>, s: seq<nat>, j: int)
    ensures Conv(f, Scale(f, c, w), s, j) == Mul(f, c, Conv(f, w, s, j))
    decreases |w|
  {
    hide Mul, Xor, Conv, At, Primitive;
    if w == [] {
      ConvNone(f, w, s, j);
      MulZero(f, c);
    } else {
      ConvScale(f, c, Front(w), s, j);
      var x := At(s, j - (|w| - 1));
      ConvAppend(f, Scale(f, c, Front(w)), Mul(f, c, Last(w)), s, j);
      ConvAppend(f, Front(w), Last(w), s, j);
      FrontLast(w);
      MulAssociates(f, c, Last(w), x);
      MulDistributes(f, Conv(f, Front(w), s, j), Mul(f, Last(w), x), c);
    }
  }

  lemma {:induction false} ConvShift(f: Field, w: seq<nat>, s: seq<nat>, j: int)
    ensures Conv(f, [0] + w, s, j) == Conv(f, w, s, j - 1)
    decreases |w|
  {
    hide Mul, Xor;
    if w == [] {
      assert [0] + w == [0] && Front([0]) == [];
      MulZero(f, At(s, j));
      XorZero(0);
    } else {
      ConvShift(f, Front(w), s, j);
      assert Front([0] + w) == [0] + Front(w);
      assert j - (|[0] + w| - 1) == j - 1 - (|w| - 1);
    }
  }

  /** Multiplying by x: the top coefficient, which must be zero, falls off. */
  function TimesX(b: seq<nat>): (c: seq<nat>)
    requires b != []
    ensures |c| == |b|
  {
    [0] + Front(b)
  }

  lemma ConvTimesX(f: Field, b: seq<nat>, s: seq<nat>, j: int)
    requires b != [] && Last(b) == 0
    ensures Conv(f, TimesX(b), s, j) == Conv(f, b, s, j - 1)
  {
    hide Mul, Xor;
    ConvShift(f, Front(b), s, j);
    MulZero(f, At(s, j - 1 - (|b| - 1)));
    XorZero(Conv(f, Front(b), s, j - 1));
  }

  // ---------------------------------------------------------------- the invariant of the iteration

  /** Every recurrence that generates the first j terms has at least length el. */
  ghost predicate Shortest(f: Field, el: nat, s: seq<nat>, j: nat) {
    forall c, len :: Generates(f, c, len, s, j) ==> el <= len
  }

  /** The state before term j is looked at: lambda is a shortest recurrence of length el for the terms before it, and
      b is an earlier one that failed, scaled and shifted so that it fails by exactly one at the term before j. */
  ghost predicate Invariant(f: Field, lambda: seq<nat>, b: seq<nat>, el: nat, s: seq<nat>, j: nat) {
    && |lambda| == |b| == |s| + 1 && el <= j <= |s| && AllIn(f, lambda) && AllIn(f, b)
    && Generates(f, lambda, el, s, j)
    && Shortest(f, el, s, j)
    && (forall i :: j - el < i < |b| ==> b[i] == 0)
    && (el > 0 ==> Conv(f, b, s, j - 1) == 1 && forall m :: j - el <= m < j - 1 ==> Conv(f, b, s, m) == 0)
  }

  lemma InvariantStart(f: Field, one: seq<nat>, s: seq<nat>)
    requires |one| == |s| + 1 && one[0] == 1 && forall i :: 1 <= i < |one| ==> one[i] == 0
    ensures Invariant(f, one, one, 0, s, 0)
  {
    FieldSize(f);
  }

  lemma ShortestGoesOn(f: Field, el: nat, s: seq<nat>, j: nat)
    requires Shortest(f, el, s, j)
    ensures Shortest(f, el, s, j + 1)
  {
    hide Conv;
    var k := j + 1;
    forall c, len | Generates(f, c, len, s, k) ensures el <= len { assert Generates(f, c, len, s, j); }
  }

  /** Without a discrepancy the recurrence goes on and b is shifted. */
  lemma NoDiscrepancy(f: Field, lambda: seq<nat>, b: seq<nat>, el: nat, s: seq<nat>, j: nat)
    requires Invariant(f, lambda, b, el, s, j) && j < |s| && Conv(f, lambda, s, j) == 0
    ensures Invariant(f, lambda, TimesX(b), el, s, j + 1)
  {
    hide Conv, In, NN;
    ShiftKeepsMisses(f, b, el, s, j);
    assert Generates(f, lambda, el, s, j + 1);
    ShortestGoesOn(f, el, s, j);
  }

  /** What shifting keeps: the degree bound moves up by one and so do the places where b vanishes or misses by one. */
  lemma ShiftKeepsMisses(f: Field, b: seq<nat>, el: nat, s: seq<nat>, j: nat)
    requires |b| == |s| + 1 && el <= j < |s| && AllIn(f, b)
    requires forall i :: j - el < i < |b| ==> b[i] == 0
    requires el > 0 ==> Conv(f, b, s, j - 1) == 1 && forall m :: j - el <= m < j - 1 ==> Conv(f, b, s, m) == 0
    ensures AllIn(f, TimesX(b)) && forall i :: j + 1 - el < i < |b| ==> TimesX(b)[i] == 0
    ensures el > 0 ==> Conv(f, TimesX(b), s, j) == 1 && forall m :: j + 1 - el <= m < j ==> Conv(f, TimesX(b), s, m) == 0
  {
    hide Conv;
    forall i | j + 1 - el < i < |b| ensures TimesX(b)[i] == 0 { assert b[i - 1] == 0; }
    if el > 0 {
      ConvTimesX(f, b, s, j);
      forall m | j + 1 - el <= m < j ensures Conv(f, TimesX(b), s, m) == 0 { ConvTimesX(f, b, s, m); }
    }
  }

  /** The corrected recurrence lambda + d x b. */
  ghost function Corrected(f: Field, lambda: seq<nat>, b: seq<nat>, d: nat): (t: seq<nat>)
    requires |lambda| == |b| > 0
    ensures |t| == |lambda|
  {
    Sum(lambda, Scale(f, d, TimesX(b)))
  }

  lemma CorrectedConv(f: Field, lambda: seq<nat>, b: seq<nat>, d: nat, s: seq<nat>, m: int)
    requires |lambda| == |b| > 0 && Last(b) == 0
    ensures Conv(f, Corrected(f, lambda, b, d), s, m) == Xor(Conv(f, lambda, s, m), Mul(f, d, Conv(f, b, s, m - 1)))
  {
    hide Mul, Xor, Conv, Sum, Scale, TimesX;
    ConvSum(f, lambda, Scale(f, d, TimesX(b)), s, m);
    ConvScale(f, d, TimesX(b), s, m);
    ConvTimesX(f, b, s, m);
  }

  lemma CorrectedAt(f: Field, lambda: seq<nat>, b: seq<nat>, d: nat, i: nat)
    requires |lambda| == |b| > 0 && i < |lambda|
    ensures Corrected(f, lambda, b, d)[i] == if i == 0 then lambda[0] else Xor(lambda[i], Mul(f, d, b[i - 1]))
  {
    hide Mul, Xor;
    SumAt(lambda, Scale(f, d, TimesX(b)), i);
    ScaleAt(f, d, TimesX(b), i);
    MulZero(f, d);
    XorZero(lambda[i]);
  }

  lemma CorrectedShape(f: Field, lambda: seq<nat>, b: seq<nat>, d: nat, deg: nat)
    requires |lambda| == |b| > 0 && AllIn(f, lambda) && lambda[0] == 1
    requires forall i :: deg < i < |b| ==> lambda[i] == 0 && b[i - 1] == 0
    ensures var t := Corrected(f, lambda, b, d); AllIn(f, t) && t[0] == 1 && forall i :: deg < i < |t| ==> t[i] == 0
  {
    hide Mul, Xor, Corrected, In, NN;
    var t := Corrected(f, lambda, b, d);
    forall i | 0 <= i < |t| ensures In(f, t[i]) && (i == 0 ==> t[i] == 1) && (deg < i ==> t[i] == 0) {
      CorrectedAt(f, lambda, b, d, i);
      if i > 0 {
        MulIn(f, d, b[i - 1]);
        XorIn(f, lambda[i], Mul(f, d, b[i - 1]));
        MulZero(f, d);
        XorZero(0);
      }
    }
  }

  /** The corrected recurrence also gets term j right, if its length is at least newEl. */
  lemma CorrectedGenerates(f: Field, lambda: seq<nat>, b: seq<nat>, el: nat, newEl: nat, s: seq<nat>, j: nat, d: nat)
    requires Invariant(f, lambda, b, el, s, j) && j < |s| && d == Conv(f, lambda, s, j)
    requires el <= newEl && j + 1 - el <= newEl && (el == 0 ==> newEl == j + 1)
    ensures Generates(f, Corrected(f, lambda, b, d), newEl, s, j + 1) && AllIn(f, Corrected(f, lambda, b, d))
  {
    hide Conv, Mul, Xor, In, NN, Corrected, Shortest;
    var t := Corrected(f, lambda, b, d);
    CorrectedShape(f, lambda, b, d, newEl);
    forall m | newEl <= m < j + 1 ensures Conv(f, t, s, m) == 0 {
      CorrectedConv(f, lambda, b, d, s, m);
      MulZero(f, d);
      XorZero(0);
      if m == j {
        ConvIn(f, lambda, s, j);
        MulOne(f, d);
        XorSelf(d);
      }
    }
  }

  /** A discrepancy that the current length can absorb. */
  lemma SameLength(f: Field, lambda: seq<nat>, b: seq<nat>, el: nat, s: seq<nat>, j: nat, d: nat)
    requires Invariant(f, lambda, b, el, s, j) && j < |s| && d == Conv(f, lambda, s, j) && 2 * el > j
    ensures Invariant(f, Corrected(f, lambda, b, d), TimesX(b), el, s, j + 1)
  {
    hide Conv, In, NN, Corrected;
    CorrectedGenerates(f, lambda, b, el, el, s, j, d);
    ShiftKeepsMisses(f, b, el, s, j);
    ShortestGoesOn(f, el, s, j);
  }

  /** A discrepancy that forces the length to grow; lambda, scaled, becomes the recurrence that failed. */
  lemma LengthGrows(f: Field, lambda: seq<nat>, b: seq<nat>, el: nat, s: seq<nat>, j: nat, d: nat, e: nat)
    requires Invariant(f, lambda, b, el, s, j) && j < |s| && d == Conv(f, lambda, s, j) != 0 && 2 * el <= j
    requires Mul(f, e, d) == 1
    ensures Invariant(f, Corrected(f, lambda, b, d), Scale(f, e, lambda), j + 1 - el, s, j + 1)
  {
    hide Conv, Mul, In, NN, Corrected, Scale;
    CorrectedGenerates(f, lambda, b, el, j + 1 - el, s, j, d);
    var b' := Scale(f, e, lambda);
    forall i | 0 <= i < |b'| ensures In(f, b'[i]) && (el < i ==> b'[i] == 0) {
      ScaleAt(f, e, lambda, i);
      MulIn(f, e, lambda[i]);
      MulZero(f, e);
    }
    ConvScale(f, e, lambda, s, j);
    forall m | el <= m < j ensures Conv(f, b', s, m) == 0 {
      ConvScale(f, e, lambda, s, m);
      MulZero(f, e);
    }
    var k := j + 1;
    forall c, len | Generates(f, c, len, s, k) ensures k - el <= len {
      LengthMustGrow(f, lambda, el, c, len, s, j);
    }
  }

  // ---------------------------------------------------------------- the steps of the iteration

  /** A table product of two symbols given by their logarithms, zero included. */
  lemma LogProduct(rs: Rs, f: Field, a: nat, b: nat)
    requires HasTables(rs, f) && In(f, a) && In(f, b)
    ensures a < |rs.indexOf| && b < |rs.indexOf| && rs.nn >= 1 && |rs.alphaTo| == rs.nn + 1
    ensures rs.mm >= 1 && rs.nn == Pow2(rs.mm) - 1
    ensures rs.indexOf[a] <= rs.nn && rs.indexOf[b] <= rs.nn
    ensures (rs.indexOf[a] == rs.nn <==> a == 0) && (rs.indexOf[b] == rs.nn <==> b == 0)
    ensures if a == 0 || b == 0 then Mul(f, a, b) == 0
            else rs.alphaTo[(rs.indexOf[a] + rs.indexOf[b]) % rs.nn] == Mul(f, a, b)
  {
    hide Mul;
    FieldSize(f);
    TableRoundTrip(rs, f, a);
    TableRoundTrip(rs, f, b);
    MulZero(f, a);
    MulZero(f, b);
    if a != 0 && b != 0 { TableProduct2(rs, f, a, b); }
  }

  /** The discrepancy of step r: what the recurrence predicts for term r - 1, plus that term. */
  method Discrepancy(rs: Rs, lambda: array<nat>, s: seq<nat>, r: nat, ghost terms: seq<nat>, ghost f: Field)
    returns (discr: nat)
    requires HasTables(rs, f) && Logs(rs, s, terms) && AllIn(f, terms)
    requires lambda.Length == |s| + 1 && AllIn(f, lambda[..]) && 1 <= r <= |s|
    ensures discr == Conv(f, lambda[..], terms, r - 1) && In(f, discr)
  {
    hide Mul, Xor, HasTables, NN, High, Low, Conv;
    discr := 0;
    assert Conv(f, lambda[..0], terms, r - 1) == 0 by { ConvNone(f, lambda[..0], terms, r - 1); }
    for i := 0 to r
      invariant discr == Conv(f, lambda[..i], terms, r - 1)
    {
      ConvStep(f, lambda[..], terms, r - 1, i);
      assert lambda[..][..i] == lambda[..i] && lambda[..][..i + 1] == lambda[..i + 1];
      LogProduct(rs, f, lambda[..][i], terms[r - i - 1]);
      assert s[r - i - 1] == rs.indexOf[terms[r - i - 1]];
      XorZero(discr);
      if lambda[i] != 0 && s[r - i - 1] != rs.nn {
        var m := ModNN(rs.mm, rs.nn, rs.indexOf[lambda[i]] + s[r - i - 1]);
        discr := Xor(discr, rs.alphaTo[m]);
      }
    }
    ConvUpTo(f, lambda[..], terms, r - 1);
    assert lambda[..][..r] == lambda[..r];
    ConvIn(f, lambda[..], terms, r - 1);
  }

  lemma ConvNone(f: Field, c: seq<nat>, s: seq<nat>, j: int)
    requires c == []
    ensures Conv(f, c, s, j) == 0
  {}

  lemma ConvStep(f: Field, c: seq<nat>, s: seq<nat>, j: nat, i: nat)
    requires i < |c| && i <= j < |s|
    ensures Conv(f, c[..i + 1], s, j) == Xor(Conv(f, c[..i], s, j), Mul(f, c[i], s[j - i]))
  {
    hide Mul, Xor;
    FrontOfPrefix(c, i);
  }

  /** Only the first j + 1 coefficients meet terms at or before term j. */
  lemma {:induction false} ConvUpTo(f: Field, c: seq<nat>, s: seq<nat>, j: nat)
    requires j < |c|
    ensures Conv(f, c, s, j) == Conv(f, c[..j + 1], s, j)
    decreases |c|
  {
    hide Mul, Xor;
    if j + 1 == |c| {
      assert c[..j + 1] == c;
    } else {
      ConvUpTo(f, Front(c), s, j);
      assert Front(c)[..j + 1] == c[..j + 1];
      MulZero(f, Last(c));
      XorZero(Conv(f, Front(c), s, j));
    }
  }

  /** B(x) <-- x B(x), on logarithms. */
  method ShiftB(rs: Rs, b: array<nat>, ghost values: seq<nat>)
    requires b.Length >= 1 && Logs(rs, b[..], values) && |rs.indexOf| > 0 && rs.indexOf[0] == rs.nn
    modifies b
    ensures Logs(rs, b[..], TimesX(values))
  {
    hide HasTables;
    var i := b.Length - 1;
    while i > 0
      invariant 0 <= i < b.Length
      invariant forall k :: 0 <= k <= i ==> b[k] == old(b[k])
      invariant forall k :: i < k < b.Length ==> b[k] == old(b[k - 1])
    {
      b[i] := b[i - 1];
      i := i - 1;
    }
    b[0] := rs.nn;
    assert forall k :: 0 <= k < |values| ==> old(b[..])[k] == rs.indexOf[values[k]];
  }

  /** T(x) <-- lambda(x) + discr x B(x). */
  method Correct(rs: Rs, lambda: array<nat>, b: array<nat>, t: array<nat>, discr: nat,
                 ghost d: nat, ghost values: seq<nat>, ghost f: Field)
    requires HasTables(rs, f) && lambda.Length == b.Length == t.Length >= 1 && t != lambda && t != b
    requires AllIn(f, lambda[..]) && AllIn(f, values) && Logs(rs, b[..], values)
    requires 0 < d && In(f, d) && d < |rs.indexOf| && discr == rs.indexOf[d]
    modifies t
    ensures t[..] == Corrected(f, lambda[..], values, d)
  {
    hide Mul, Xor, HasTables, Corrected, High, Low;
    CorrectedAt(f, lambda[..], values, d, 0);
    t[0] := lambda[0];
    for i := 0 to lambda.Length - 1
      invariant forall k :: 0 <= k <= i ==> t[k] == Corrected(f, lambda[..], values, d)[k]
    {
      CorrectedAt(f, lambda[..], values, d, i + 1);
      assert b[..][i] == rs.indexOf[values[i]];
      LogProduct(rs, f, d, values[i]);
      XorZero(lambda[i + 1]);
      if b[i] != rs.nn {
        var m := ModNN(rs.mm, rs.nn, discr + b[i]);
        t[i + 1] := Xor(lambda[i + 1], rs.alphaTo[m]);
      } else {
        t[i + 1] := lambda[i + 1];
      }
    }
  }

  /** The multiplicative inverse of a symbol given by its logarithm. */
  ghost function InverseOf(rs: Rs, f: Field, d: nat): nat
    requires HasTables(rs, f) && 0 < d <= rs.nn
  {
    Alpha(f, rs.nn - rs.indexOf[d])
  }

  lemma InverseTimes(rs: Rs, f: Field, d: nat)
    requires HasTables(rs, f) && 0 < d <= rs.nn
    ensures Mul(f, InverseOf(rs, f, d), d) == 1
  {
    hide Mul, Alpha;
    MulAlphas(f, rs.nn - rs.indexOf[d], rs.indexOf[d]);
    assert Alpha(f, rs.nn) == 1 by { AlphaTurn(f, 0); AlphaZero(f); }
  }

  /** B(x) <-- inv(discr) lambda(x), on logarithms. */
  method InvertInto(rs: Rs, lambda: array<nat>, b: array<nat>, discr: nat, ghost d: nat, ghost f: Field)
    requires HasTables(rs, f) && lambda.Length == b.Length && lambda != b && AllIn(f, lambda[..])
    requires 0 < d <= rs.nn && discr == rs.indexOf[d]
    modifies b
    ensures Logs(rs, b[..], Scale(f, InverseOf(rs, f, d), lambda[..]))
  {
    hide Mul, HasTables, Scale, InverseOf, High, Low;
    for i := 0 to lambda.Length
      invariant forall k :: 0 <= k < i ==>
        var c := Scale(f, InverseOf(rs, f, d), lambda[..])[k]; c < |rs.indexOf| && b[k] == rs.indexOf[c]
    {
      ScaleAt(f, InverseOf(rs, f, d), lambda[..], i);
      Quotients(rs, f, lambda[..][i], d);
      if lambda[i] == 0 {
        b[i] := rs.nn;
      } else {
        var m := ModNN(rs.mm, rs.nn, rs.indexOf[lambda[i]] - discr + rs.nn);
        b[i] := m;
      }
    }
  }

  lemma Quotients(rs: Rs, f: Field, a: nat, d: nat)
    requires HasTables(rs, f) && In(f, a) && 0 < d <= rs.nn
    ensures rs.mm >= 1 && rs.nn == Pow2(rs.mm) - 1 && rs.nn >= 1 && a < |rs.indexOf| && d < |rs.indexOf|
    ensures rs.indexOf[d] <= rs.nn
    ensures var q := Mul(f, InverseOf(rs, f, d), a);
            q < |rs.indexOf| && rs.indexOf[q] == if a == 0 then rs.nn else (rs.indexOf[a] - rs.indexOf[d] + rs.nn) % rs.nn
  {
    hide Mul, Alpha;
    FieldSize(f);
    var k := rs.nn - rs.indexOf[d];
    MulZero(f, Alpha(f, k));
    if a != 0 {
      MulAlphas(f, k, rs.indexOf[a]);
      LogOfAlpha(f, k + rs.indexOf[a]);
    }
  }

  /** lambda and b start as the polynomial one. */
  method StartBoth(rs: Rs, n: nat, ghost f: Field) returns (lambda: array<nat>, b: array<nat>)
    requires HasTables(rs, f)
    ensures fresh(lambda) && fresh(b) && lambda != b && lambda.Length == b.Length == n + 1
    ensures lambda[0] == 1 && forall i :: 1 <= i <= n ==> lambda[i] == 0
    ensures Logs(rs, b[..], lambda[..])
  {
    FieldSize(f);
    lambda, b := new nat[n + 1], new nat[n + 1];
    for i := 0 to n + 1
      invariant forall k :: 0 <= k < i ==> lambda[k] == if k == 0 then 1 else 0
    {
      lambda[i] := if i == 0 then 1 else 0;
    }
    for i := 0 to n + 1
      invariant forall k :: 0 <= k <= n ==> lambda[k] == if k == 0 then 1 else 0
      invariant forall k :: 0 <= k < i ==> lambda[k] < |rs.indexOf| && b[k] == rs.indexOf[lambda[k]]
    {
      b[i] := rs.indexOf[lambda[i]];
    }
  }

  /** What a nonzero discrepancy d does to lambda, b and the length el. */
  method Adjust(rs: Rs, lambda: array<nat>, b: array<nat>, el: nat, r: nat, discr: nat,
                ghost d: nat, ghost values: seq<nat>, ghost terms: seq<nat>, ghost f: Field)
    returns (newEl: nat, ghost newValues: seq<nat>)
    requires HasTables(rs, f) && lambda != b && lambda.Length == b.Length
    requires 1 <= r <= |terms| && Invariant(f, lambda[..], values, el, terms, r - 1) && Logs(rs, b[..], values)
    requires d == Conv(f, lambda[..], terms, r - 1) && 0 < d && In(f, d) && d < |rs.indexOf| && discr == rs.indexOf[d]
    modifies lambda, b
    ensures Logs(rs, b[..], newValues) && Invariant(f, lambda[..], newValues, newEl, terms, r)
  {
    hide HasTables, Corrected, Scale, Conv, InverseOf, Generates, Shortest, NN, Logs, Mul;
    var t := new nat[lambda.Length];
    ghost var before := lambda[..];
    Correct(rs, lambda, b, t, discr, d, values, f);
    assert 0 < d <= rs.nn by { Inside(rs, f, d); }
    if 2 * el <= r - 1 {
      newEl := r - el;
      InvertInto(rs, lambda, b, discr, d, f);
      newValues := Scale(f, InverseOf(rs, f, d), before);
      InverseTimes(rs, f, d);
      LengthGrows(f, before, values, el, terms, r - 1, d, InverseOf(rs, f, d));
    } else {
      newEl := el;
      assert |rs.indexOf| > 0 && rs.indexOf[0] == rs.nn by { Inside(rs, f, d); }
      ShiftB(rs, b, values);
      newValues := TimesX(values);
      SameLength(f, before, values, el, terms, r - 1, d);
    }
    ghost var now := b[..];
    forall i | 0 <= i < lambda.Length { lambda[i] := t[i]; }
    assert lambda[..] == t[..] == Corrected(f, before, values, d) && b[..] == now;
  }

  lemma Inside(rs: Rs, f: Field, d: nat)
    requires HasTables(rs, f) && In(f, d)
    ensures d <= rs.nn && |rs.indexOf| > 0 && rs.indexOf[0] == rs.nn && d < |rs.indexOf|
    ensures rs.indexOf[d] == rs.nn <==> d == 0
  {
    TableRoundTrip(rs, f, d);
  }

  /** The iteration: lambda is a shortest recurrence for all the terms and el is its length. */
  method Iterate(rs: Rs, s: seq<nat>, ghost terms: seq<nat>, ghost f: Field) returns (lambda: array<nat>, el: nat)
    requires HasTables(rs, f) && Logs(rs, s, terms) && AllIn(f, terms)
    ensures fresh(lambda) && lambda.Length == |s| + 1 && AllIn(f, lambda[..]) && el <= |s|
    ensures Generates(f, lambda[..], el, terms, |s|) && Shortest(f, el, terms, |s|)
  {
    hide HasTables, Conv, Generates, Shortest, NN;
    var b;
    lambda, b := StartBoth(rs, |s|, f);
    ghost var values := lambda[..];
    InvariantStart(f, values, terms);
    el := 0;
    var r := 1;
    while r <= |s|
      invariant 1 <= r <= |s| + 1 && fresh(lambda) && fresh(b) && lambda != b && lambda.Length == b.Length == |s| + 1
      invariant Invariant(f, lambda[..], values, el, terms, r - 1) && Logs(rs, b[..], values)
    {
      var discr := Discrepancy(rs, lambda, s, r, terms, f);
      Inside(rs, f, discr);
      ghost var d := discr;
      discr := rs.indexOf[discr];
      if discr == rs.nn {
        NoDiscrepancy(f, lambda[..], values, el, terms, r - 1);
        ShiftB(rs, b, values);
        values := TimesX(values);
      } else {
        el, values := Adjust(rs, lambda, b, el, r, discr, d, values, terms, f);
      }
      r := r + 1;
    }
  }
}
