/** The Reed-Solomon control block: field tables, generator polynomial, and their construction. */
module RsInit {
  import opened Arithmetic
  import opened Bits
  import opened Divisibility
  import opened ExclusiveOr
  import opened GaloisField
  import opened Options
  import opened Sequences
  import opened Words

  /** The control block struct rs. Index nn stands for the logarithm of zero. */
  datatype Rs = Rs(mm: nat, nn: nat, alphaTo: seq<nat>, indexOf: seq<nat>, genpoly: seq<nat>,
                   nroots: nat, fcr: nat, prim: nat, iprim: nat, pad: nat)

  /** Reduction modulo nn = 2^mm - 1 by folding the high bits onto the low ones. */
  method ModNN(mm: nat, nn: nat, x: nat) returns (r: nat)
    requires mm >= 1 && nn == Pow2(mm) - 1
    ensures nn >= 1 && r == x % nn
  {
    assert nn >= 1;
    hide High, Low, Pow2;
    r := x;
    while r >= nn
      invariant r % nn == x % nn
    {
      FoldingReduces(mm, nn, r);
      r := r - nn;
      r := High(r, mm) + Low(r, mm);
    }
    assert r == r % nn by { ModOfSmall(r, nn); }
  }

  lemma FoldingReduces(mm: nat, nn: nat, x: nat)
    requires mm >= 1 && 1 <= nn == Pow2(mm) - 1 && x >= nn
    ensures var y := x - nn; High(y, mm) + Low(y, mm) <= y && (High(y, mm) + Low(y, mm)) % nn == x % nn
  {
    hide High, Low, Pow2;
    var y := x - nn;
    var h, l := High(y, mm), Low(y, mm);
    SplitBits(y, mm);
    assert h * Pow2(mm) == h * nn + h;
    AddMultiple(h + l, h, nn);
    AddMultiple(y, 1, nn);
  }

  // ---------------------------------------------------------------- the tables

  /** What the table loop has written after n steps: both tables agree with the powers of x, and where powers
      repeat the later one is kept. */
  ghost predicate Filled(f: FieldParams, alphaTo: seq<nat>, indexOf: seq<nat>, n: nat) {
    && |alphaTo| == |indexOf| == NN(f) + 1 && n <= NN(f)
    && (forall i :: 0 <= i < n ==> alphaTo[i] == Alpha(f, i))
    && forall i :: 0 <= i < n && Alpha(f, i) <= NN(f) ==> LastPower(f, indexOf[Alpha(f, i)], i, n)
  }

  ghost predicate LastPower(f: FieldParams, k: nat, i: nat, n: nat) {
    i <= k < n && Alpha(f, k) == Alpha(f, i) && forall j :: k < j < n ==> Alpha(f, j) != Alpha(f, i)
  }

  /** The generation of both tables; closed says that the powers of x have returned to 1. */
  method BuildTables(mm: nat, gfpoly: nat) returns (alphaTo: array<nat>, indexOf: array<nat>, closed: bool)
    requires mm >= 1
    ensures fresh(alphaTo) && fresh(indexOf) && alphaTo.Length == indexOf.Length == Pow2(mm)
    ensures var f := FieldParams(mm, gfpoly);
            && Filled(f, alphaTo[..], indexOf[..], NN(f))
            && alphaTo[NN(f)] == 0
            && closed == (Alpha(f, NN(f)) == 1)
            && (closed ==> indexOf[0] == NN(f))
  {
    hide Shift, Low, Xor, Bit;
    ghost var f := FieldParams(mm, gfpoly);
    var nn := Pow2(mm) - 1;
    assert Pow2(mm) == 2 * Pow2(mm - 1);
    alphaTo, indexOf := new nat[nn + 1], new nat[nn + 1];
    indexOf[0] := nn;
    alphaTo[nn] := 0;
    var sr := 1;
    for i := 0 to nn
      invariant sr == Alpha(f, i) && sr <= nn
      invariant Filled(f, alphaTo[..], indexOf[..], i) && alphaTo[nn] == 0
      invariant indexOf[0] == nn || exists j :: 0 <= j < i && Alpha(f, j) == 0
    {
      ghost var a, x := alphaTo[..], indexOf[..];
      indexOf[sr] := i;
      alphaTo[i] := sr;
      FilledStep(f, a, x, alphaTo[..], indexOf[..], i);
      assert Shift(mm, gfpoly, sr) == Alpha(f, i + 1);
      ShiftBound(mm, gfpoly, sr);
      assert Shift(mm, gfpoly, sr) == Low(if Bit(sr * 2, mm) == 1 then Xor(sr * 2, gfpoly) else sr * 2, mm) by {
        ShiftUnfolds(mm, gfpoly, sr);
      }
      sr := sr * 2;
      if Bit(sr, mm) == 1 {
        sr := Xor(sr, gfpoly);
      }
      sr := Low(sr, mm);
    }
    closed := sr == 1;
    if closed && indexOf[0] != nn {
      ghost var j :| 0 <= j < nn && Alpha(f, j) == 0;
      ZeroStays(f, j, nn - j);
    }
  }

  lemma ShiftUnfolds(mm: nat, gfpoly: nat, sr: nat)
    ensures Shift(mm, gfpoly, sr) == Low(if Bit(sr * 2, mm) == 1 then Xor(sr * 2, gfpoly) else sr * 2, mm)
  {}

  lemma FilledStep(f: FieldParams, a: seq<nat>, x: seq<nat>, a': seq<nat>, x': seq<nat>, i: nat)
    requires Filled(f, a, x, i) && i < NN(f) && Alpha(f, i) <= NN(f)
    requires a' == a[i := Alpha(f, i)] && x' == x[Alpha(f, i) := i]
    ensures Filled(f, a', x', i + 1)
  {
    hide Alpha;
    forall j | 0 <= j < i + 1 && Alpha(f, j) <= NN(f) ensures LastPower(f, x'[Alpha(f, j)], j, i + 1) {
      if Alpha(f, j) != Alpha(f, i) {
        assert LastPower(f, x[Alpha(f, j)], j, i);
      }
    }
  }

  lemma {:induction false} ZeroStays(f: FieldParams, j: nat, k: nat)
    requires Alpha(f, j) == 0
    ensures Alpha(f, j + k) == 0
  {
    AlphaAdd(f, j, k);
    ShiftByLinear(f, 0, 0, k);
  }

  /** The tables invert each other. */
  ghost predicate Inverse(f: FieldParams, alphaTo: seq<nat>, indexOf: seq<nat>) {
    |alphaTo| == |indexOf| == NN(f) + 1 &&
    forall i :: 0 <= i < NN(f) ==> alphaTo[i] <= NN(f) && indexOf[alphaTo[i]] == i
  }

  /** Accepted tables invert each other exactly when x is primitive: checking that the powers return to 1,
      as init_rs does, is not enough. */
  lemma InverseIffPrimitive(f: FieldParams, alphaTo: seq<nat>, indexOf: seq<nat>)
    requires f.mm >= 1 && Filled(f, alphaTo, indexOf, NN(f)) && Alpha(f, NN(f)) == 1
    ensures Inverse(f, alphaTo, indexOf) <==> Primitive(f)
  {
    hide Alpha;
    assert Alpha(f, 0) == 1 by { AlphaZero(f); }
    if Primitive(f) {
      forall i | 0 <= i < NN(f) ensures alphaTo[i] <= NN(f) && indexOf[alphaTo[i]] == i {
        AlphaIn(f, i);
        assert LastPower(f, indexOf[Alpha(f, i)], i, NN(f));
        if indexOf[Alpha(f, i)] > i { AlphaDistinct(f, i, indexOf[Alpha(f, i)]); }
      }
    }
    if Inverse(f, alphaTo, indexOf) {
      forall i | 0 < i < NN(f) ensures Alpha(f, i) != 1 {
        assert alphaTo[i] == Alpha(f, i) && alphaTo[0] == Alpha(f, 0);
      }
    }
  }

  /** With x^4+x^3+x^2+x+1 the powers of x return to 1 after 5 steps, so also after 15: init_rs accepts the
      polynomial and its tables do not invert each other. */
  lemma AcceptedButNotPrimitive()
    ensures var f := FieldParams(4, 0x1f); Alpha(f, NN(f)) == 1 && !Primitive(f)
  {
    hide Shift, ShiftBy;
    var f := FieldParams(4, 0x1f);
    FirstShifts();
    AlphaZero(f);
    AlphaNext(f, 0); AlphaNext(f, 1); AlphaNext(f, 2); AlphaNext(f, 3); AlphaNext(f, 4);
    AlphaAdd(f, 0, 5); AlphaAdd(f, 5, 5); AlphaAdd(f, 10, 5);
  }

  lemma FirstShifts()
    ensures Pow2(4) == 16
    ensures Shift(4, 0x1f, 1) == 2 && Shift(4, 0x1f, 2) == 4 && Shift(4, 0x1f, 4) == 8
    ensures Shift(4, 0x1f, 8) == 15 && Shift(4, 0x1f, 15) == 1
  {
    hide Xor, Bit, Low;
    assert Pow2(4) == 16 by { assert Pow2(2) == 4; }
    BitAbove(2, 0, 4, 4); BitAbove(4, 0, 4, 4); BitAbove(8, 0, 4, 4); BitAbove(0, 1, 4, 4); BitAbove(14, 1, 4, 4);
    LowOfSmall(2, 4); LowOfSmall(4, 4); LowOfSmall(8, 4); LowOfSmall(15, 4); LowOfSmall(1, 4);
    XorSelf(1); XorSelf(15);
    XorOfParts(1, 1, 0, 1);
    XorOfParts(2, 3, 0, 1);
    XorOfParts(4, 7, 0, 1);
    XorOfParts(8, 15, 0, 1);
    XorOfParts(15, 15, 0, 1);
  }

  // ---------------------------------------------------------------- the generator polynomial

  /** Multiplying a word by y + r. */
  ghost function MulRoot(f: Field, h: seq<nat>, r: nat): (g: seq<nat>)
    ensures |g| == |h| + 1
  {
    Sum(h + [0], Scale(f, r, [0] + h))
  }

  lemma MulRootEval(f: Field, h: seq<nat>, r: nat, y: nat)
    ensures Eval(f, MulRoot(f, h, r), y) == Mul(f, Eval(f, h, y), Xor(y, r))
  {
    hide Mul, Xor;
    EvalSum(f, h + [0], Scale(f, r, [0] + h), y);
    EvalAppend(f, h, 0, y);
    XorZero(Mul(f, Eval(f, h, y), y));
    EvalScale(f, r, [0] + h, y);
    EvalPadded(f, [0], h, y);
    MulCommutes(f, r, Eval(f, h, y));
    MulDistributes(f, y, r, Eval(f, h, y));
  }

  lemma {:induction false} SumAt(a: seq<nat>, b: seq<nat>, i: nat)
    requires |a| == |b| && i < |a|
    ensures Sum(a, b)[i] == Xor(a[i], b[i])
  {
    if i < |a| - 1 { SumAt(Front(a), Front(b), i); }
  }

  lemma {:induction false} ScaleAt(f: Field, c: nat, w: seq<nat>, i: nat)
    requires i < |w|
    ensures Scale(f, c, w)[i] == Mul(f, c, w[i])
  {
    if i < |w| - 1 { ScaleAt(f, c, Front(w), i); }
  }

  lemma MulRootAt(f: Field, h: seq<nat>, r: nat, i: nat)
    requires h != [] && i <= |h|
    ensures MulRoot(f, h, r)[i] ==
      if i == 0 then h[0] else if i < |h| then Xor(h[i], Mul(f, h[i - 1], r)) else Mul(f, h[i - 1], r)
  {
    SumAt(h + [0], Scale(f, r, [0] + h), i);
    ScaleAt(f, r, [0] + h, i);
    if i == 0 {
      MulZero(f, r);
      XorZero(h[0]);
    } else {
      MulCommutes(f, r, h[i - 1]);
      XorZero(Mul(f, h[i - 1], r));
    }
  }

  /** The exponent of generator root i. */
  function RootIndex(fcr: nat, prim: nat, i: nat): nat { (fcr + i) * prim }

  /** The product of y + alpha^RootIndex(i) for all i below n, leading coefficient first. */
  ghost function Generator(f: Field, fcr: nat, prim: nat, n: nat): (g: seq<nat>)
    ensures |g| == n + 1
  {
    if n == 0 then [1]
    else MulRoot(f, Generator(f, fcr, prim, n - 1), Alpha(f, RootIndex(fcr, prim, n - 1)))
  }

  /** The generator polynomial is monic with symbols for coefficients, a nonzero last one among them, and has
      exactly the prescribed roots. */
  lemma {:induction false} GeneratorIsMonic(f: Field, fcr: nat, prim: nat, n: nat)
    ensures var g := Generator(f, fcr, prim, n); g[0] == 1 && AllIn(f, g) && Last(g) != 0
  {
    hide Mul, Xor, Alpha;
    FieldSize(f);
    if n > 0 {
      var g, r := Generator(f, fcr, prim, n - 1), Alpha(f, RootIndex(fcr, prim, n - 1));
      GeneratorIsMonic(f, fcr, prim, n - 1);
      AlphaIn(f, RootIndex(fcr, prim, n - 1));
      AlphaNonzero(f, RootIndex(fcr, prim, n - 1));
      forall i | 0 <= i <= n ensures In(f, MulRoot(f, g, r)[i]) {
        MulRootAt(f, g, r, i);
        if i > 0 { MulIn(f, g[i - 1], r); }
        if 0 < i < n { XorIn(f, g[i], Mul(f, g[i - 1], r)); }
      }
      MulRootAt(f, g, r, 0);
      MulRootAt(f, g, r, n);
      if Mul(f, Last(g), r) == 0 { MulNonzero(f, Last(g), r); }
    }
  }

  lemma {:induction false} GeneratorRoots(f: Field, fcr: nat, prim: nat, n: nat, y: nat)
    requires In(f, y)
    ensures Eval(f, Generator(f, fcr, prim, n), y) == 0 <==>
              exists i :: 0 <= i < n && y == Alpha(f, RootIndex(fcr, prim, i))
  {
    hide Mul, Xor, Alpha, RootIndex, MulRoot, Eval;
    if n == 0 {
      EvalSingle(f, 1, y);
    } else {
      var g, r := Generator(f, fcr, prim, n - 1), Alpha(f, RootIndex(fcr, prim, n - 1));
      GeneratorRoots(f, fcr, prim, n - 1, y);
      MulRootEval(f, g, r, y);
      GeneratorIsMonic(f, fcr, prim, n - 1);
      EvalIn(f, g, y);
      AlphaIn(f, RootIndex(fcr, prim, n - 1));
      XorIn(f, y, r);
      XorZeroIffEqual(y, r);
      MulZero(f, Eval(f, g, y));
      MulZero(f, Xor(y, r));
      if Mul(f, Eval(f, g, y), Xor(y, r)) == 0 { MulNonzero(f, Eval(f, g, y), Xor(y, r)); }
    }
  }

  // ---------------------------------------------------------------- the control block

  /** The tables of the field f. */
  ghost predicate HasTables(rs: Rs, f: Field) {
    && rs.mm == f.mm && rs.nn == NN(f) && |rs.alphaTo| == |rs.indexOf| == rs.nn + 1
    && (forall i :: 0 <= i < rs.nn ==> rs.alphaTo[i] == Alpha(f, i))
    && rs.alphaTo[rs.nn] == 0 && rs.indexOf[0] == rs.nn
    && forall x :: 0 < x <= rs.nn ==> rs.indexOf[x] == Log(f, x)
  }

  /** The parameters that init_rs checks. */
  predicate InRange(symsize: int, fcr: int, prim: int, nroots: int, pad: int) {
    && 0 <= symsize <= 8
    && 0 <= fcr < Pow2(symsize) && 0 < prim < Pow2(symsize)
    && 0 <= nroots < Pow2(symsize) && 0 <= pad < Pow2(symsize) - 1 - nroots
  }

  ghost predicate Valid(rs: Rs, f: Field) {
    && HasTables(rs, f)
    && InRange(rs.mm, rs.fcr, rs.prim, rs.nroots, rs.pad)
    && 1 <= rs.iprim <= rs.nn && rs.prim * rs.iprim % rs.nn == 1 % rs.nn
    && |rs.genpoly| == rs.nroots + 1
    && AllIn(f, Generator(f, rs.fcr, rs.prim, rs.nroots))
    && forall j :: 0 <= j <= rs.nroots ==>
         rs.genpoly[j] == rs.indexOf[Generator(f, rs.fcr, rs.prim, rs.nroots)[rs.nroots - j]]
  }

  /** The search for the prim-th root of one. */
  method FindIprim(prim: nat, nn: nat) returns (iprim: nat)
    requires 1 <= prim && 1 <= nn && Coprime(prim, nn)
    ensures 1 <= iprim <= nn && prim * iprim % nn == 1 % nn
  {
    ghost var q := SmallShortfall(prim, nn);
    iprim := 1;
    ghost var t := 0;
    while iprim % prim != 0
      invariant iprim == 1 + t * nn && t <= q
      decreases q - t
    {
      iprim := iprim + nn;
      t := t + 1;
      assert t * nn == (t - 1) * nn + nn;
    }
    RootOfOne(prim, nn, t, iprim / prim);
    iprim := iprim / prim;
  }

  /** The search meets a number that prim divides if and only if prim and nn have no common divisor. */
  lemma SearchEndsIffCoprime(prim: nat, nn: nat)
    requires prim >= 1
    ensures (exists t: nat :: OneShort(prim, nn, t)) <==> Coprime(prim, nn)
  {
    ShortIffCoprime(prim, nn);
  }

  lemma SmallShortfall(prim: nat, nn: nat) returns (q: nat)
    requires prim >= 1 && Coprime(prim, nn)
    ensures q < prim && (1 + q * nn) % prim == 0
  {
    var p := Shortfall(prim, nn);
    q := p % prim;
    ReduceShortfall(p, q, prim, nn);
  }

  lemma ReduceShortfall(p: nat, q: nat, prim: nat, nn: nat)
    requires prim >= 1 && q == p % prim && (1 + p * nn) % prim == 0
    ensures (1 + q * nn) % prim == 0
  {
    var x, y := p * nn, q * nn;
    assert x == nn * p && y == nn * (p % prim);
    assert y % prim == x % prim by { ModMul(nn, p, prim); }
    ModAdd(1, x, prim);
    ModAdd(1, y, prim);
  }

  lemma RootOfOne(prim: nat, nn: nat, t: nat, k: nat)
    requires prim >= 1 && nn >= 1 && t < prim && (1 + t * nn) % prim == 0 && k == (1 + t * nn) / prim
    ensures 1 <= k <= nn && prim * k % nn == 1 % nn
  {
    AddMultiple(1, t, nn);
    MulAtLeast(prim - t, nn);
    assert (prim - t) * nn == prim * nn - t * nn;
    ExactQuotient(1 + t * nn, prim, nn);
  }

  /** A product with a power of x, by the tables. */
  lemma TableProduct(rs: Rs, f: Field, a: nat, k: nat)
    requires HasTables(rs, f) && 0 < a <= rs.nn
    ensures rs.nn >= 1 && rs.indexOf[a] < rs.nn
    ensures (rs.indexOf[a] + k) % rs.nn < rs.nn && rs.alphaTo[(rs.indexOf[a] + k) % rs.nn] == Mul(f, a, Alpha(f, k))
  {
    hide Alpha, Mul;
    FieldSize(f);
    AlphaMod(f, rs.indexOf[a] + k);
    MulAlphas(f, rs.indexOf[a], k);
  }

  /** A product of two nonzero symbols, by the tables. */
  lemma TableProduct2(rs: Rs, f: Field, a: nat, b: nat)
    requires HasTables(rs, f) && 0 < a <= rs.nn && 0 < b <= rs.nn
    ensures rs.nn >= 1 && rs.indexOf[a] < rs.nn && rs.indexOf[b] < rs.nn
    ensures rs.alphaTo[(rs.indexOf[a] + rs.indexOf[b]) % rs.nn] == Mul(f, a, b)
  {
    TableProduct(rs, f, a, rs.indexOf[b]);
  }

  /** Going from a symbol to its logarithm and back changes nothing, zero included. */
  lemma TableRoundTrip(rs: Rs, f: Field, a: nat)
    requires HasTables(rs, f) && a <= rs.nn
    ensures rs.indexOf[a] <= rs.nn && rs.alphaTo[rs.indexOf[a]] == a
    ensures rs.indexOf[a] == rs.nn <==> a == 0
  {
    FieldSize(f);
  }

  /** Positions lo to hi of a hold coefficients of h, which is written leading coefficient first. */
  ghost predicate Holds(a: seq<nat>, lo: nat, hi: nat, h: seq<nat>) {
    hi <= |a| && hi <= |h| && forall k :: lo <= k < hi ==> a[k] == h[|h| - 1 - k]
  }

  /** One coefficient of the product with y + alpha^root, in place. */
  method MulCoefficient(rs: Rs, g: array<nat>, j: nat, root: nat, ghost f: Field)
    requires HasTables(rs, f) && 0 < j < g.Length && g[j] <= rs.nn
    modifies g
    ensures g[j] == Xor(old(g[j - 1]), Mul(f, old(g[j]), Alpha(f, root)))
    ensures forall k :: 0 <= k < g.Length && k != j ==> g[k] == old(g[k])
  {
    hide Xor, Mul, Alpha, High, Low;
    if g[j] != 0 {
      TableProduct(rs, f, g[j], root);
      var m := ModNN(rs.mm, rs.nn, rs.indexOf[g[j]] + root);
      g[j] := Xor(g[j - 1], rs.alphaTo[m]);
    } else {
      MulZero(f, Alpha(f, root));
      XorZero(g[j - 1]);
      g[j] := g[j - 1];
    }
  }

  /** The product of a polynomial of degree i with y + alpha^root, in place. */
  method MulByRoot(rs: Rs, g: array<nat>, i: nat, root: nat, ghost f: Field, ghost h: seq<nat>, ghost h': seq<nat>)
    requires HasTables(rs, f) && i + 1 < g.Length && |h| == i + 1 && |h'| == i + 2
    requires Holds(g[..], 0, i + 1, h) && AllIn(f, h) && Last(h) != 0
    requires h'[0] == 1 && h'[i + 1] == Mul(f, h[i], Alpha(f, root))
    requires forall k :: 1 <= k <= i ==> h'[k] == Xor(h[k], Mul(f, h[k - 1], Alpha(f, root)))
    modifies g
    ensures Holds(g[..], 0, i + 2, h')
  {
    hide Xor, Mul, Alpha, High, Low;
    g[i + 1] := 1;
    var j := i;
    while j > 0
      invariant 0 <= j <= i && Holds(g[..], 0, j + 1, h) && Holds(g[..], j + 1, i + 2, h')
    {
      assert g[..][j] == h[i - j] && g[..][j - 1] == h[i - (j - 1)];
      MulCoefficient(rs, g, j, root, f);
      assert g[j] == h'[i + 1 - j];
      j := j - 1;
    }
    assert g[..][0] == h[i];
    TableProduct(rs, f, g[0], root);
    var m := ModNN(rs.mm, rs.nn, rs.indexOf[g[0]] + root);
    g[0] := rs.alphaTo[m];
  }

  /** The generator polynomial from its roots, constant coefficient first, first by value and then by logarithm. */
  method BuildGenpoly(rs: Rs, ghost f: Field) returns (genpoly: seq<nat>)
    requires HasTables(rs, f)
    ensures |genpoly| == rs.nroots + 1
    ensures forall j :: 0 <= j <= rs.nroots ==> var c := Generator(f, rs.fcr, rs.prim, rs.nroots)[rs.nroots - j];
              c <= rs.nn && genpoly[j] == rs.indexOf[c]
  {
    hide Xor, Mul, Alpha, High, Low, Generator;
    var g := new nat[rs.nroots + 1];
    g[0] := 1;
    var i, root := 0, rs.fcr * rs.prim;
    GeneratorStart(f, rs.fcr, rs.prim);
    while i < rs.nroots
      invariant 0 <= i <= rs.nroots && root == RootIndex(rs.fcr, rs.prim, i)
      invariant Holds(g[..], 0, i + 1, Generator(f, rs.fcr, rs.prim, i))
    {
      ghost var h, h' := Generator(f, rs.fcr, rs.prim, i), Generator(f, rs.fcr, rs.prim, i + 1);
      GeneratorStep(f, rs.fcr, rs.prim, i);
      MulByRoot(rs, g, i, root, f, h, h');
      i, root := i + 1, root + rs.prim;
    }
    ghost var h := Generator(f, rs.fcr, rs.prim, rs.nroots);
    GeneratorIsMonic(f, rs.fcr, rs.prim, rs.nroots);
    genpoly := [];
    for k := 0 to rs.nroots + 1
      invariant |genpoly| == k && Holds(g[..], 0, rs.nroots + 1, h)
      invariant forall j :: 0 <= j < k ==> h[rs.nroots - j] <= rs.nn && genpoly[j] == rs.indexOf[h[rs.nroots - j]]
    {
      assert g[..][k] == h[rs.nroots - k];
      genpoly := genpoly + [rs.indexOf[g[k]]];
    }
  }

  lemma GeneratorStart(f: Field, fcr: nat, prim: nat)
    ensures Generator(f, fcr, prim, 0) == [1] && RootIndex(fcr, prim, 0) == fcr * prim
  {}

  lemma GeneratorStep(f: Field, fcr: nat, prim: nat, i: nat)
    ensures var h, h' := Generator(f, fcr, prim, i), Generator(f, fcr, prim, i + 1);
            var r := Alpha(f, RootIndex(fcr, prim, i));
            && AllIn(f, h) && Last(h) != 0 && h'[0] == 1
            && (forall k :: 1 <= k <= i ==> h'[k] == Xor(h[k], Mul(f, h[k - 1], r)))
            && h'[i + 1] == Mul(f, h[i], r)
    ensures RootIndex(fcr, prim, i + 1) == RootIndex(fcr, prim, i) + prim
  {
    hide Xor, Mul, Alpha;
    var h, r := Generator(f, fcr, prim, i), Alpha(f, RootIndex(fcr, prim, i));
    GeneratorIsMonic(f, fcr, prim, i);
    GeneratorIsMonic(f, fcr, prim, i + 1);
    forall k | 1 <= k <= i ensures MulRoot(f, h, r)[k] == Xor(h[k], Mul(f, h[k - 1], r)) { MulRootAt(f, h, r, k); }
    MulRootAt(f, h, r, i + 1);
    assert (fcr + (i + 1)) * prim == (fcr + i) * prim + prim;
  }

  /** init_rs: a control block is built exactly for 1 to 8 bits per symbol, first root and root step within the field,
      the step not zero, at least one data symbol besides parity and padding, and a polynomial whose powers of x close. It
      holds the tables of the field and the generator polynomial with the prescribed roots. */
  method InitRs(symsize: int, gfpoly: nat, fcr: int, prim: int, nroots: int, pad: int) returns (r: Option<Rs>)
    requires InRange(symsize, fcr, prim, nroots, pad) && Alpha(FieldParams(symsize, gfpoly), Pow2(symsize) - 1) == 1 ==>
               Primitive(FieldParams(symsize, gfpoly)) && Coprime(prim, Pow2(symsize) - 1)
    ensures r.Some? <==> && 1 <= symsize <= 8 && 0 <= fcr <= Pow2(symsize) - 1 && 1 <= prim <= Pow2(symsize) - 1
                         && 0 <= nroots && 0 <= pad && Pow2(symsize) - 1 - nroots - pad >= 1
                         && Alpha(FieldParams(symsize, gfpoly), Pow2(symsize) - 1) == 1
    ensures r.Some? ==> Primitive(FieldParams(symsize, gfpoly)) && Valid(r.value, FieldParams(symsize, gfpoly))
                        && r.value.fcr == fcr && r.value.prim == prim && r.value.nroots == nroots && r.value.pad == pad
  {
    hide Alpha, Generator, Filled, HasTables, Coprime, RootIndex;
    if !InRange(symsize, fcr, prim, nroots, pad) {
      return None;
    }
    assert symsize >= 1;
    var alphaTo, indexOf, closed := BuildTables(symsize, gfpoly);
    if !closed {
      return None;
    }
    ghost var f: Field := FieldParams(symsize, gfpoly);
    var nn := Pow2(symsize) - 1;
    var iprim := FindIprim(prim, nn);
    var rs := Rs(symsize, nn, alphaTo[..], indexOf[..], [], nroots, fcr, prim, iprim, pad);
    FilledIsTables(rs, f);
    var genpoly := BuildGenpoly(rs, f);
    r := Some(rs.(genpoly := genpoly));
    GeneratorIsMonic(f, fcr, prim, nroots);
    assert HasTables(r.value, f) by { SameTables(rs, r.value, f); }
  }

  lemma SameTables(rs: Rs, rs': Rs, f: Field)
    requires HasTables(rs, f)
    requires rs'.mm == rs.mm && rs'.nn == rs.nn && rs'.alphaTo == rs.alphaTo && rs'.indexOf == rs.indexOf
    ensures HasTables(rs', f)
  {}

  lemma FilledIsTables(rs: Rs, f: Field)
    requires rs.mm == f.mm && rs.nn == NN(f) && Filled(f, rs.alphaTo, rs.indexOf, NN(f))
    requires rs.alphaTo[rs.nn] == 0 && rs.indexOf[0] == rs.nn
    ensures HasTables(rs, f)
  {
    hide Alpha;
    forall x | 0 < x <= rs.nn ensures rs.indexOf[x] == Log(f, x) {
      var i := Log(f, x);
      assert LastPower(f, rs.indexOf[Alpha(f, i)], i, NN(f));
      if rs.indexOf[x] > i { AlphaDistinct(f, i, rs.indexOf[x]); }
    }
  }
}
