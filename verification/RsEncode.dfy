/** The systematic Reed-Solomon encoder. */
module RsEncode {
  import opened Arithmetic
  import opened Bits
  import opened ExclusiveOr
  import opened GaloisField
  import opened Locators
  import opened RsInit
  import opened Sequences
  import opened Words

  /** The generator roots. */
  ghost function Root(rs: Rs, f: Field, i: nat): nat { Alpha(f, RootIndex(rs.fcr, rs.prim, i)) }

  /** A word is a codeword if it vanishes at all generator roots. */
  ghost predicate IsCodeword(rs: Rs, f: Field, w: seq<nat>) {
    AllIn(f, w) && forall i :: 0 <= i < rs.nroots ==> Eval(f, w, Root(rs, f, i)) == 0
  }

  /** The number of data symbols in a block. */
  function DataLength(rs: Rs): int { rs.nn - rs.nroots - rs.pad }

  ghost function Coefficients(rs: Rs, f: Field): (g: seq<nat>)
    ensures |g| == rs.nroots + 1
  {
    Generator(f, rs.fcr, rs.prim, rs.nroots)
  }

  /** What one data symbol does to the parity register. */
  ghost function Feed(f: Field, g: seq<nat>, p: seq<nat>, d: nat): (p': seq<nat>)
    requires p != [] && |g| == |p| + 1
    ensures |p'| == |p|
  {
    Sum(p[1..] + [0], Scale(f, Xor(d, p[0]), g[1..]))
  }

  /** Feeding multiplies the register by y and adds d y^nroots, at every root y of the generator. */
  lemma FeedEval(f: Field, g: seq<nat>, p: seq<nat>, d: nat, y: nat)
    requires p != [] && |g| == |p| + 1 && g[0] == 1 && Eval(f, g, y) == 0
    requires In(f, p[0]) && AllIn(f, g) && In(f, d)
    ensures Eval(f, Feed(f, g, p, d), y) == Xor(Mul(f, Eval(f, p, y), y), Mul(f, d, Pow(f, y, |p|)))
  {
    hide Mul, Xor, Eval, Scale, Sum;
    var n, b, q := |p|, Xor(d, p[0]), p[1..];
    EvalSum(f, q + [0], Scale(f, b, g[1..]), y);
    EvalAppend(f, q, 0, y);
    XorZero(Mul(f, Eval(f, q, y), y));
    EvalScale(f, b, g[1..], y);
    assert p == [p[0]] + q && g == [1] + g[1..];
    EvalPrepend(f, p[0], q, y);
    TailOfRoot(f, g, y);
    FeedAlgebra(f, Eval(f, q, y), p[0], Pow(f, y, n - 1), d, y);
  }

  /** At a root the monic generator's other terms add up to the leading one. */
  lemma TailOfRoot(f: Field, g: seq<nat>, y: nat)
    requires g != [] && g[0] == 1 && Eval(f, g, y) == 0 && AllIn(f, g)
    ensures Eval(f, g[1..], y) == Pow(f, y, |g| - 1)
  {
    hide Mul, Xor, Eval;
    assert g == [1] + g[1..];
    FieldSize(f);
    EvalPrepend(f, 1, g[1..], y);
    PowIn(f, y, |g| - 1);
    MulOne(f, Pow(f, y, |g| - 1));
    XorZeroIffEqual(Pow(f, y, |g| - 1), Eval(f, g[1..], y));
  }

  /** q y + (d + a) (k y)  =  (a k + q) y + d (k y). */
  lemma FeedAlgebra(f: Field, q: nat, a: nat, k: nat, d: nat, y: nat)
    ensures Xor(Mul(f, q, y), Mul(f, Xor(d, a), Mul(f, k, y)))
            == Xor(Mul(f, Xor(Mul(f, a, k), q), y), Mul(f, d, Mul(f, k, y)))
  {
    hide *;
    var Q, A, D := Mul(f, q, y), Mul(f, a, Mul(f, k, y)), Mul(f, d, Mul(f, k, y));
    MulDistributes(f, d, a, Mul(f, k, y));
    MulDistributes(f, Mul(f, a, k), q, y);
    MulAssociates(f, a, k, y);
    XorCommutes(D, A);
    XorAssociates(Q, A, D);
    XorCommutes(Q, A);
  }

  lemma {:induction false} EvalConcat(f: Field, v: seq<nat>, w: seq<nat>, y: nat)
    requires AllIn(f, v)
    ensures Eval(f, v + w, y) == Xor(Mul(f, Eval(f, v, y), Pow(f, y, |w|)), Eval(f, w, y))
    decreases |w|
  {
    hide Mul, Xor;
    if w == [] {
      assert v + w == v;
      EvalIn(f, v, y);
      MulOne(f, Eval(f, v, y));
      XorZero(Eval(f, v, y));
    } else {
      EvalConcat(f, v, Front(w), y);
      assert Front(v + w) == v + Front(w);
      var E, p, q := Eval(f, v, y), Pow(f, y, |w| - 1), Eval(f, Front(w), y);
      MulDistributes(f, Mul(f, E, p), q, y);
      MulAssociates(f, E, p, y);
      XorAssociates(Mul(f, E, Mul(f, p, y)), Mul(f, q, y), Last(w));
    }
  }

  /** The register after the data symbols d, as the remainder condition states it: at every root it agrees with
      the data shifted up by nroots. */
  ghost predicate Remainder(rs: Rs, f: Field, d: seq<nat>, p: seq<nat>) {
    && |p| == rs.nroots && AllIn(f, p)
    && forall i :: 0 <= i < rs.nroots ==>
         Eval(f, p, Root(rs, f, i)) == Mul(f, Eval(f, d, Root(rs, f, i)), Pow(f, Root(rs, f, i), rs.nroots))
  }

  lemma RemainderStart(rs: Rs, f: Field, p: seq<nat>)
    requires |p| == rs.nroots && forall j :: 0 <= j < |p| ==> p[j] == 0
    ensures Remainder(rs, f, [], p)
  {
    hide Mul, Root;
    forall i | 0 <= i < rs.nroots
      ensures Eval(f, p, Root(rs, f, i)) == Mul(f, Eval(f, [], Root(rs, f, i)), Pow(f, Root(rs, f, i), rs.nroots))
    {
      EvalZeros(f, p, Root(rs, f, i));
      MulZero(f, Pow(f, Root(rs, f, i), rs.nroots));
    }
  }

  lemma RemainderStep(rs: Rs, f: Field, d: seq<nat>, p: seq<nat>, a: nat)
    requires Valid(rs, f) && rs.nroots >= 1 && Remainder(rs, f, d, p) && In(f, a)
    ensures Remainder(rs, f, d + [a], Feed(f, Coefficients(rs, f), p, a))
  {
    hide Mul, Xor, Root, Eval, Sum, Scale, Valid, Generator, Pow;
    var g := Coefficients(rs, f);
    GeneratorIsMonic(f, rs.fcr, rs.prim, rs.nroots);
    FeedIn(f, g, p, a);
    forall i | 0 <= i < rs.nroots
      ensures Eval(f, Feed(f, g, p, a), Root(rs, f, i))
              == Mul(f, Eval(f, d + [a], Root(rs, f, i)), Pow(f, Root(rs, f, i), rs.nroots))
    {
      var y, n := Root(rs, f, i), rs.nroots;
      RootOfGenerator(rs, f, i);
      FeedEval(f, g, p, a, y);
      EvalAppend(f, d, a, y);
      MulDistributes(f, Mul(f, Eval(f, d, y), y), a, Pow(f, y, n));
      MulSwap(f, Eval(f, d, y), y, Pow(f, y, n));
    }
  }

  lemma RootOfGenerator(rs: Rs, f: Field, i: nat)
    requires i < rs.nroots
    ensures Eval(f, Coefficients(rs, f), Root(rs, f, i)) == 0
  {
    hide Alpha, Eval, RootIndex;
    AlphaIn(f, RootIndex(rs.fcr, rs.prim, i));
    GeneratorRoots(f, rs.fcr, rs.prim, rs.nroots, Root(rs, f, i));
  }

  lemma FeedAt(f: Field, g: seq<nat>, p: seq<nat>, d: nat, j: nat)
    requires p != [] && |g| == |p| + 1 && j < |p|
    ensures Feed(f, g, p, d)[j]
            == Xor(if j < |p| - 1 then p[j + 1] else 0, Mul(f, Xor(d, p[0]), g[j + 1]))
  {
    hide Mul, Xor;
    SumAt(p[1..] + [0], Scale(f, Xor(d, p[0]), g[1..]), j);
    ScaleAt(f, Xor(d, p[0]), g[1..], j);
  }

  lemma FeedIn(f: Field, g: seq<nat>, p: seq<nat>, d: nat)
    requires p != [] && |g| == |p| + 1 && AllIn(f, p)
    ensures AllIn(f, Feed(f, g, p, d))
  {
    hide Mul, Xor, Feed, In, NN;
    forall j | 0 <= j < |p| ensures In(f, Feed(f, g, p, d)[j]) {
      FeedAt(f, g, p, d, j);
      MulIn(f, Xor(d, p[0]), g[j + 1]);
      assert In(f, 0) by { ZeroIn(f); }
      XorIn(f, if j < |p| - 1 then p[j + 1] else 0, Mul(f, Xor(d, p[0]), g[j + 1]));
    }
  }

  lemma ZeroIn(f: Field)
    ensures In(f, 0)
  {}

  /** Data followed by its remainder is a codeword. */
  lemma RemainderCompletes(rs: Rs, f: Field, d: seq<nat>, p: seq<nat>)
    requires AllIn(f, d) && Remainder(rs, f, d, p)
    ensures IsCodeword(rs, f, d + p)
  {
    hide Mul, Xor, Root, Eval;
    forall i | 0 <= i < rs.nroots ensures Eval(f, d + p, Root(rs, f, i)) == 0 {
      EvalConcat(f, d, p, Root(rs, f, i));
      XorSelf(Eval(f, p, Root(rs, f, i)));
    }
  }

  /** One register position before the shift. */
  method FeedSymbol(rs: Rs, buf: array<nat>, parity: nat, j: nat, feedback: nat, ghost b: nat, ghost f: Field)
    requires Valid(rs, f) && 1 <= j < rs.nroots && parity + rs.nroots <= buf.Length
    requires 0 < b <= rs.nn && feedback == rs.indexOf[b]
    modifies buf
    ensures buf[parity + j] == Xor(old(buf[parity + j]), Mul(f, b, Coefficients(rs, f)[j]))
    ensures forall k :: 0 <= k < buf.Length && k != parity + j ==> buf[k] == old(buf[k])
  {
    hide Mul, Xor, Generator, High, Low;
    ghost var c := Coefficients(rs, f)[j];
    assert rs.genpoly[rs.nroots - j] == rs.indexOf[c];
    CoefficientIsNonzero(rs, f, j);
    TableProduct2(rs, f, b, c);
    var m := ModNN(rs.mm, rs.nn, feedback + rs.genpoly[rs.nroots - j]);
    buf[parity + j] := Xor(buf[parity + j], rs.alphaTo[m]);
  }

  lemma CoefficientIsNonzero(rs: Rs, f: Field, j: nat)
    requires Valid(rs, f) && j <= rs.nroots
    ensures 0 < Coefficients(rs, f)[j] <= rs.nn
  {
    hide Generator;
    GeneratorHasNoZeros(f, rs.fcr, rs.prim, rs.iprim, rs.nroots);
  }

  /** The memmove that drops the first register symbol. */
  method ShiftDown(buf: array<nat>, parity: nat, n: nat)
    requires 1 <= n && parity + n <= buf.Length
    modifies buf
    ensures forall k :: parity <= k < parity + n - 1 ==> buf[k] == old(buf[k + 1])
    ensures forall k :: 0 <= k < buf.Length && !(parity <= k < parity + n - 1) ==> buf[k] == old(buf[k])
  {
    for k := parity to parity + n - 1
      invariant forall j :: parity <= j < k ==> buf[j] == old(buf[j + 1])
      invariant forall j :: 0 <= j < buf.Length && !(parity <= j < k) ==> buf[j] == old(buf[j])
    {
      buf[k] := buf[k + 1];
    }
  }

  /** Adding feedback times the generator to the register, the leading term left out. */
  method AddFeedback(rs: Rs, buf: array<nat>, parity: nat, feedback: nat, ghost b: nat, ghost f: Field)
    requires Valid(rs, f) && rs.nroots >= 1 && parity + rs.nroots <= buf.Length
    requires In(f, b) && feedback == rs.indexOf[b]
    modifies buf
    ensures forall k :: 0 <= k < buf.Length && !(parity < k < parity + rs.nroots) ==> buf[k] == old(buf[k])
    ensures forall k :: parity < k < parity + rs.nroots ==>
              buf[k] == Xor(old(buf[k]), Mul(f, b, Coefficients(rs, f)[k - parity]))
  {
    hide Mul, Xor, Generator, HasTables, High, Low, Coefficients, Primitive, InRange;
    IndexInRange(rs, f, b);
    var n := rs.nroots;
    if feedback != rs.nn {
      for j := 1 to n
        invariant forall k :: 0 <= k < buf.Length && !(parity < k < parity + j) ==> buf[k] == old(buf[k])
        invariant forall k :: parity < k < parity + j ==>
          buf[k] == Xor(old(buf[k]), Mul(f, b, Coefficients(rs, f)[k - parity]))
      {
        FeedSymbol(rs, buf, parity, j, feedback, b, f);
      }
    } else {
      forall k | parity < k < parity + n
        ensures buf[k] == Xor(old(buf[k]), Mul(f, b, Coefficients(rs, f)[k - parity]))
      {
        MulZero(f, Coefficients(rs, f)[k - parity]);
        XorZero(buf[k]);
      }
    }
  }

  /** One data symbol into the register. */
  method FeedRegister(rs: Rs, buf: array<nat>, parity: nat, d: nat, ghost f: Field)
    requires Valid(rs, f) && rs.nroots >= 1 && parity + rs.nroots <= buf.Length
    requires In(f, d) && AllIn(f, buf[parity..parity + rs.nroots])
    modifies buf
    ensures buf[parity..parity + rs.nroots]
            == Feed(f, Coefficients(rs, f), old(buf[parity..parity + rs.nroots]), d)
    ensures forall k :: 0 <= k < buf.Length && !(parity <= k < parity + rs.nroots) ==> buf[k] == old(buf[k])
  {
    hide *;
    var n := rs.nroots;
    ghost var p, g := buf[parity..parity + n], Coefficients(rs, f);
    ghost var b := Xor(d, p[0]);
    InAt(f, p, 0);
    XorIn(f, d, p[0]);
    IndexInRange(rs, f, b);
    var feedback := rs.indexOf[Xor(d, buf[parity])];
    AddFeedback(rs, buf, parity, feedback, b, f);
    ShiftDown(buf, parity, n);
    if feedback != rs.nn {
      LastCoefficient(rs, f, b);
      var m := ModNN(rs.mm, rs.nn, feedback + rs.genpoly[0]);
      buf[parity + n - 1] := rs.alphaTo[m];
    } else {
      MulZero(f, g[n]);
      buf[parity + n - 1] := 0;
    }
    FeedFromParts(f, g, p, d, buf[parity..parity + n]);
  }

  lemma InAt(f: Field, w: seq<nat>, i: nat)
    requires AllIn(f, w) && i < |w|
    ensures In(f, w[i])
  {}

  lemma FeedFromParts(f: Field, g: seq<nat>, p: seq<nat>, d: nat, q: seq<nat>)
    requires p != [] && |g| == |p| + 1 && |q| == |p|
    requires forall j :: 0 <= j < |p| - 1 ==> q[j] == Xor(p[j + 1], Mul(f, Xor(d, p[0]), g[j + 1]))
    requires q[|p| - 1] == Mul(f, Xor(d, p[0]), g[|p|])
    ensures q == Feed(f, g, p, d)
  {
    hide Mul, Xor, Feed;
    XorZero(Mul(f, Xor(d, p[0]), g[|p|]));
    forall j | 0 <= j < |p| ensures q[j] == Feed(f, g, p, d)[j] { FeedAt(f, g, p, d, j); }
  }

  lemma IndexInRange(rs: Rs, f: Field, b: nat)
    requires Valid(rs, f) && In(f, b)
    ensures b < |rs.indexOf| && rs.mm >= 1 && rs.nn == Pow2(rs.mm) - 1 && b <= rs.nn
    ensures rs.indexOf[b] == rs.nn <==> b == 0
  {
    FieldSize(f);
    TableRoundTrip(rs, f, b);
  }

  lemma LastCoefficient(rs: Rs, f: Field, b: nat)
    requires Valid(rs, f) && 0 < b <= rs.nn
    ensures |rs.genpoly| > 0 && rs.nn >= 1 && |rs.alphaTo| == rs.nn + 1 && b < |rs.indexOf|
    ensures rs.alphaTo[(rs.indexOf[b] + rs.genpoly[0]) % rs.nn] == Mul(f, b, Coefficients(rs, f)[rs.nroots])
  {
    hide Mul, Generator;
    CoefficientIsNonzero(rs, f, rs.nroots);
    TableProduct2(rs, f, b, Coefficients(rs, f)[rs.nroots]);
  }

  /** encode_rs: reads the data symbols at offset data and writes the parity symbols at offset parity of the same
      memory. Data followed by parity is a codeword, and nothing else in memory changes. */
  method EncodeRs(rs: Rs, buf: array<nat>, data: nat, parity: nat, ghost f: Field)
    requires Valid(rs, f) && rs.nroots >= 1
    requires data + DataLength(rs) <= buf.Length && parity + rs.nroots <= buf.Length
    requires data + DataLength(rs) <= parity || parity + rs.nroots <= data
    requires AllIn(f, buf[data..data + DataLength(rs)])
    modifies buf
    ensures forall k :: 0 <= k < buf.Length && !(parity <= k < parity + rs.nroots) ==> buf[k] == old(buf[k])
    ensures IsCodeword(rs, f, buf[data..data + DataLength(rs)] + buf[parity..parity + rs.nroots])
  {
    hide Valid, Remainder, Feed, Coefficients, In, NN, Primitive, InRange;
    var n := rs.nroots;
    for j := 0 to n
      invariant forall k :: parity <= k < parity + j ==> buf[k] == 0
      invariant forall k :: 0 <= k < buf.Length && !(parity <= k < parity + j) ==> buf[k] == old(buf[k])
    {
      buf[parity + j] := 0;
    }
    RemainderStart(rs, f, buf[parity..parity + n]);
    var len := DataLength(rs);
    PositiveLength(rs, f);
    ghost var d := old(buf[data..data + len]);
    assert d[..0] == [];
    for i := 0 to len
      invariant Remainder(rs, f, d[..i], buf[parity..parity + n])
      invariant forall k :: 0 <= k < buf.Length && !(parity <= k < parity + n) ==> buf[k] == old(buf[k])
    {
      assert buf[data + i] == d[i];
      RemainderStep(rs, f, d[..i], buf[parity..parity + n], d[i]);
      assert d[..i + 1] == d[..i] + [d[i]];
      RemainderIn(rs, f, d[..i], buf[parity..parity + n]);
      FeedRegister(rs, buf, parity, buf[data + i], f);
    }
    assert d[..len] == d == buf[data..data + len];
    RemainderCompletes(rs, f, d, buf[parity..parity + n]);
  }

  lemma PositiveLength(rs: Rs, f: Field)
    requires Valid(rs, f)
    ensures DataLength(rs) > 0
  {}

  lemma RemainderIn(rs: Rs, f: Field, d: seq<nat>, p: seq<nat>)
    requires Remainder(rs, f, d, p)
    ensures AllIn(f, p)
  {}
}
