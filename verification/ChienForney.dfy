/** The decoder's search for the roots of the error locator and its computation of error values. */
module ChienForney {
  import opened Arithmetic
  import opened BerlekampMassey
  import opened Bits
  import opened ErrorLocation
  import opened ExclusiveOr
  import opened GaloisField
  import opened PowerSums
  import opened RsInit
  import opened Sequences
  import opened Words

  // ---------------------------------------------------------------- sums from the top down

  lemma LowEvalStep(f: Field, p: seq<nat>, x: nat, j: nat)
    requires j < |p|
    ensures LowEval(f, p[..j + 1], x) == Xor(LowEval(f, p[..j], x), Mul(f, p[j], Pow(f, x, j)))
  {
    hide Mul, Xor, Pow;
    FrontOfPrefix(p, j);
  }

  lemma LowEvalNone(f: Field, x: nat)
    ensures LowEval(f, [], x) == 0
  {}

  /** Moving one term of a sum from the remainder to the accumulator. */
  lemma MoveTerm(acc: nat, rest: nat, term: nat, total: nat)
    requires Xor(acc, Xor(rest, term)) == total
    ensures Xor(Xor(acc, term), rest) == total
  {
    hide Xor;
    XorCommutes(rest, term);
    XorAssociates(acc, term, rest);
  }

  /** A product with alpha^(i * r) by the tables, zero included. */
  lemma LogPower(rs: Rs, f: Field, a: nat, r: nat, i: nat)
    requires HasTables(rs, f) && In(f, a)
    ensures rs.mm >= 1 && rs.nn == Pow2(rs.mm) - 1 && rs.nn >= 1 && a < |rs.indexOf| && |rs.alphaTo| == rs.nn + 1
    ensures rs.indexOf[a] == rs.nn <==> a == 0
    ensures Mul(f, a, Pow(f, Alpha(f, r), i))
            == if a == 0 then 0 else rs.alphaTo[(rs.indexOf[a] + i * r) % rs.nn]
  {
    hide Mul, Alpha;
    FieldSize(f);
    TableRoundTrip(rs, f, a);
    MulZero(f, Pow(f, Alpha(f, r), i));
    PowAlpha(f, r, i);
    assert r * i == i * r;
    if a != 0 { TableProduct(rs, f, a, i * r); }
  }

  // ---------------------------------------------------------------- the degree of the locator

  /** lambda to logarithms, and its degree. */
  method ToLogs(rs: Rs, lambda: array<nat>, ghost f: Field) returns (deg: nat)
    requires HasTables(rs, f) && AllIn(f, lambda[..]) && lambda.Length > 0
    modifies lambda
    ensures Logs(rs, lambda[..], old(lambda[..]))
    ensures deg < lambda.Length && forall i :: deg < i < lambda.Length ==> old(lambda[i]) == 0
    ensures deg > 0 ==> old(lambda[deg]) != 0
  {
    deg := 0;
    ghost var w := lambda[..];
    for i := 0 to lambda.Length
      invariant deg <= i && deg < lambda.Length && (i > 0 ==> deg < i)
      invariant forall k :: deg < k < i ==> w[k] == 0
      invariant deg > 0 ==> w[deg] != 0
      invariant forall k :: 0 <= k < i ==> w[k] < |rs.indexOf| && lambda[k] == rs.indexOf[w[k]]
      invariant forall k :: i <= k < lambda.Length ==> lambda[k] == w[k]
    {
      assert In(f, w[i]);
      TableRoundTrip(rs, f, w[i]);
      lambda[i] := rs.indexOf[lambda[i]];
      if lambda[i] != rs.nn {
        deg := i;
      }
    }
  }

  // ---------------------------------------------------------------- Chien search

  /** alpha^i is a root of the polynomial w of degree deg. */
  ghost predicate IsRoot(f: Field, w: seq<nat>, deg: nat, i: nat)
    requires deg < |w|
  {
    LowEval(f, w[..deg + 1], Alpha(f, i)) == 0
  }

  /** Register j before step i: the logarithm of w[j] alpha^(j (i - 1)). */
  function Register(rs: Rs, a: nat, j: nat, i: nat): nat {
    if rs.nn == 0 || a >= |rs.indexOf| then 0
    else if rs.indexOf[a] == rs.nn then rs.nn else (rs.indexOf[a] + j * i) % rs.nn
  }

  ghost predicate Registers(rs: Rs, reg: seq<nat>, w: seq<nat>, deg: nat, i: nat) {
    deg < |reg| && deg < |w| && forall j :: 1 <= j <= deg ==> reg[j] == Register(rs, w[j], j, i)
  }

  lemma AdvanceRegister(rs: Rs, f: Field, a: nat, j: nat, i: nat)
    requires HasTables(rs, f) && In(f, a) && i >= 1
    ensures rs.mm >= 1 && rs.nn == Pow2(rs.mm) - 1 && rs.nn >= 1 && |rs.alphaTo| == rs.nn + 1
    ensures Register(rs, a, j, i - 1) == rs.nn <==> a == 0
    ensures if a == 0 then Register(rs, a, j, i) == rs.nn && Mul(f, a, Pow(f, Alpha(f, i), j)) == 0
            else Register(rs, a, j, i) == (Register(rs, a, j, i - 1) + j) % rs.nn < rs.nn
                 && rs.alphaTo[Register(rs, a, j, i)] == Mul(f, a, Pow(f, Alpha(f, i), j))
  {
    hide Mul, Alpha, HasTables, Pow;
    LogPower(rs, f, a, i, j);
    if a != 0 {
      var x := rs.indexOf[a] + j * (i - 1);
      ModAdd(j, x, rs.nn);
      assert j + x == rs.indexOf[a] + j * i;
    }
  }

  /** One step of the search: the registers advance and their sum with one is the locator at alpha^i. */
  method ChienStep(rs: Rs, reg: array<nat>, deg: nat, i: nat, ghost w: seq<nat>, ghost f: Field) returns (q: nat)
    requires HasTables(rs, f) && AllIn(f, w) && i >= 1 && Registers(rs, reg[..], w, deg, i - 1) && w[0] == 1
    modifies reg
    ensures Registers(rs, reg[..], w, deg, i)
    ensures q == LowEval(f, w[..deg + 1], Alpha(f, i))
  {
    hide Mul, Xor, Alpha, HasTables, Register, Pow, LowEval, High, Low, NN;
    ghost var x := Alpha(f, i);
    ghost var total := Xor(1, LowEval(f, w[..deg + 1], x));
    q := 1;
    var j := deg;
    while j > 0
      invariant 0 <= j <= deg && Xor(q, LowEval(f, w[..j + 1], x)) == total
      invariant forall k :: j < k <= deg ==> reg[k] == Register(rs, w[k], k, i)
      invariant forall k :: 1 <= k <= j ==> reg[k] == Register(rs, w[k], k, i - 1)
    {
      AdvanceRegister(rs, f, w[j], j, i);
      LowEvalStep(f, w, x, j);
      MoveTerm(q, LowEval(f, w[..j], x), Mul(f, w[j], Pow(f, x, j)), total);
      XorZero(q);
      if reg[j] != rs.nn {
        var m := ModNN(rs.mm, rs.nn, reg[j] + j);
        reg[j] := m;
        q := Xor(q, rs.alphaTo[m]);
      }
      j := j - 1;
    }
    ConstantTerm(f, w, x);
    XorCommutes(q, 1);
    XorCancel(1, q);
    XorCancel(1, LowEval(f, w[..deg + 1], x));
  }

  lemma ConstantTerm(f: Field, w: seq<nat>, x: nat)
    requires |w| > 0 && w[0] == 1
    ensures LowEval(f, w[..1], x) == 1
  {
    hide Mul, Xor;
    LowEvalStep(f, w, x, 0);
    FieldSize(f);
    MulOne(f, 1);
    XorZero(1);
  }

  /** The search: all roots alpha^r, r from 1 to nn, in increasing order, with the position each one points to.
      Stopping as soon as as many roots are found as the degree allows loses none. */
  method ChienSearch(rs: Rs, lambda: array<nat>, deg: nat, ghost w: seq<nat>, ghost f: Field)
    returns (root: seq<nat>, loc: seq<nat>)
    requires HasTables(rs, f) && 1 <= rs.iprim <= rs.nn && rs.prim * rs.iprim % rs.nn == 1 % rs.nn
    requires Logs(rs, lambda[..], w) && AllIn(f, w) && deg < |w| && w[0] == 1
    ensures |root| == |loc| <= deg
    ensures forall k :: 0 <= k < |root| ==> 1 <= root[k] <= rs.nn && IsRoot(f, w, deg, root[k])
    ensures forall k, l :: 0 <= k < l < |root| ==> root[k] < root[l]
    ensures forall r :: 1 <= r <= rs.nn && IsRoot(f, w, deg, r) ==> r in root
    ensures forall k :: 0 <= k < |loc| ==> PointsTo(rs, root[k], loc[k])
  {
    hide *;
    ghost var start := lambda[..];
    InitialRegisters(rs, f, start, w, deg);
    var reg := new nat[lambda.Length];
    forall j | 0 <= j < lambda.Length { reg[j] := lambda[j]; }
    assert reg[..] == start;
    root, loc := [], [];
    var i: nat, k: nat := 1, rs.iprim - 1;
    PointerStart(rs);
    while i <= rs.nn
      invariant 1 <= i <= rs.nn + 1 && Registers(rs, reg[..], w, deg, i - 1) && Pointer(rs, i, k)
      invariant |root| == |loc| && (deg == 0 || |root| < deg) && (deg == 0 ==> |root| == 0)
      invariant Found(f, w, deg, root, i)
      invariant forall k :: 0 <= k < |loc| ==> PointsTo(rs, root[k], loc[k])
    {
      var q := ChienStep(rs, reg, deg, i, w, f);
      RootIffZero(f, w, deg, i, q);
      FoundStep(f, w, deg, root, i);
      if q == 0 {
        PointerPoints(rs, i, k);
        root, loc := root + [i], loc + [k];
        if |root| == deg {
          NoMoreRoots(rs, f, w, deg, root, i + 1);
          return;
        }
      }
      TableSize(rs, f);
      PointerStep(rs, i, k);
      k := ModNN(rs.mm, rs.nn, k + rs.iprim);
      i := i + 1;
    }
    AllFound(f, w, deg, root, i);
  }

  /** The list holds the roots below i in increasing order. */
  ghost predicate Found(f: Field, w: seq<nat>, deg: nat, root: seq<nat>, i: nat) {
    && deg < |w|
    && (forall k :: 0 <= k < |root| ==> 1 <= root[k] < i && IsRoot(f, w, deg, root[k]))
    && (forall k, l :: 0 <= k < l < |root| ==> root[k] < root[l])
    && forall r :: 1 <= r < i && IsRoot(f, w, deg, r) ==> r in root
  }

  lemma FoundStep(f: Field, w: seq<nat>, deg: nat, root: seq<nat>, i: nat)
    requires Found(f, w, deg, root, i) && i >= 1
    ensures Found(f, w, deg, if IsRoot(f, w, deg, i) then root + [i] else root, i + 1)
  {
    hide IsRoot;
    var next := if IsRoot(f, w, deg, i) then root + [i] else root;
    forall r | 1 <= r < i + 1 && IsRoot(f, w, deg, r) ensures r in next {
      if r == i { assert next[|root|] == i; }
    }
  }

  lemma AllFound(f: Field, w: seq<nat>, deg: nat, root: seq<nat>, i: nat)
    requires Found(f, w, deg, root, i)
    ensures forall k :: 0 <= k < |root| ==> 1 <= root[k] < i && IsRoot(f, w, deg, root[k])
    ensures forall k, l :: 0 <= k < l < |root| ==> root[k] < root[l]
    ensures forall r :: 1 <= r < i && IsRoot(f, w, deg, r) ==> r in root
  {
    hide IsRoot;
  }

  lemma TableSize(rs: Rs, f: Field)
    requires HasTables(rs, f)
    ensures rs.mm >= 1 && rs.nn == Pow2(rs.mm) - 1 && rs.nn >= 1
  {
    FieldSize(f);
  }

  lemma InitialRegisters(rs: Rs, f: Field, lambda: seq<nat>, w: seq<nat>, deg: nat)
    requires HasTables(rs, f) && Logs(rs, lambda, w) && AllIn(f, w) && deg < |w| && w[0] == 1
    ensures Registers(rs, lambda, w, deg, 0) && Found(f, w, deg, [], 1)
  {
    TableSize(rs, f);
    forall j | 1 <= j <= deg ensures lambda[j] == Register(rs, w[j], j, 0) {
      TableRoundTrip(rs, f, w[j]);
      if w[j] != 0 { ModOfSmall(rs.indexOf[w[j]], rs.nn); }
    }
  }

  lemma RootIffZero(f: Field, w: seq<nat>, deg: nat, i: nat, q: nat)
    requires deg < |w| && w[0] == 1 && q == LowEval(f, w[..deg + 1], Alpha(f, i))
    ensures IsRoot(f, w, deg, i) <==> q == 0
    ensures q == 0 ==> deg > 0
  {
    hide Alpha;
    ConstantTerm(f, w, Alpha(f, i));
  }

  /** Position loc and root r belong together: prim (loc + 1) is r modulo nn. */
  ghost predicate PointsTo(rs: Rs, r: nat, loc: nat) {
    rs.nn >= 1 && loc < rs.nn && rs.prim * (loc + 1) % rs.nn == r % rs.nn
  }

  /** The running position k of step i: k + 1 is iprim times i modulo nn. */
  ghost predicate Pointer(rs: Rs, i: nat, k: nat) {
    rs.nn >= 1 && k < rs.nn && (k + 1) % rs.nn == rs.iprim * i % rs.nn
  }

  lemma PointerStart(rs: Rs)
    requires 1 <= rs.iprim <= rs.nn
    ensures Pointer(rs, 1, rs.iprim - 1)
  {}

  lemma PointerStep(rs: Rs, i: nat, k: nat)
    requires Pointer(rs, i, k)
    ensures Pointer(rs, i + 1, (k + rs.iprim) % rs.nn)
  {
    assert rs.iprim * (i + 1) == rs.iprim * i + rs.iprim;
    AddBoth(rs.nn, rs.iprim * i, rs.iprim, k);
  }

  lemma AddBoth(n: nat, x: nat, p: nat, k: nat)
    requires n >= 1 && (k + 1) % n == x % n
    ensures (k + p) % n < n && ((k + p) % n + 1) % n == (x + p) % n
  {
    ModAdd(1, k + p, n);
    ModAdd(p, k + 1, n);
    ModAdd(p, x, n);
  }

  lemma PointerPoints(rs: Rs, i: nat, k: nat)
    requires Pointer(rs, i, k) && rs.prim * rs.iprim % rs.nn == 1 % rs.nn
    ensures PointsTo(rs, i, k)
  {
    var x, y := rs.iprim * i, rs.prim * rs.iprim;
    assert rs.prim * x == i * y;
    ScaleBoth(rs.nn, rs.prim, k + 1, x, i, y);
  }

  lemma ScaleBoth(n: nat, p: nat, j: nat, x: nat, i: nat, y: nat)
    requires n >= 1 && j % n == x % n && p * x == i * y && y % n == 1 % n
    ensures p * j % n == i % n
  {
    ModMul(p, j, n);
    ModMul(p, x, n);
    ModMul(i, y, n);
    ModMul(i, 1, n);
  }

  /** Roots of w at alpha^r are roots of the word read from the other end at alpha^(nn - r). */
  lemma RootOfWord(f: Field, w: seq<nat>, deg: nat, r: nat)
    requires AllIn(f, w) && deg < |w| && r <= NN(f)
    ensures IsRoot(f, w, deg, r) <==> Eval(f, w[..deg + 1], Alpha(f, NN(f) - r)) == 0
    ensures Mul(f, Alpha(f, r), Alpha(f, NN(f) - r)) == 1
  {
    hide Mul, Alpha, Eval, LowEval, NN;
    var p, x, y := w[..deg + 1], Alpha(f, r), Alpha(f, NN(f) - r);
    MulAlphas(f, r, NN(f) - r);
    AlphaTurn(f, 0);
    AlphaZero(f);
    ReverseEval(f, p, x, y);
    AlphaIn(f, NN(f) - r);
    AlphaNonzero(f, NN(f) - r);
    PowIn(f, y, deg);
    PowNonzero(f, y, deg);
    LowEvalIn(f, p, x);
    MulZero(f, Pow(f, y, deg));
    if Mul(f, Pow(f, y, deg), LowEval(f, p, x)) == 0 { MulNonzero(f, Pow(f, y, deg), LowEval(f, p, x)); }
  }

  /** The elements that a list of roots stands for, read from the other end. */
  ghost function Mirrored(f: Field, root: seq<nat>): (xs: seq<nat>)
    ensures |xs| == |root|
  {
    seq(|root|, k requires 0 <= k < |root| => if root[k] <= NN(f) then Alpha(f, NN(f) - root[k]) else 0)
  }

  /** A list of as many roots as the degree is complete. */
  lemma NoMoreRoots(rs: Rs, f: Field, w: seq<nat>, deg: nat, root: seq<nat>, i: nat)
    requires HasTables(rs, f) && AllIn(f, w) && deg < |w| && w[0] == 1 && |root| == deg
    requires Found(f, w, deg, root, i) && i <= rs.nn + 1
    ensures forall r :: 1 <= r <= rs.nn && IsRoot(f, w, deg, r) ==> r in root
    ensures forall k :: 0 <= k < |root| ==> 1 <= root[k] <= rs.nn && IsRoot(f, w, deg, root[k])
    ensures forall k, l :: 0 <= k < l < |root| ==> root[k] < root[l]
  {
    hide IsRoot, Alpha, Eval;
    assert w[..deg + 1][0] == 1;
    forall r | 1 <= r <= rs.nn && IsRoot(f, w, deg, r) ensures r in root {
      if r !in root {
        var all := root + [r];
        var xs := Mirrored(f, all);
        forall k | 0 <= k < |all| ensures In(f, xs[k]) && Eval(f, w[..deg + 1], xs[k]) == 0 {
          RootOfWord(f, w, deg, all[k]);
          AlphaIn(f, NN(f) - all[k]);
        }
        MirroredDistinct(f, all);
        TooManyRoots(f, w[..deg + 1], xs);
      }
    }
  }

  lemma MirroredDistinct(f: Field, root: seq<nat>)
    requires forall k :: 0 <= k < |root| ==> 1 <= root[k] <= NN(f)
    requires forall k, l :: 0 <= k < l < |root| ==> root[k] != root[l]
    ensures Distinct(Mirrored(f, root))
  {
    hide Alpha;
    var xs := Mirrored(f, root);
    forall k, l | 0 <= k < l < |xs| ensures xs[k] != xs[l] {
      var i, j := NN(f) - root[k], NN(f) - root[l];
      if i < j { AlphaDistinct(f, i, j); } else { AlphaDistinct(f, j, i); }
    }
  }

  // ---------------------------------------------------------------- error values

  /** Coefficient i of the error evaluator. */
  method EvaluatorTerm(rs: Rs, s: seq<nat>, lambda: seq<nat>, i: nat, ghost terms: seq<nat>, ghost w: seq<nat>, ghost f: Field)
    returns (tmp: nat)
    requires HasTables(rs, f) && Logs(rs, s, terms) && Logs(rs, lambda, w) && AllIn(f, terms) && AllIn(f, w)
    requires i < |s| && i < |w|
    ensures tmp == Conv(f, w, terms, i) && In(f, tmp)
  {
    hide Mul, Xor, HasTables, Conv, NN, High, Low;
    ghost var total := Conv(f, w[..i + 1], terms, i);
    ConvUpTo(f, w, terms, i);
    ConvIn(f, w, terms, i);
    tmp := 0;
    XorZero(total);
    var j: int := i;
    while j >= 0
      invariant -1 <= j <= i && Xor(tmp, Conv(f, w[..j + 1], terms, i)) == total
    {
      ConvStep(f, w, terms, i, j);
      LogProduct(rs, f, w[j], terms[i - j]);
      MulCommutes(f, w[j], terms[i - j]);
      MoveTerm(tmp, Conv(f, w[..j], terms, i), Mul(f, w[j], terms[i - j]), total);
      XorZero(tmp);
      assert lambda[j] == rs.indexOf[w[j]] && s[i - j] == rs.indexOf[terms[i - j]];
      if s[i - j] != rs.nn && lambda[j] != rs.nn {
        var m := ModNN(rs.mm, rs.nn, s[i - j] + lambda[j]);
        tmp := Xor(tmp, rs.alphaTo[m]);
      }
      j := j - 1;
    }
    ConvNone(f, w[..0], terms, i);
    XorZero(tmp);
  }

  /** The error evaluator, on logarithms. */
  method BuildEvaluator(rs: Rs, s: seq<nat>, lambda: seq<nat>, deg: nat, ghost terms: seq<nat>, ghost w: seq<nat>, ghost f: Field)
    returns (omega: seq<nat>)
    requires HasTables(rs, f) && Logs(rs, s, terms) && Logs(rs, lambda, w) && AllIn(f, terms) && AllIn(f, w)
    requires deg <= |s| && deg <= |w|
    ensures Logs(rs, omega, Evaluator(f, w, terms, deg))
  {
    hide HasTables, Conv;
    omega := [];
    for i := 0 to deg
      invariant Logs(rs, omega, Evaluator(f, w, terms, i))
    {
      var tmp := EvaluatorTerm(rs, s, lambda, i, terms, w, f);
      Inside(rs, f, tmp);
      omega := omega + [rs.indexOf[tmp]];
    }
  }

  /** The evaluator at alpha^root. */
  method Numerator(rs: Rs, omega: seq<nat>, root: nat, ghost o: seq<nat>, ghost f: Field) returns (num: nat)
    requires HasTables(rs, f) && Logs(rs, omega, o) && AllIn(f, o)
    ensures num == LowEval(f, o, Alpha(f, root)) && In(f, num)
  {
    hide Mul, Xor, HasTables, LowEval, NN, High, Low, Alpha, Pow;
    ghost var x := Alpha(f, root);
    ghost var total := LowEval(f, o, x);
    LowEvalIn(f, o, x);
    num := 0;
    XorZero(total);
    assert o[..|o|] == o;
    var i: int := |omega| - 1;
    while i >= 0
      invariant -1 <= i < |omega| && Xor(num, LowEval(f, o[..i + 1], x)) == total
    {
      LowEvalStep(f, o, x, i);
      LogPower(rs, f, o[i], root, i);
      MoveTerm(num, LowEval(f, o[..i], x), Mul(f, o[i], Pow(f, x, i)), total);
      XorZero(num);
      assert omega[i] == rs.indexOf[o[i]];
      if omega[i] != rs.nn {
        var m := ModNN(rs.mm, rs.nn, omega[i] + i * root);
        num := Xor(num, rs.alphaTo[m]);
      }
      i := i - 1;
    }
    LowEvalNone(f, x);
    assert o[..0] == [];
    XorZero(num);
  }

  lemma {:induction false} DerivativeAt(w: seq<nat>, i: nat)
    requires w != [] && i < |w| - 1
    ensures Derivative(w)[i] == if i % 2 == 0 then w[i + 1] else 0
  {
    if i < |w| - 2 { DerivativeAt(Front(w), i); }
  }

  lemma SkipZero(f: Field, d: seq<nat>, x: nat, k: nat)
    requires k < |d| && d[k] == 0
    ensures LowEval(f, d[..k + 1], x) == LowEval(f, d[..k], x)
  {
    hide Mul, Xor;
    LowEvalStep(f, d, x, k);
    MulZero(f, Pow(f, x, k));
    XorZero(LowEval(f, d[..k], x));
  }

  /** How far up the derivative the denominator loop still has to add, when it stands at the even index i. */
  function Reach(i: int, deg: nat): nat { if i < 0 then 0 else if i + 1 <= deg then i + 1 else deg }

  /** The formal derivative of the locator at alpha^root; the loop visits the even indices only. */
  method Denominator(rs: Rs, lambda: seq<nat>, deg: nat, root: nat, ghost w: seq<nat>, ghost f: Field) returns (den: nat)
    requires HasTables(rs, f) && Logs(rs, lambda, w) && AllIn(f, w) && deg < |w| && |w| >= 2
    requires forall i :: deg < i < |w| ==> w[i] == 0
    ensures den == LowEval(f, Derivative(w[..deg + 1]), Alpha(f, root)) && In(f, den)
  {
    hide *;
    LogsLength(rs, lambda, w);
    ghost var x, d := Alpha(f, root), Derivative(w[..deg + 1]);
    ghost var total := LowEval(f, d, x);
    LowEvalIn(f, d, x);
    den := 0;
    XorZero(total);
    var top := if deg < |lambda| - 2 then deg else |lambda| - 2;
    var i: int := top - top % 2;
    TopOfDerivative(f, w, deg, x, i);
    while i >= 0
      invariant i == -2 || (0 <= i < |lambda| - 1 && i % 2 == 0)
      invariant Reach(i, deg) <= |d| && Xor(den, LowEval(f, d[..Reach(i, deg)], x)) == total
      decreases i + 2
    {
      DerivativeTerm(f, w, deg, x, i);
      LogsAt(rs, f, lambda, w, i + 1);
      LogPower(rs, f, w[i + 1], root, i);
      MoveTerm(den, LowEval(f, d[..Reach(i - 2, deg)], x), Mul(f, w[i + 1], Pow(f, x, i)), total);
      XorZero(den);
      if lambda[i + 1] != rs.nn {
        var m := ModNN(rs.mm, rs.nn, lambda[i + 1] + i * root);
        den := Xor(den, rs.alphaTo[m]);
      }
      i := i - 2;
    }
    NothingBelow(f, d, x, deg);
    XorZero(den);
  }

  lemma NothingBelow(f: Field, d: seq<nat>, x: nat, deg: nat)
    ensures Reach(-2, deg) == 0 && LowEval(f, d[..0], x) == 0
  {}

  lemma LogsLength(rs: Rs, idx: seq<nat>, w: seq<nat>)
    requires Logs(rs, idx, w)
    ensures |idx| == |w|
  {}

  lemma LogsAt(rs: Rs, f: Field, idx: seq<nat>, w: seq<nat>, i: nat)
    requires Logs(rs, idx, w) && AllIn(f, w) && i < |w|
    ensures w[i] < |rs.indexOf| && |idx| == |w| && idx[i] == rs.indexOf[w[i]] && In(f, w[i])
  {}

  lemma TopOfDerivative(f: Field, w: seq<nat>, deg: nat, x: nat, i: nat)
    requires deg < |w| && |w| >= 2
    requires i == (if deg < |w| - 2 then deg - deg % 2 else |w| - 2 - (|w| - 2) % 2)
    ensures var d := Derivative(w[..deg + 1]);
            Reach(i, deg) <= |d| && LowEval(f, d[..Reach(i, deg)], x) == LowEval(f, d, x)
  {
    hide LowEval;
    var d := Derivative(w[..deg + 1]);
    assert d[..deg] == d;
    if Reach(i, deg) < deg {
      DerivativeAt(w[..deg + 1], deg - 1);
      SkipZero(f, d, x, deg - 1);
    }
  }

  lemma DerivativeTerm(f: Field, w: seq<nat>, deg: nat, x: nat, i: nat)
    requires deg < |w| && i % 2 == 0 && i + 1 < |w| && forall k :: deg < k < |w| ==> w[k] == 0
    ensures var d := Derivative(w[..deg + 1]);
            Reach(i, deg) <= |d| && Reach(i - 2, deg) <= |d| && LowEval(f, d[..Reach(i, deg)], x)
            == Xor(LowEval(f, d[..Reach(i - 2, deg)], x), Mul(f, w[i + 1], Pow(f, x, i)))
  {
    hide LowEval, Mul, Xor, Pow;
    var d := Derivative(w[..deg + 1]);
    if i < deg {
      DerivativeAt(w[..deg + 1], i);
      LowEvalStep(f, d, x, i);
    } else {
      MulZero(f, Pow(f, x, i));
      XorZero(LowEval(f, d[..Reach(i - 2, deg)], x));
    }
    if 2 <= i <= deg {
      DerivativeAt(w[..deg + 1], i - 1);
      SkipZero(f, d, x, i - 1);
    }
  }
}
