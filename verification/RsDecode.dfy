/** The Reed-Solomon decoder (no erasures). */
module RsDecode {
  import opened Arithmetic
  import opened BerlekampMassey
  import opened Bits
  import opened ChienForney
  import opened ErrorLocation
  import opened ExclusiveOr
  import opened GaloisField
  import opened Locators
  import opened PowerSums
  import opened RsEncode
  import opened RsErrors
  import opened RsInit
  import opened RsOutcome
  import opened Sequences
  import opened Words

  // ---------------------------------------------------------------- syndromes

  /** One step of Horner's scheme for one root. */
  method HornerStep(rs: Rs, s: nat, d: nat, i: nat, ghost v: seq<nat>, ghost f: Field) returns (t: nat)
    requires HasTables(rs, f) && AllIn(f, v) && s == Eval(f, v, Root(rs, f, i))
    ensures t == Eval(f, v + [d], Root(rs, f, i))
  {
    hide *;
    ghost var x := Root(rs, f, i);
    EvalAppend(f, v, d, x);
    EvalIn(f, v, x);
    Inside(rs, f, s);
    TableSize(rs, f);
    RootPower(rs, f, s, i);
    if s == 0 {
      XorZero(d);
      t := d;
    } else {
      var m := ModNN(rs.mm, rs.nn, rs.indexOf[s] + (rs.fcr + i) * rs.prim);
      t := Xor(d, rs.alphaTo[m]);
      XorCommutes(d, rs.alphaTo[m]);
    }
  }

  lemma RootPower(rs: Rs, f: Field, s: nat, i: nat)
    requires HasTables(rs, f) && In(f, s)
    ensures rs.nn >= 1 && s < |rs.indexOf| && |rs.alphaTo| == rs.nn + 1
    ensures if s == 0 then Mul(f, s, Root(rs, f, i)) == 0
            else rs.alphaTo[(rs.indexOf[s] + (rs.fcr + i) * rs.prim) % rs.nn] == Mul(f, s, Root(rs, f, i))
  {
    hide Mul, Alpha;
    FieldSize(f);
    MulZero(f, Root(rs, f, i));
    if s != 0 { TableProduct(rs, f, s, RootIndex(rs.fcr, rs.prim, i)); }
  }

  /** The syndromes on logarithms, and whether one of them is nonzero. */
  method FormSyndromes(rs: Rs, data: array<nat>, ghost f: Field) returns (s: seq<nat>, synError: bool)
    requires HasTables(rs, f) && data.Length >= 1 && AllIn(f, data[..])
    ensures Logs(rs, s, Syndromes(rs, f, data[..])) && AllIn(f, Syndromes(rs, f, data[..]))
    ensures synError <==> exists i :: 0 <= i < rs.nroots && Syndromes(rs, f, data[..])[i] != 0
  {
    hide HasTables, Eval, Root, NN;
    ghost var w := data[..];
    var a := new nat[rs.nroots];
    for i := 0 to rs.nroots
      invariant forall k :: 0 <= k < i ==> a[k] == Eval(f, w[..1], Root(rs, f, k))
    {
      a[i] := data[0];
      EvalSingle(f, w[0], Root(rs, f, i));
      assert w[..1] == [w[0]];
    }
    for j := 1 to data.Length
      invariant data[..] == w
      invariant forall k :: 0 <= k < rs.nroots ==> a[k] == Eval(f, w[..j], Root(rs, f, k))
    {
      assert w[..j + 1] == w[..j] + [w[j]];
      for i := 0 to rs.nroots
        invariant data[..] == w
        invariant forall k :: 0 <= k < i ==> a[k] == Eval(f, w[..j + 1], Root(rs, f, k))
        invariant forall k :: i <= k < rs.nroots ==> a[k] == Eval(f, w[..j], Root(rs, f, k))
      {
        a[i] := HornerStep(rs, a[i], data[j], i, w[..j], f);
      }
    }
    assert w[..data.Length] == w;
    ghost var terms := Syndromes(rs, f, w);
    assert forall k :: 0 <= k < rs.nroots ==> a[k] == terms[k];
    s, synError := [], false;
    for i := 0 to rs.nroots
      invariant |s| == i && forall k :: 0 <= k < rs.nroots ==> a[k] == terms[k]
      invariant forall k :: 0 <= k < i ==> In(f, terms[k]) && terms[k] < |rs.indexOf| && s[k] == rs.indexOf[terms[k]]
      invariant synError <==> exists k :: 0 <= k < i && terms[k] != 0
    {
      synError := synError || a[i] != 0;
      EvalIn(f, w, Root(rs, f, i));
      Inside(rs, f, terms[i]);
      s := s + [rs.indexOf[a[i]]];
    }
  }

  // ---------------------------------------------------------------- the decoder

  lemma DegreeAbove(w: seq<nat>, deg: nat)
    requires HasDegree(w, deg)
    ensures deg < |w| && forall i :: deg < i < |w| ==> w[i] == 0
  {}

  lemma FactorFromTable(rs: Rs, f: Field, q: nat, m: nat)
    requires HasTables(rs, f) && rs.nn >= 1 && m == q % rs.nn
    ensures m < |rs.alphaTo| && rs.alphaTo[m] == Alpha(f, q) && 0 < rs.alphaTo[m] < |rs.indexOf| && In(f, rs.alphaTo[m])
  {
    hide Alpha;
    AlphaMod(f, q);
    AlphaIn(f, q);
    AlphaNonzero(f, q);
  }

  /** The index arithmetic of the correction is what FixFor prescribes. */
  lemma FixByTables(rs: Rs, f: Field, w: seq<nat>, s: seq<nat>, n: nat, r: nat, num1: nat, num2: nat, den: nat)
    requires HasTables(rs, f) && n < |w| && r <= rs.nn && rs.nn >= 1
    requires FactorIndex(rs, r) >= 0 && num2 == Alpha(f, FactorIndex(rs, r)) && 0 < num2 < |rs.indexOf|
    requires num1 == LowEval(f, Evaluator(f, w, s, n), Alpha(f, r)) && In(f, num1)
    requires den == LowEval(f, Derivative(w[..n + 1]), Alpha(f, r)) && In(f, den)
    ensures num1 < |rs.indexOf| && den < |rs.indexOf| && |rs.alphaTo| == rs.nn + 1 && rs.indexOf[den] <= rs.nn
    ensures FixFor(rs, f, w, s, n, r)
            == if num1 == 0 then 0
               else rs.alphaTo[(rs.indexOf[num1] + rs.indexOf[num2] + rs.nn - rs.indexOf[den]) % rs.nn]
    ensures In(f, FixFor(rs, f, w, s, n, r))
  {
    hide *;
    Inside(rs, f, num1);
    Inside(rs, f, den);
    IndexBound(rs, f, den);
    if num1 == 0 {
      FixOfZero(rs, f, w, s, n, r);
      ZeroIn(f);
    } else {
      FixUnfolds(rs, f, w, s, n, r);
      RatioUnfolds(rs, f, num1, num2, den);
      RatioIn(rs, f, num1, num2, den);
    }
  }

  lemma IndexBound(rs: Rs, f: Field, a: nat)
    requires HasTables(rs, f) && In(f, a)
    ensures a < |rs.indexOf| && rs.indexOf[a] <= rs.nn && |rs.alphaTo| == rs.nn + 1
  {
    TableRoundTrip(rs, f, a);
  }

  lemma RatioUnfolds(rs: Rs, f: Field, num: nat, fac: nat, den: nat)
    requires num < |rs.indexOf| && fac < |rs.indexOf| && den < |rs.indexOf| && rs.nn >= 1 && |rs.alphaTo| > rs.nn
    requires rs.indexOf[den] <= rs.nn
    ensures Ratio(rs, f, num, fac, den) == rs.alphaTo[(rs.indexOf[num] + rs.indexOf[fac] + rs.nn - rs.indexOf[den]) % rs.nn]
  {}

  lemma FixOfZero(rs: Rs, f: Field, w: seq<nat>, s: seq<nat>, n: nat, r: nat)
    requires n < |w| && LowEval(f, Evaluator(f, w, s, n), Alpha(f, r)) == 0
    ensures FixFor(rs, f, w, s, n, r) == 0
  {}

  lemma SymbolStays(f: Field, w: seq<nat>, p: nat, v: nat)
    requires AllIn(f, w) && p < |w| && In(f, v)
    ensures AllIn(f, w[p := Xor(w[p], v)])
  {
    hide Xor;
    XorIn(f, w[p], v);
  }

  /** One entry of the table of corrections, applied to the data in place. */
  method CorrectSymbol(rs: Rs, data: array<nat>, omega: seq<nat>, lambda: seq<nat>, deg: nat, root: nat, loc: nat,
                       ghost w: seq<nat>, ghost terms: seq<nat>, ghost f: Field)
    requires HasTables(rs, f) && Logs(rs, lambda, w) && AllIn(f, w) && deg < |w| && |w| >= 2 && deg <= |terms|
    requires AllIn(f, terms) && Logs(rs, omega, Evaluator(f, w, terms, deg)) && HasDegree(w, deg)
    requires data.Length == rs.nn - rs.pad && root <= rs.nn && loc < rs.nn && AllIn(f, data[..])
    modifies data
    ensures AllIn(f, data[..])
    ensures forall p :: 0 <= p < data.Length && p != loc - rs.pad ==> data[p] == old(data[p])
    ensures var p := loc - rs.pad; 0 <= p ==> data[p] == Xor(old(data[p]), FixFor(rs, f, w, terms, deg, root))
  {
    hide *;
    EvaluatorIn(f, w, terms, deg);
    DegreeAbove(w, deg);
    var num1 := Numerator(rs, omega, root, Evaluator(f, w, terms, deg), f);
    TableSize(rs, f);
    FactorIndexIsNat(rs, root);
    var m := ModNN(rs.mm, rs.nn, FactorIndex(rs, root));
    FactorFromTable(rs, f, FactorIndex(rs, root), m);
    var num2 := rs.alphaTo[m];
    var den := Denominator(rs, lambda, deg, root, w, f);
    FixByTables(rs, f, w, terms, deg, root, num1, num2, den);
    if num1 != 0 && loc >= rs.pad {
      var i := ModNN(rs.mm, rs.nn, rs.indexOf[num1] + rs.indexOf[num2] + rs.nn - rs.indexOf[den]);
      SymbolStays(f, data[..], loc - rs.pad, rs.alphaTo[i]);
      data[loc - rs.pad] := Xor(data[loc - rs.pad], rs.alphaTo[i]);
      assert data[..] == old(data[..])[loc - rs.pad := Xor(old(data[loc - rs.pad]), rs.alphaTo[i])];
    } else if loc >= rs.pad {
      XorZero(data[loc - rs.pad]);
    }
  }

  /** The corrections of all located positions, last one first. */
  method CorrectErrors(rs: Rs, data: array<nat>, omega: seq<nat>, lambda: seq<nat>, deg: nat, root: seq<nat>, loc: seq<nat>,
                       ghost w: seq<nat>, ghost terms: seq<nat>, ghost f: Field)
    requires HasTables(rs, f) && Logs(rs, lambda, w) && AllIn(f, w) && deg < |w| && |w| >= 2 && deg <= |terms|
    requires AllIn(f, terms) && Logs(rs, omega, Evaluator(f, w, terms, deg)) && HasDegree(w, deg)
    requires data.Length == rs.nn - rs.pad && AllIn(f, data[..]) && Searched(rs, f, w, deg, root, loc)
    modifies data
    ensures AllIn(f, data[..]) && Fixed(rs, f, old(data[..]), data[..], root, loc, 0, w, terms, deg)
  {
    hide *;
    ghost var before := data[..];
    SearchedAt(rs, f, w, deg, root, loc);
    FixedStart(rs, f, before, root, loc, w, terms, deg);
    var j: int := |root| - 1;
    while j >= 0
      invariant -1 <= j < |root| && AllIn(f, data[..])
      invariant Fixed(rs, f, before, data[..], root, loc, j + 1, w, terms, deg)
    {
      ghost var mid := data[..];
      CorrectSymbol(rs, data, omega, lambda, deg, root[j], loc[j], w, terms, f);
      ghost var after := data[..];
      assert forall p :: 0 <= p < |before| && p != loc[j] - rs.pad ==> after[p] == mid[p];
      FixedStep(rs, f, before, mid, after, root, loc, j, w, terms, deg);
      j := j - 1;
    }
  }

  lemma SearchedAt(rs: Rs, f: Field, w: seq<nat>, deg: nat, root: seq<nat>, loc: seq<nat>)
    requires Searched(rs, f, w, deg, root, loc)
    ensures |root| == |loc| <= deg
    ensures forall k :: 0 <= k < |root| ==> root[k] <= rs.nn && loc[k] < rs.nn
    ensures forall k, l :: 0 <= k < l < |loc| ==> loc[k] != loc[l]
  {
    hide IsRoot;
    forall k | 0 <= k < |root| ensures root[k] <= rs.nn && loc[k] < rs.nn { assert PointsTo(rs, root[k], loc[k]); }
  }

  lemma FixedStart(rs: Rs, f: Field, w: seq<nat>, root: seq<nat>, loc: seq<nat>, lambda: seq<nat>, s: seq<nat>, n: nat)
    requires |root| == |loc|
    ensures Fixed(rs, f, w, w, root, loc, |root|, lambda, s, n)
  {}

  lemma SearchComplete(rs: Rs, f: Field, w: seq<nat>, deg: nat, root: seq<nat>, loc: seq<nat>)
    requires deg < |w| && |root| == |loc| <= deg
    requires forall k :: 0 <= k < |root| ==> 1 <= root[k] <= rs.nn && IsRoot(f, w, deg, root[k])
    requires forall k, l :: 0 <= k < l < |root| ==> root[k] < root[l]
    requires forall r :: 1 <= r <= rs.nn && IsRoot(f, w, deg, r) ==> r in root
    requires forall k :: 0 <= k < |loc| ==> PointsTo(rs, root[k], loc[k])
    ensures Searched(rs, f, w, deg, root, loc)
  {
    hide IsRoot, PointsTo;
    forall k, l | 0 <= k < l < |loc| ensures loc[k] != loc[l] {
      assert PointsTo(rs, root[k], loc[k]) && PointsTo(rs, root[l], loc[l]);
      DifferentPositions(rs, root[k], root[l], loc[k], loc[l]);
    }
  }

  lemma ValidParts(rs: Rs, f: Field)
    requires Valid(rs, f)
    ensures HasTables(rs, f) && 1 <= rs.iprim <= rs.nn && rs.prim * rs.iprim % rs.nn == 1 % rs.nn && rs.nn - rs.pad >= 1
  {}

  /** The steps of the decoder: syndromes, shortest recurrence, search, correction. */
  method Decode(rs: Rs, data: array<nat>, ghost f: Field) returns (count: int, erasPos: seq<nat>)
    requires Valid(rs, f) && data.Length == rs.nn - rs.pad && AllIn(f, data[..])
    modifies data
    ensures Outcome(rs, f, old(data[..]), data[..], count, erasPos) && AllIn(f, data[..])
  {
    hide *;
    ghost var w := data[..];
    ValidParts(rs, f);
    var s, synError := FormSyndromes(rs, data, f);
    ghost var terms := Syndromes(rs, f, w);
    LogsLength(rs, s, terms);
    if !synError {
      OutcomeOfNoErrors(rs, f, w);
      return 0, [];
    }
    var lambda, el := Iterate(rs, s, terms, f);
    ghost var poly := lambda[..];
    var deg := ToLogs(rs, lambda, f);
    MonicLocator(f, poly, el, terms, deg);
    var root, loc := ChienSearch(rs, lambda, deg, poly, f);
    SearchComplete(rs, f, poly, deg, root, loc);
    SearchFrom(rs, f, w, poly, el, deg, root, loc);
    if deg != |root| {
      GivenUp(rs, f, w, poly, deg, root, loc);
      return -1, [];
    }
    var omega := BuildEvaluator(rs, s, lambda[..], deg, terms, poly, f);
    assert data[..] == w;
    CorrectErrors(rs, data, omega, lambda[..], deg, root, loc, poly, terms, f);
    CorrectionDone(rs, f, w, data[..], poly, deg, root, loc);
    count, erasPos := |root|, loc;
  }

  /** decode_rs without erasures, with the positions that it reports to a caller who asks for them. The outcome is that of
      Outcome. A block that is a codeword with at most nroots / 2 wrong symbols becomes that codeword, and the number of
      wrong symbols is returned; a block given up with -1 stays as it was; otherwise at most as many symbols change as
      are returned. The result is a codeword exactly if as many positions are found as the shortest recurrence for the
      syndromes is long and none of them lies in the padding, and it is then a nearest one. */
  method DecodeRs(rs: Rs, data: array<nat>, ghost f: Field) returns (count: int, erasPos: seq<nat>)
    requires Valid(rs, f) && data.Length == rs.nn - rs.pad && AllIn(f, data[..])
    modifies data
    ensures Outcome(rs, f, old(data[..]), data[..], count, erasPos)
    ensures forall c :: Correctable(rs, f, old(data[..]), c) ==> data[..] == c && count == Differences(old(data[..]), c)
    ensures count <= 0 ==> data[..] == old(data[..])
    ensures -1 <= count <= rs.nroots && AllIn(f, data[..])
    ensures 0 <= count ==> Differences(old(data[..]), data[..]) <= count
    ensures 0 <= count ==>
              (IsCodeword(rs, f, data[..]) <==> count == LinearComplexity(f, Syndromes(rs, f, old(data[..])))
                                                && forall k :: 0 <= k < |erasPos| ==> erasPos[k] >= rs.pad)
    ensures (0 <= count && 2 * count <= rs.nroots && IsCodeword(rs, f, data[..]))
            <==> exists c :: Correctable(rs, f, old(data[..]), c)
    ensures 0 <= count && IsCodeword(rs, f, data[..]) ==>
              forall c :: IsCodeword(rs, f, c) && |c| == data.Length ==>
                Differences(old(data[..]), data[..]) <= Differences(old(data[..]), c)
  {
    hide *;
    ghost var w := data[..];
    count, erasPos := Decode(rs, data, f);
    ghost var after := data[..];
    OutcomeLength(rs, f, w, after, count, erasPos);
    SmallCountIffReachable(rs, f, w, after, count, erasPos);
    forall c | Correctable(rs, f, w, c) ensures after == c && count == Differences(w, c) {
      OutcomeCorrects(rs, f, w, after, count, erasPos, c);
    }
    if count >= 0 {
      CodewordIffComplexity(rs, f, w, after, count, erasPos);
      if count == 0 { NoDifferences(w, after); }
      forall c | IsCodeword(rs, f, after) && IsCodeword(rs, f, c) && |c| == data.Length
        ensures Differences(w, after) <= Differences(w, c)
      {
        CodewordIsNearest(rs, f, w, after, count, erasPos, c);
      }
    }
  }
}
