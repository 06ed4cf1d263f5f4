/** Parameters of Reed-Solomon codes: those of the CCSDS code meet everything that the codec needs, and others pass the
    tests of init_rs without doing so. */
module RsParameters {
  import opened Arithmetic
  import opened Bits
  import opened Divisibility
  import opened ExclusiveOr
  import opened GaloisField
  import opened Options
  import opened Periods
  import opened PrimitivePolynomials
  import opened RsDecode
  import opened RsEncode
  import opened RsErrors
  import opened RsInit
  import opened RsOutcome
  import opened Words

  const SYMSIZE := 8
  const GFPOLY := 0x187
  const FCR := 112
  const PRIM := 11
  const IPRIM := 116
  const NROOTS := 32

  function Ccsds(): FieldParams { FieldParams(SYMSIZE, GFPOLY) }

  /** x is primitive in the field of the CCSDS code. */
  lemma CcsdsIsPrimitive()
    ensures Primitive(Ccsds())
  {
    hide Alpha, Pow2, IsTop, Primitive;
    var f := Ccsds();
    Powers();
    Tops();
    assert Alpha(f, 255) == 1 by {
      Climb(f, 0x80, 0x187, 255, 1, 1, 1, 1, 1, 2, 8, 128, 244, 205, 107, 26, 1);
    }
    assert Alpha(f, 85) == 170 by {
      Climb(f, 0x80, 0x187, 85, 1, 1, 1, 1, 1, 1, 2, 4, 32, 149, 95, 15, 170);
    }
    assert Alpha(f, 51) == 108 by {
      Climb(f, 0x80, 0x187, 51, 1, 1, 1, 1, 1, 1, 1, 2, 8, 64, 221, 226, 108);
    }
    assert Alpha(f, 15) == 244 by {
      Climb(f, 0x80, 0x187, 15, 1, 1, 1, 1, 1, 1, 1, 1, 1, 2, 8, 128, 244);
    }
    Degree8(f);
  }

  /** The control block of the (255,223) code, shortened by pad symbols, can be built; its iprim is the inverse of prim. */
  lemma CcsdsIsAccepted(pad: nat)
    requires pad < 223
    ensures InRange(SYMSIZE, FCR, PRIM, NROOTS, pad) && Primitive(Ccsds()) && Coprime(PRIM, NN(Ccsds()))
    ensures NN(Ccsds()) == 255 && PRIM * IPRIM % NN(Ccsds()) == 1
  {
    hide Primitive;
    CcsdsIsPrimitive();
    Powers();
    assert OneShort(11, 255, 5);
    ShortIffCoprime(11, 255);
  }

  /** With prim 3 in the same field everything that init_rs tests is as it should be, and the numbers that its search for
      iprim goes through are never divisible by 3. */
  lemma AcceptedButSearchIsEndless()
    ensures InRange(SYMSIZE, FCR, 3, NROOTS, 0) && Alpha(Ccsds(), NN(Ccsds())) == 1 && !Coprime(3, NN(Ccsds()))
    ensures forall t: nat :: !OneShort(3, NN(Ccsds()), t)
  {
    hide Alpha;
    CcsdsIsPrimitive();
    Powers();
    assert Common(3, 3, 255);
    SearchEndsIffCoprime(3, 255);
  }

  // ---------------------------------------------------------------- a wrong word that the decoder calls free of errors

  /** The field with four elements. */
  function Four(): FieldParams { FieldParams(2, 7) }

  lemma FourIsPrimitive()
    ensures NN(Four()) == 3 && Primitive(Four())
    ensures Alpha(Four(), 1) == 2 && Alpha(Four(), 2) == 3
  {
    hide Shift, ShiftBy, Xor;
    var f := Four();
    NextPower(0); NextPower(1);
    ShiftByCases(f, 1); ShiftByCases(f, 2); ShiftByCases(f, 3);
    XorSelf(1); XorSelf(3);
    XorOfParts(1, 1, 0, 1);
    XorOfParts(2, 3, 0, 1);
    XorOfParts(3, 3, 0, 1);
    AlphaZero(f);
    AlphaNext(f, 0); AlphaNext(f, 1); AlphaNext(f, 2);
  }

  /** With two parity symbols over four elements the word 0 1 3 has the syndromes 1 and 0. */
  lemma SyndromesOfMissed(rs: Rs, f: Field)
    requires f == Four() && rs.nroots == 2 && rs.fcr == 1 && rs.prim == 1
    ensures AllIn(f, [0, 1, 3]) && Syndromes(rs, f, [0, 1, 3]) == [1, 0]
  {
    hide Mul, Xor, Alpha, Eval, Primitive;
    FourIsPrimitive();
    forall x | x == 2 || x == 3 ensures Eval(f, [0, 1, 3], x) == Xor(x, 3) {
      assert [0] + [1] == [0, 1] && [0, 1] + [3] == [0, 1, 3];
      EvalAppend(f, [0, 1], 3, x);
      EvalAppend(f, [0], 1, x);
      EvalSingle(f, 0, x);
      MulZero(f, x);
      XorZero(1);
      MulOne(f, x);
    }
    XorSelf(1); XorSelf(3); XorZero(1);
    XorOfParts(1, 1, 0, 1);
    assert Root(rs, f, 0) == Alpha(f, 1) && Root(rs, f, 1) == Alpha(f, 2);
  }

  /** decode_rs on that word: no errors are reported, the word stays as it is, and it is not a codeword. */
  method MissedErrors() returns (rs: Rs, count: int, after: seq<nat>)
    ensures Primitive(Four()) && Valid(rs, Four()) && rs.nroots == 2
    ensures count == 0 && after == [0, 1, 3] && !IsCodeword(rs, Four(), after)
  {
    hide *;
    FourIsPrimitive();
    FourIsAccepted();
    ghost var f: Field := Four();
    var r := InitRs(2, 7, 1, 1, 2, 0);
    rs := r.value;
    var data := new nat[3][0, 1, 3];
    assert data[..] == [0, 1, 3];
    SyndromesOfMissed(rs, f);
    SizeOfFour(rs, f);
    MissedEndsEarly();
    var pos;
    count, pos := DecodeRs(rs, data, f);
    after := data[..];
    SilentFailure(rs, f, [0, 1, 3], after, count, pos, 1);
  }

  lemma FourIsAccepted()
    ensures InRange(2, 1, 1, 2, 0) && Four() == FieldParams(2, 7) && Pow2(2) - 1 == 3 && Coprime(1, 3)
    ensures Alpha(FieldParams(2, 7), Pow2(2) - 1) == 1
  {
    hide Alpha;
    FourIsPrimitive();
    NextPower(0); NextPower(1);
    assert OneShort(1, 3, 0);
    ShortIffCoprime(1, 3);
  }

  lemma SizeOfFour(rs: Rs, f: Field)
    requires f == Four() && Valid(rs, f) && rs.pad == 0
    ensures rs.nn - rs.pad == 3
  {
    FourIsPrimitive();
  }

  lemma MissedEndsEarly()
    ensures EndsEarly([1, 0], 1)
  {}
}
