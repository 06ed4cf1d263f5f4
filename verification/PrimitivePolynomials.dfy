/** Tests for primitive polynomials of degree 5 to 13. */
module PrimitivePolynomials {
  import opened Arithmetic
  import opened Bits
  import opened Divisibility
  import opened ExclusiveOr
  import opened GaloisField
  import opened Periods

  lemma Powers()
    ensures Pow2(5) == 32 && Pow2(6) == 64 && Pow2(7) == 128 && Pow2(8) == 256 && Pow2(9) == 512
    ensures Pow2(10) == 1024 && Pow2(11) == 2048 && Pow2(12) == 4096 && Pow2(13) == 8192 && Pow2(14) == 16384
  {
    NextPower(0); NextPower(1); NextPower(2); NextPower(3); NextPower(4); NextPower(5); NextPower(6);
    NextPower(7); NextPower(8); NextPower(9); NextPower(10); NextPower(11); NextPower(12); NextPower(13);
  }

  lemma Tops()
    ensures IsTop(16, 4) && IsTop(32, 5) && IsTop(64, 6) && IsTop(128, 7) && IsTop(256, 8)
    ensures IsTop(512, 9) && IsTop(1024, 10) && IsTop(2048, 11) && IsTop(4096, 12)
  {
    FirstTop();
    NextTop(1, 0); NextTop(2, 1); NextTop(4, 2); NextTop(8, 3); NextTop(16, 4); NextTop(32, 5);
    NextTop(64, 6); NextTop(128, 7); NextTop(256, 8); NextTop(512, 9); NextTop(1024, 10); NextTop(2048, 11);
  }

  lemma FirstTop()
    ensures IsTop(1, 0)
  {}

  lemma NextTop(top: bv16, k: nat)
    requires IsTop(top, k) && top < 0x8000
    ensures IsTop(top << 1, k + 1)
  {
    hide IsTop;
    TopUnfolds(top << 1, k + 1);
    assert (top << 1) >> 1 == top && (top << 1) & 1 == 0;
  }

  lemma TopUnfolds(top: bv16, k: nat)
    requires k > 0
    ensures IsTop(top, k) <==> !Odd(top) && IsTop(Half(top), k - 1)
  {}

  lemma ProductOfOne(p: nat)
    ensures Product([p]) == p
  {
    assert [p][1..] == [];
    assert Product([]) == 1;
  }

  lemma ProductOfMore(p: nat, ps: seq<nat>)
    ensures Product([p] + ps) == p * Product(ps)
  {
    assert ([p] + ps)[1..] == ps;
  }

  lemma FirstPowerIsTwo(f: FieldParams)
    requires f.mm >= 2
    ensures Alpha(f, 1) == 2
  {
    hide Shift;
    AlphaNext(f, 0);
    AlphaZero(f);
    assert 2 * 1 < Pow2(f.mm) by { PowersGrow(2, f.mm); NextPower(0); NextPower(1); }
    DoublingIsShift(f, 1);
  }

  // ---------------------------------------------------------------- the factors of 2^n - 1

  lemma SmallPrimes()
    ensures Prime(3) && Prime(5) && Prime(7) && Prime(11) && Prime(13) && Prime(17)
    ensures Prime(23) && Prime(31) && Prime(73) && Prime(89) && Prime(127)
  {
    PrimeByTrial(3, 1); PrimeByTrial(5, 2); PrimeByTrial(7, 2); PrimeByTrial(11, 3);
    PrimeByTrial(13, 3); PrimeByTrial(17, 4); PrimeByTrial(23, 4); PrimeByTrial(31, 5);
    PrimeByTrial(73, 8); PrimeByTrial(89, 9); PrimeByTrial(127, 11);
  }

  lemma LargePrime()
    ensures Prime(8191)
  {
    assert NoDivisors(8191, 9) && NoDivisors(8191, 18) && NoDivisors(8191, 27);
    assert NoDivisors(8191, 36) && NoDivisors(8191, 45) && NoDivisors(8191, 54);
    assert NoDivisors(8191, 63) && NoDivisors(8191, 72) && NoDivisors(8191, 81);
    PrimeByTrial(8191, 90);
  }

  function Factors(n: nat): seq<nat> {
    match n
    case 5 => [31]
    case 6 => [3, 3, 7]
    case 7 => [127]
    case 8 => [3, 5, 17]
    case 9 => [7, 73]
    case 10 => [3, 11, 31]
    case 11 => [23, 89]
    case 12 => [3, 3, 5, 7, 13]
    case 13 => [8191]
    case _ => []
  }

  lemma FactorsArePrime(n: nat)
    requires 5 <= n <= 13
    ensures Product(Factors(n)) == Pow2(n) - 1
    ensures forall i :: 0 <= i < |Factors(n)| ==> Prime(Factors(n)[i])
  {
    hide Prime, Product, Pow2;
    SmallPrimes();
    LargePrime();
    Powers();
    ProductOfOne(7); ProductOfOne(13); ProductOfOne(17); ProductOfOne(31); ProductOfOne(73); ProductOfOne(89);
    ProductOfOne(127); ProductOfOne(8191);
    ProductOfMore(3, [7]); ProductOfMore(3, [3, 7]);
    ProductOfMore(5, [17]); ProductOfMore(3, [5, 17]);
    ProductOfMore(7, [73]);
    ProductOfMore(11, [31]); ProductOfMore(3, [11, 31]);
    ProductOfMore(23, [89]);
    ProductOfMore(7, [13]); ProductOfMore(5, [7, 13]); ProductOfMore(3, [5, 7, 13]); ProductOfMore(3, [3, 5, 7, 13]);
    assert [3] + [7] == [3, 7] && [3] + [3, 7] == [3, 3, 7] && [5] + [17] == [5, 17] && [3] + [5, 17] == [3, 5, 17];
    assert [7] + [73] == [7, 73] && [11] + [31] == [11, 31] && [3] + [11, 31] == [3, 11, 31] && [23] + [89] == [23, 89];
    assert [7] + [13] == [7, 13] && [5] + [7, 13] == [5, 7, 13] && [3] + [5, 7, 13] == [3, 5, 7, 13];
    assert [3] + [3, 5, 7, 13] == [3, 3, 5, 7, 13];
  }

  lemma Degree5(f: FieldParams)
    requires f.mm == 5 && Alpha(f, 31) == 1
    ensures Primitive(f)
  {
    hide Alpha, Pow2, Product, Prime;
    Powers();
    FirstPowerIsTwo(f);
    FactorsArePrime(5);
    PrimitiveByFactors(f, Factors(5));
  }

  lemma Degree6(f: FieldParams)
    requires f.mm == 6 && Alpha(f, 63) == 1 && Alpha(f, 21) != 1 && Alpha(f, 9) != 1
    ensures Primitive(f)
  {
    hide Alpha, Pow2, Product, Prime;
    Powers();
    FactorsArePrime(6);
    PrimitiveByFactors(f, Factors(6));
  }

  lemma Degree7(f: FieldParams)
    requires f.mm == 7 && Alpha(f, 127) == 1
    ensures Primitive(f)
  {
    hide Alpha, Pow2, Product, Prime;
    Powers();
    FirstPowerIsTwo(f);
    FactorsArePrime(7);
    PrimitiveByFactors(f, Factors(7));
  }

  lemma Degree8(f: FieldParams)
    requires f.mm == 8 && Alpha(f, 255) == 1 && Alpha(f, 85) != 1 && Alpha(f, 51) != 1 && Alpha(f, 15) != 1
    ensures Primitive(f)
  {
    hide Alpha, Pow2, Product, Prime;
    Powers();
    FactorsArePrime(8);
    PrimitiveByFactors(f, Factors(8));
  }

  lemma Degree9(f: FieldParams)
    requires f.mm == 9 && Alpha(f, 511) == 1 && Alpha(f, 73) != 1 && Alpha(f, 7) != 1
    ensures Primitive(f)
  {
    hide Alpha, Pow2, Product, Prime;
    Powers();
    FactorsArePrime(9);
    PrimitiveByFactors(f, Factors(9));
  }

  lemma Degree10(f: FieldParams)
    requires f.mm == 10 && Alpha(f, 1023) == 1 && Alpha(f, 341) != 1 && Alpha(f, 93) != 1 && Alpha(f, 33) != 1
    ensures Primitive(f)
  {
    hide Alpha, Pow2, Product, Prime;
    Powers();
    FactorsArePrime(10);
    PrimitiveByFactors(f, Factors(10));
  }

  lemma Degree11(f: FieldParams)
    requires f.mm == 11 && Alpha(f, 2047) == 1 && Alpha(f, 89) != 1 && Alpha(f, 23) != 1
    ensures Primitive(f)
  {
    hide Alpha, Pow2, Product, Prime;
    Powers();
    FactorsArePrime(11);
    PrimitiveByFactors(f, Factors(11));
  }

  lemma Degree12(f: FieldParams)
    requires f.mm == 12 && Alpha(f, 4095) == 1 && Alpha(f, 1365) != 1 && Alpha(f, 819) != 1 && Alpha(f, 585) != 1 && Alpha(f, 315) != 1
    ensures Primitive(f)
  {
    hide Alpha, Pow2, Product, Prime;
    Powers();
    FactorsArePrime(12);
    PrimitiveByFactors(f, Factors(12));
  }

  lemma Degree13(f: FieldParams)
    requires f.mm == 13 && Alpha(f, 8191) == 1
    ensures Primitive(f)
  {
    hide Alpha, Pow2, Product, Prime;
    Powers();
    FirstPowerIsTwo(f);
    FactorsArePrime(13);
    PrimitiveByFactors(f, Factors(13));
  }
}
