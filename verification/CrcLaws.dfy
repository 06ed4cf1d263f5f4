/** What each parameter of a CRC does to the checksum. */
module CrcLaws {
  import opened Arithmetic
  import opened Bits
  import opened Crc
  import opened CrcBlocks
  import opened CrcTheory
  import opened ExclusiveOr
  import opened PolynomialDivision
  import opened Sequences

  // ---------------------------------------------------------------- bits of mirrors, words and bytes

  lemma {:induction false} MirrorBits(x: nat, n: nat, i: nat)
    requires i < n
    ensures Bit(Mirror(x, n), i) == Bit(x, n - 1 - i)
  {
    hide Mirror, Bit;
    MirrorStep(x, n - 1);
    if i == 0 {
      BitOfHalf(Mirror(x, n), 0);
    } else {
      MirrorBits(x, n - 1, i - 1);
      BitOfHalf(Mirror(x, n), i - 1);
      assert Mirror(x, n) / 2 == Mirror(x, n - 1);
    }
  }

  lemma {:induction false} BitOfHigh(x: nat, m: nat, i: nat)
    ensures Bit(High(x, m), i) == Bit(x, m + i)
    decreases m
  {
    if m > 0 { BitOfHigh(x / 2, m - 1, i); }
  }

  /** A bit is a digit. */
  lemma BitIsDigit(x: nat, i: nat)
    ensures Bit(x, i) == x / Pow2(i) % 2
  {
    hide High, Pow2;
    BitOfHigh(x, i, 0);
    LowIsMod(x, i);
  }

  /** Bit 8 j + i of the data, as processed, is bit i of byte j, counted from the bottom when reflected and else from the
      top. */
  lemma {:induction false} BitOfData(data: seq<nat>, reflected: bool, j: nat, i: nat)
    requires j < |data| && i < 8
    ensures DataBits(data, reflected)[8 * j + i] == data[j] / Pow2(if reflected then i else 7 - i) % 2
    decreases |data|
  {
    hide Pow2, Bit;
    if j == |data| - 1 {
      BitIsDigit(data[j], if reflected then i else 7 - i);
    } else {
      BitOfData(Front(data), reflected, j, i);
    }
  }

  /** Byte j of a number is its digit j to the base 256, counted from the end at which the number is lowest. */
  lemma {:induction false} ByteOfNumber(x: nat, k: nat, lowFirst: bool, j: nat)
    requires j < k
    ensures NumberBytes(x, k, lowFirst)[j] == x / Pow2(8 * if lowFirst then j else k - 1 - j) % 256
    decreases k
  {
    hide Pow2;
    var d := if lowFirst then j else k - 1 - j;
    if d == 0 {
      BytePower();
    } else {
      ByteOfNumber(x / 256, k - 1, lowFirst, if lowFirst then j - 1 else j);
      NextDigit(x, d);
    }
  }

  lemma NextDigit(x: nat, d: nat)
    requires d > 0
    ensures x / 256 / Pow2(8 * (d - 1)) == x / Pow2(8 * d)
  {
    hide Pow2, High, Low;
    LowByte(x);
    LowIsMod(x / 256, 8 * (d - 1));
    HighOfHigh(x, 8, 8 * (d - 1));
    LowIsMod(x, 8 * d);
  }

  /** The bytes of a number, sent in the order that goes with the order of their bits, spell its bits. */
  lemma BitsOfNumber(x: nat, k: nat, reflected: bool)
    ensures DataBits(NumberBytes(x, k, reflected), reflected) == ByteBits(x, 8 * k, reflected)
  {
    hide Pow2, Bit, DataBits, NumberBytes, High, Low;
    var a, b := DataBits(NumberBytes(x, k, reflected), reflected), ByteBits(x, 8 * k, reflected);
    forall m | 0 <= m < 8 * k ensures a[m] == b[m] {
      var j, i := m / 8, m % 8;
      var d, e := if reflected then j else k - 1 - j, if reflected then i else 7 - i;
      BitOfData(NumberBytes(x, k, reflected), reflected, j, i);
      ByteOfNumber(x, k, reflected, j);
      DigitOfByte(x, d, e);
      assert 8 * d + e == if reflected then m else 8 * k - 1 - m;
    }
  }

  lemma DigitOfByte(x: nat, d: nat, e: nat)
    requires e < 8
    ensures x / Pow2(8 * d) % 256 / Pow2(e) % 2 == Bit(x, 8 * d + e)
  {
    hide Pow2, Bit, High, Low;
    LowIsMod(x, 8 * d);
    var y := High(x, 8 * d);
    LowByte(y);
    BitIsDigit(Low(y, 8), e);
    BitOfLow(y, 8, e);
    BitOfHigh(x, 8 * d, e);
  }

  // ---------------------------------------------------------------- final exclusive or, initial value, reflection

  /** The final exclusive or comes on top of everything else. */
  lemma FinalXor(p: Parameters, data: seq<nat>)
    ensures Checksum(p, data) == Xor(Checksum(p.(finalXor := 0), data), Low(p.finalXor, p.numBits))
  {
    hide Register, Mirror, Xor, DataBits;
    var r := Register(p.numBits, p.poly, Initial(p), DataBits(data, p.inputReflected));
    LowOfZero(p.numBits);
    XorZero(if p.resultReflected then Mirror(r, p.numBits) else r);
  }

  lemma LowOfZero(n: nat)
    ensures Low(0, n) == 0
  {
    hide Low;
    LowOfSmall(0, n);
  }

  lemma MirrorOfLow(x: nat, n: nat)
    ensures Mirror(Low(x, n), n) == Mirror(x, n)
  {
    hide Mirror, Low;
    MirrorTwice(x, n);
    MirrorTwice(Mirror(x, n), n);
    MirrorBound(x, n);
    LowOfSmall(Mirror(x, n), n);
  }

  /** Without data the initial value comes out, mirrored if only one side is reflected. */
  lemma NoData(p: Parameters)
    ensures Checksum(p, []) == Xor(if p.inputReflected != p.resultReflected then Mirror(p.initialValue, p.numBits)
                                   else Low(p.initialValue, p.numBits), Low(p.finalXor, p.numBits))
  {
    hide Mirror, Low, Xor;
    MirrorTwice(p.initialValue, p.numBits);
    MirrorOfLow(p.initialValue, p.numBits);
  }

  /** Reflecting the result mirrors everything but the final exclusive or. */
  lemma ResultReflection(p: Parameters, data: seq<nat>)
    ensures var x := Low(p.finalXor, p.numBits);
            Xor(Checksum(p.(resultReflected := true), data), x)
            == Mirror(Xor(Checksum(p.(resultReflected := false), data), x), p.numBits)
  {
    hide Mirror, Low, Xor, Register, DataBits;
    var r, x := Register(p.numBits, p.poly, Initial(p), DataBits(data, p.inputReflected)), Low(p.finalXor, p.numBits);
    XorCancel(x, r);
    XorCancel(x, Mirror(r, p.numBits));
  }

  /** The register behind a checksum: final exclusive or and reflection are taken off. */
  function Unmasked(p: Parameters, c: nat): nat {
    var x := Xor(c, Low(p.finalXor, p.numBits));
    if p.resultReflected then Mirror(x, p.numBits) else x
  }

  lemma UnmaskedIsRegister(p: Parameters, data: seq<nat>)
    ensures Unmasked(p, Checksum(p, data)) == Register(p.numBits, p.poly, Initial(p), DataBits(data, p.inputReflected))
  {
    hide Mirror, Low, Xor, Register, DataBits, Initial;
    var n := p.numBits;
    var r := Register(n, p.poly, Initial(p), DataBits(data, p.inputReflected));
    RegisterStart(p);
    RegisterBound(n, p.poly, Initial(p), DataBits(data, p.inputReflected));
    XorCancel(Low(p.finalXor, n), if p.resultReflected then Mirror(r, n) else r);
    MirrorTwice(r, n);
    LowOfSmall(r, n);
  }

  /** The checksum, but for final exclusive or and reflection, is the remainder of the data polynomial, whose first
      coefficients the initial value is added to, on division by x^n and the polynomial. */
  lemma ChecksumIsRemainder(p: Parameters, data: seq<nat>)
    requires p.numBits >= 8
    ensures var n, v, x := p.numBits, p.initialValue, Xor(Checksum(p, data), Low(p.finalXor, p.numBits));
            Remainder(Dividend(n, if p.inputReflected then Mirror(v, n) else Low(v, n), DataBits(data, p.inputReflected)),
                      Pow2(n) + Low(p.poly, n), n, if p.resultReflected then Mirror(x, n) else x)
  {
    hide Mirror, Low, Xor, Register, DataBits, Remainder, Pow2, Checksum, Dividend;
    UnmaskedIsRegister(p, data);
    RegisterStart(p);
    RegisterIsRemainder(p.numBits, p.poly, Initial(p), DataBits(data, p.inputReflected));
  }

  // ---------------------------------------------------------------- the residue

  /** Reflected on both sides or on none, in whole bytes. */
  predicate Plain(p: Parameters) { p.numBits >= 8 && p.numBits % 8 == 0 && p.inputReflected == p.resultReflected }

  /** A message with a checksum of value y behind it. */
  function Followed(p: Parameters, data: seq<nat>, y: nat): seq<nat> {
    data + NumberBytes(y, p.numBits / 8, p.inputReflected)
  }

  lemma {:induction false} DataConcat(a: seq<nat>, b: seq<nat>, reflected: bool)
    ensures DataBits(a + b, reflected) == DataBits(a, reflected) + DataBits(b, reflected)
    decreases |b|
  {
    hide ByteBits;
    if b == [] {
      assert a + b == a;
    } else {
      DataConcat(a, Front(b), reflected);
      assert Front(a + b) == a + Front(b);
    }
  }

  /** What is appended meets the register behind the checksum of the data. */
  lemma RegisterOfFollowed(p: Parameters, data: seq<nat>, y: nat)
    requires Plain(p) && y < Pow2(p.numBits)
    ensures Register(p.numBits, p.poly, Initial(p), DataBits(Followed(p, data, y), p.inputReflected))
            == Shifts(p.numBits, p.poly,
                      Xor(Unmasked(p, Checksum(p, data)), if p.inputReflected then Mirror(y, p.numBits) else y), p.numBits)
  {
    hide Mirror, Low, Xor, Register, DataBits, Checksum, Pow2, NumberBytes, ByteBits, Initial, Shifts, Unmasked;
    var n, f := p.numBits, p.inputReflected;
    UnmaskedIsRegister(p, data);
    var r := Register(n, p.poly, Initial(p), DataBits(data, f));
    var tail := NumberBytes(y, n / 8, f);
    DataConcat(data, tail, f);
    RegisterConcat(n, p.poly, Initial(p), DataBits(data, f), DataBits(tail, f));
    BitsOfNumber(y, n / 8, f);
    ValueOfByte(y, n, f);
    LowOfSmall(y, n);
    FeedAtOnce(n, p.poly, r, DataBits(tail, f));
    BytePower();
  }

  lemma UnmaskedOfSum(p: Parameters, c: nat, y: nat)
    requires Plain(p) && c < Pow2(p.numBits) && y < Pow2(p.numBits)
    ensures Xor(Unmasked(p, c), if p.inputReflected then Mirror(y, p.numBits) else y) == Unmasked(p, Xor(c, y))
  {
    hide Mirror, Low, Xor, Pow2;
    var n, x := p.numBits, Low(p.finalXor, p.numBits);
    MirrorIsLinear(Xor(c, x), y, n);
    XorAssociates(c, x, y);
    XorCommutes(x, y);
    XorAssociates(c, y, x);
  }

  /** A message that its own checksum follows has a checksum that does not depend on the message. */
  lemma OwnChecksum(p: Parameters, a: seq<nat>, b: seq<nat>)
    requires Plain(p)
    ensures Checksum(p, a + NumberBytes(Checksum(p, a), p.numBits / 8, p.inputReflected))
            == Checksum(p, b + NumberBytes(Checksum(p, b), p.numBits / 8, p.inputReflected))
  {
    hide Mirror, Low, Xor, Register, DataBits, Checksum, Pow2, NumberBytes, Initial, Shifts, Unmasked;
    ChecksumBound(p, a);
    ChecksumBound(p, b);
    ResidueOf(p, a, Checksum(p, a));
    ResidueOf(p, b, Checksum(p, b));
    XorSelf(Checksum(p, a));
    XorSelf(Checksum(p, b));
  }

  /** What is left depends on how far the appended value is off. */
  lemma ResidueOf(p: Parameters, data: seq<nat>, y: nat)
    requires Plain(p) && y < Pow2(p.numBits)
    ensures ChecksumOf(p, Shifts(p.numBits, p.poly, Unmasked(p, Xor(Checksum(p, data), y)), p.numBits))
            == Checksum(p, Followed(p, data, y))
  {
    hide Mirror, Low, Xor, Register, DataBits, Pow2, NumberBytes, Initial, Shifts, Unmasked, Followed;
    RegisterOfFollowed(p, data, y);
    ChecksumBound(p, data);
    UnmaskedOfSum(p, Checksum(p, data), y);
  }

  /** From the register to the checksum. */
  function ChecksumOf(p: Parameters, register: nat): nat {
    Xor(if p.resultReflected then Mirror(register, p.numBits) else register, Low(p.finalXor, p.numBits))
  }

  lemma UnmaskedBound(p: Parameters, c: nat)
    requires c < Pow2(p.numBits)
    ensures Unmasked(p, c) < Pow2(p.numBits)
  {
    hide Mirror, Low, Xor, Pow2;
    LowBound(p.finalXor, p.numBits);
    XorBound(c, Low(p.finalXor, p.numBits), p.numBits);
    MirrorBound(Xor(c, Low(p.finalXor, p.numBits)), p.numBits);
  }

  lemma UnmaskedInjective(p: Parameters, c: nat, d: nat)
    requires c < Pow2(p.numBits) && d < Pow2(p.numBits) && Unmasked(p, c) == Unmasked(p, d)
    ensures c == d
  {
    hide Mirror, Low, Xor, Pow2;
    var n, x := p.numBits, Low(p.finalXor, p.numBits);
    LowBound(p.finalXor, n);
    XorBound(c, x, n);
    XorBound(d, x, n);
    MirrorTwice(Xor(c, x), n);
    MirrorTwice(Xor(d, x), n);
    LowOfSmall(Xor(c, x), n);
    LowOfSmall(Xor(d, x), n);
    XorCancel(x, c);
    XorCancel(x, d);
  }

  /** With an odd polynomial shifting loses nothing. */
  lemma {:induction false} ShiftsInjective(n: nat, poly: nat, x: nat, y: nat, k: nat)
    requires n > 0 && poly % 2 == 1 && x < Pow2(n) && y < Pow2(n) && Shifts(n, poly, x, k) == Shifts(n, poly, y, k)
    ensures x == y
    decreases k
  {
    hide Shift, Xor, Shifts, Pow2;
    if k == 0 {
      ShiftsNext(n, poly, x, 0);
      ShiftsNext(n, poly, y, 0);
    } else {
      ShiftsAdd(n, poly, x, 1, k - 1);
      ShiftsAdd(n, poly, y, 1, k - 1);
      ShiftsNext(n, poly, x, 0);
      ShiftsNext(n, poly, y, 0);
      ShiftBound(n, poly, x);
      ShiftBound(n, poly, y);
      ShiftsInjective(n, poly, Shift(n, poly, x), Shift(n, poly, y), k - 1);
      ShiftLinear(n, poly, x, y);
      XorZeroIffEqual(Shift(n, poly, x), Shift(n, poly, y));
      XorBound(x, y, n);
      EvenShift(n, poly, Xor(x, y));
      XorZeroIffEqual(x, y);
    }
  }

  /** With an odd polynomial it has that checksum only if the value behind it is its own checksum. */
  lemma OnlyOwnChecksum(p: Parameters, data: seq<nat>, y: nat)
    requires Plain(p) && p.poly % 2 == 1 && y < Pow2(p.numBits)
    requires Checksum(p, Followed(p, data, y)) == Checksum(p, Followed(p, [], Checksum(p, [])))
    ensures y == Checksum(p, data)
  {
    hide Mirror, Low, Xor, Register, DataBits, Checksum, Pow2, NumberBytes, Initial, Shifts, Unmasked, Followed, ChecksumOf;
    var n, c, c0 := p.numBits, Checksum(p, data), Checksum(p, []);
    ChecksumBound(p, data);
    ChecksumBound(p, []);
    ResidueOf(p, data, y);
    ResidueOf(p, [], c0);
    XorBound(c, y, n);
    XorBound(c0, c0, n);
    UnmaskedBound(p, Xor(c, y));
    UnmaskedBound(p, Xor(c0, c0));
    SameRegister(p, Unmasked(p, Xor(c, y)), Unmasked(p, Xor(c0, c0)));
    UnmaskedInjective(p, Xor(c, y), Xor(c0, c0));
    XorSelf(c0);
    XorZeroIffEqual(c, y);
  }

  lemma SameRegister(p: Parameters, x: nat, y: nat)
    requires p.numBits > 0 && p.poly % 2 == 1 && x < Pow2(p.numBits) && y < Pow2(p.numBits)
    requires ChecksumOf(p, Shifts(p.numBits, p.poly, x, p.numBits)) == ChecksumOf(p, Shifts(p.numBits, p.poly, y, p.numBits))
    ensures x == y
  {
    hide Mirror, Low, Xor, Pow2, Shifts;
    var n := p.numBits;
    ShiftsBound(n, p.poly, x, n);
    ShiftsBound(n, p.poly, y, n);
    ChecksumIsFaithful(p, Shifts(n, p.poly, x, n), Shifts(n, p.poly, y, n));
    ShiftsInjective(n, p.poly, x, y, n);
  }

  lemma {:induction false} ShiftsBound(n: nat, poly: nat, x: nat, k: nat)
    requires x < Pow2(n)
    ensures Shifts(n, poly, x, k) < Pow2(n)
  {
    hide Shift, Shifts;
    if k == 0 {
      ShiftsNext(n, poly, x, 0);
    } else {
      ShiftsNext(n, poly, x, k - 1);
      ShiftBound(n, poly, Shifts(n, poly, x, k - 1));
    }
  }
}
