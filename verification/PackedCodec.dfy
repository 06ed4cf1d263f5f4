/** The packed encoder, and blocks through encoder, channel and decoder. */
module PackedCodec {
  import opened Arithmetic
  import opened Bits
  import opened ExclusiveOr
  import opened FreeDistance
  import opened PackedConvolution
  import opened PackedTrellis
  import opened PackedViterbi
  import opened Sequences

  /** The bits of packed data. */
  function Unpacked(data: seq<nat>, n: nat): (u: seq<bit>)
    ensures |u| == n
  {
    seq(n, i requires 0 <= i < n => DataBit(data, i))
  }

  // ---------------------------------------------------------------- decoding a block

  /** A block through the decoder, the way its callers use it: reset, update with six tail bits, chain back from
      state 0. While any message is within 241 of what was received, the data written are those of the closest message from
      whatever state, with a handicap for all start states but 0, and the number returned is its distance with handicap. If
      a message that returns to state 0 is within 62 that message starts in state 0, without handicap. */
  method DecodeBlock(vp: V27, syms: seq<nat>, data: array<nat>, nbits: nat) returns (errors: int, ghost u: seq<bit>, ghost start: nat)
    requires vp.Valid() && nbits + 6 <= vp.decisions.Length && 2 * (nbits + 6) <= 8 * |syms| && 2 * (nbits + 6) <= 65536
    requires nbits <= 8 * data.Length && data != vp.metrics1 && data != vp.metrics2
    modifies vp`oldMetrics, vp`newMetrics, vp`dp, vp.metrics1, vp.metrics2, vp.cache, vp.decisions, data
    ensures vp.Valid() && |u| == nbits + 6
    ensures Close(vp.code, 0, Received(syms, nbits + 6), 241) ==>
              && ChosenOfAll(vp.code, 0, 0, start, u, Received(syms, nbits + 6))
              && errors == Handicapped(vp.code, 0, start, u, Received(syms, nbits + 6))
              && forall j :: 0 <= 8 * j < nbits ==> data[j] == PackedByte(u + [0, 0], 8 * j)
    ensures forall v: seq<bit> :: |v| == nbits + 6 && StateAfter(0, v) == 0
                                  && Distance(vp.code, 0, v, Received(syms, nbits + 6)) < 63 ==>
              && Chosen(vp.code, 0, 0, u, Received(syms, nbits + 6))
              && errors == Distance(vp.code, 0, u, Received(syms, nbits + 6))
              && forall j :: 0 <= 8 * j < nbits ==> data[j] == PackedByte(u + [0, 0], 8 * j)
    ensures Close(vp.code, 0, Received(syms, nbits + 6), 241) && errors < 63 ==>
              StateAfter(0, u) == 0 && Distance(vp.code, 0, u, Received(syms, nbits + 6)) < 63
  {
    hide *;
    ghost var inf := 256 + 2 * (nbits + 6);
    ghost var received := Received(syms, nbits + 6);
    vp.Init(0);
    assert Exact(vp.oldMetrics[..], vp.code, 0, [], inf);
    vp.Update(syms, nbits + 6, 0, inf);
    errors := vp.Chainback(data, nbits, 0, 0, received, inf);
    u := Decoded(vp.code, 0, received, 0, inf);
    start := SurvivorIsChosenOfAll(vp.code, 0, received, 0, inf);
    forall v: seq<bit> | |v| == nbits + 6 && StateAfter(0, v) == 0 && Distance(vp.code, 0, v, received) < 63
      ensures Close(vp.code, 0, received, 241)
      ensures Chosen(vp.code, 0, 0, u, received)
      ensures PathMetric(vp.code, 0, received, 0, inf) == Distance(vp.code, 0, u, received)
    {
      IsClose(vp.code, 0, received, v);
      SurvivorIsChosen(vp.code, 0, received, 0, inf, v);
    }
    if Close(vp.code, 0, received, 241) && errors < 63 { SmallMetricIsDistance(vp.code, 0, received, 0, inf); }
  }

  lemma IsClose(code: Code, start: nat, received: seq<Symbol>, v: seq<bit>)
    requires |v| == |received| && Distance(code, start, v, received) < 63
    ensures Close(code, start, received, 241)
  {
    hide Distance;
  }

  // ---------------------------------------------------------------- encoding

  lemma OrBit(x: nat, b: bit)
    ensures Or(2 * x, b) == 2 * x + b
  {
    OrZero(x);
    assert 2 * x / 2 == x && b / 2 == 0;
  }

  /** Register bits above the taps do not matter. */
  lemma {:induction false} AndOfLow(x: nat, a: nat, k: nat)
    requires a < Pow2(k)
    ensures And(Low(x, k), a) == And(x, a)
    decreases k
  {
    if k > 0 {
      AndOfLow(x / 2, a / 2, k - 1);
      assert Low(x, k) / 2 == Low(x / 2, k - 1) && Low(x, k) % 2 == x % 2;
      AndHalves(Low(x, k), a);
      AndHalves(x, a);
    }
  }

  lemma LowIsMod128(x: nat)
    ensures Low(x, 7) == x % 128
  {
    EightBits();
    SplitBits(x, 7);
    LowBound(x, 7);
    DivModUnique(x, 128, High(x, 7), Low(x, 7));
  }

  /** The encoder's eight-bit register has the state in its low six bits. */
  lemma EncoderRegister(p: int, inSr: nat, b: bit)
    requires Tapped(p)
    ensures Output(p, (2 * inSr + b) % 256) == Output(p, 2 * (inSr % 64) + b)
    ensures (2 * inSr + b) % 256 % 64 == NextState(inSr % 64, b)
  {
    hide And, OddOnes, Low;
    var r := (2 * inSr + b) % 256;
    RegisterMod(inSr, b);
    EightBits();
    LowIsMod128(r);
    AndOfLow(r, Abs(p), 7);
  }

  lemma RegisterMod(x: nat, b: bit)
    ensures (2 * x + b) % 256 % 128 == 2 * (x % 64) + b && (2 * x + b) % 256 % 64 == NextState(x % 64, b)
  {
    var q := x / 64;
    assert 2 * x + b == q * 128 + (2 * (x % 64) + b);
    DivModUnique(2 * x + b, 128, q, 2 * (x % 64) + b);
    ModChain(2 * x + b, 2, 128, 256);
    ModChain(2 * x + b, 4, 64, 256);
    ModChain(2 * x + b, 2, 64, 128);
  }

  lemma ModChain(y: nat, c: nat, d: nat, m: nat)
    requires d >= 1 && m == c * d && m >= 1
    ensures y % m % d == y % d
  {
    assert y == y % m + y / m * m;
    assert y / m * m == y / m * c * d;
    AddMultiple(y % m, y / m * c, d);
  }

  function SymbolValue(y: Symbol): nat { 2 * y.y0 + y.y1 }

  /** The output register after the symbols c. */
  function OutputRegister(c: seq<Symbol>): nat {
    if c == [] then 0 else (4 * OutputRegister(Front(c)) + SymbolValue(Last(c))) % 256
  }

  lemma RegisterLow(r: nat, v: nat, m: nat, c: nat)
    requires v < 4 && m >= 1 && 256 == c * (4 * m)
    ensures (4 * r + v) % 256 % (4 * m) == 4 * (r % m) + v
  {
    var q, d := r / m, 4 * m;
    assert 4 * r + v == q * d + (4 * (r % m) + v);
    DivModUnique(4 * r + v, d, q, 4 * (r % m) + v);
    ModChain(4 * r + v, c, d, 256);
  }

  lemma OutputStep(c: seq<Symbol>, i: nat)
    requires i < |c|
    ensures OutputRegister(c[..i + 1]) == (4 * OutputRegister(c[..i]) + SymbolValue(c[i])) % 256
  {
    FrontOfPrefix(c, i);
  }

  lemma OutputLow(c: seq<Symbol>, i: nat, m: nat, k: nat)
    requires i < |c| && m >= 1 && 256 == k * (4 * m)
    ensures OutputRegister(c[..i + 1]) % (4 * m) == 4 * (OutputRegister(c[..i]) % m) + SymbolValue(c[i])
    ensures OutputRegister(c[..i + 1]) < 256
  {
    hide OutputRegister;
    OutputStep(c, i);
    RegisterLow(OutputRegister(c[..i]), SymbolValue(c[i]), m, k);
  }

  /** Every fourth step the register holds the last four symbols. */
  lemma FourSymbols(c: seq<Symbol>, i: nat)
    requires i + 4 <= |c|
    ensures OutputRegister(c[..i + 4]) == 4 * (4 * (4 * SymbolValue(c[i]) + SymbolValue(c[i + 1])) + SymbolValue(c[i + 2])) + SymbolValue(c[i + 3])
  {
    hide *;
    OutputLow(c, i, 1, 64);
    OutputLow(c, i + 1, 4, 16);
    OutputLow(c, i + 2, 16, 4);
    OutputLow(c, i + 3, 64, 1);
  }

  lemma BitAboveSymbol(x: nat, y: Symbol, i: nat)
    ensures Bit(4 * x + SymbolValue(y), i) == if i == 0 then y.y1 else if i == 1 then y.y0 else Bit(x, i - 2)
  {
    var z := 4 * x + SymbolValue(y);
    assert z % 2 == y.y1 && z / 2 == 2 * x + y.y0;
    if i > 0 {
      assert Bit(z, i) == Bit(2 * x + y.y0, i - 1);
      assert (2 * x + y.y0) / 2 == x && (2 * x + y.y0) % 2 == y.y0;
    }
  }

  /** Four symbols in a byte, first one on top. */
  lemma SymbolInByte(c: seq<Symbol>, i: nat, j: nat)
    requires i + 4 <= |c| && j < 4
    ensures var b := OutputRegister(c[..i + 4]); Bit(b, 7 - 2 * j) == c[i + j].y0 && Bit(b, 6 - 2 * j) == c[i + j].y1
  {
    hide OutputRegister, Bit, SymbolValue;
    FourSymbols(c, i);
    var x1 := 4 * 0 + SymbolValue(c[i]);
    var x2 := 4 * x1 + SymbolValue(c[i + 1]);
    var x3 := 4 * x2 + SymbolValue(c[i + 2]);
    var k := 6 - 2 * j;
    BitAboveSymbol(x3, c[i + 3], k); BitAboveSymbol(x3, c[i + 3], k + 1);
    if j < 3 { BitAboveSymbol(x2, c[i + 2], k - 2); BitAboveSymbol(x2, c[i + 2], k - 1); }
    if j < 2 { BitAboveSymbol(x1, c[i + 1], k - 4); BitAboveSymbol(x1, c[i + 1], k - 3); }
    if j < 1 { BitAboveSymbol(0, c[i], k - 6); BitAboveSymbol(0, c[i], k - 5); }
  }

  lemma {:induction false} CodewordPrefix(code: Code, start: nat, u: seq<bit>, i: nat)
    requires i <= |u|
    ensures Codeword(code, start, u)[..i] == Codeword(code, start, u[..i])
    decreases |u|
  {
    hide *;
    if i < |u| {
      CodewordPrefix(code, start, Front(u), i);
      CodewordStep(code, start, u);
      PrefixOfFront(u, i);
      PrefixOfFront(Codeword(code, start, u), i);
    } else {
      assert u[..i] == u;
    }
  }

  lemma PrefixOfFront<T>(s: seq<T>, i: nat)
    requires i < |s|
    ensures Front(s)[..i] == s[..i]
  {}

  /** Input t; before the start there were zeros. */
  function InputOf(u: seq<bit>, t: int): bit { if 0 <= t < |u| then u[t] else 0 }

  lemma PastIs(u: seq<bit>, t: nat, d: nat)
    requires t < |u|
    ensures Past(u[..t + 1], d) == InputOf(u, t - d)
  {}

  /** Symbol t sums the inputs t, t - 1, t - 2, t - 3 and t - 6, and, inverted, t, t - 2, t - 3, t - 5 and t - 6. */
  lemma CodewordConvolves(u: seq<bit>, t: nat)
    requires t < |u|
    ensures Codeword(CCSDS, 0, u)[t].y0
            == (InputOf(u, t) + InputOf(u, t - 1) + InputOf(u, t - 2) + InputOf(u, t - 3) + InputOf(u, t - 6)) % 2
    ensures Codeword(CCSDS, 0, u)[t].y1
            == (1 + InputOf(u, t) + InputOf(u, t - 2) + InputOf(u, t - 3) + InputOf(u, t - 5) + InputOf(u, t - 6)) % 2
  {
    hide Codeword, Past, InputOf;
    CodewordPrefix(CCSDS, 0, u, t + 1);
    FrontOfPrefix(Codeword(CCSDS, 0, u), t);
    LastSymbol(u[..t + 1]);
    PastIs(u, t, 0); PastIs(u, t, 1); PastIs(u, t, 2); PastIs(u, t, 3); PastIs(u, t, 5); PastIs(u, t, 6);
  }

  lemma CodewordAt(code: Code, start: nat, u: seq<bit>, i: nat)
    requires i < |u|
    ensures Codeword(code, start, u)[i] == OutputOf(code, 2 * StateAfter(start, u[..i]) + u[i])
    ensures StateAfter(start, u[..i + 1]) == NextState(StateAfter(start, u[..i]), u[i])
  {
    hide *;
    FrontOfPrefix(u, i);
    CodewordPrefix(code, start, u, i + 1);
    CodewordStep(code, start, u[..i + 1]);
    var c := Codeword(code, start, u);
    FrontOfPrefix(c, i);
    StateStep(start, u[..i + 1]);
  }

  lemma StateStep(start: nat, u: seq<bit>)
    requires u != []
    ensures StateAfter(start, u) == NextState(StateAfter(start, Front(u)), Last(u))
  {}

  lemma TwoBits(x: nat, i: nat)
    ensures x == 4 * (x / 4) + 2 * Bit(x, 1) + Bit(x, 0) && Bit(x, i + 2) == Bit(x / 4, i)
  {
    assert x / 2 / 2 == x / 4 && Bit(x, 1) == x / 2 % 2;
  }

  lemma ByteOfBits(x: nat)
    requires x < 256
    ensures x == 128 * Bit(x, 7) + 64 * Bit(x, 6) + 32 * Bit(x, 5) + 16 * Bit(x, 4) + 8 * Bit(x, 3) + 4 * Bit(x, 2) + 2 * Bit(x, 1) + Bit(x, 0)
  {
    hide *;
    var y := x / 4;
    TwoBits(x, 0); TwoBits(x, 1); TwoBits(x, 2); TwoBits(x, 3); TwoBits(x, 4); TwoBits(x, 5);
    SixBits(y);
  }

  lemma SixBits(y: nat)
    requires y < 64
    ensures y == 32 * Bit(y, 5) + 16 * Bit(y, 4) + 8 * Bit(y, 3) + 4 * Bit(y, 2) + 2 * Bit(y, 1) + Bit(y, 0)
  {
    hide *;
    var a := y / 4;
    var b := a / 4;
    assert a < 16 && b < 4 && b / 4 == 0;
    TwoBits(y, 0); TwoBits(y, 1); TwoBits(y, 2); TwoBits(y, 3);
    TwoBits(a, 0); TwoBits(a, 1);
    TwoBits(b, 0);
    assert a == 4 * b + 2 * Bit(y, 3) + Bit(y, 2);
    assert b == 2 * Bit(y, 5) + Bit(y, 4);
  }

  /** The register bits that the first output sums. */
  function FirstTaps(r: nat): bit { (Bit(r, 0) + Bit(r, 1) + Bit(r, 2) + Bit(r, 3) + Bit(r, 6)) % 2 }

  /** Those of the second output, inverted. */
  function SecondTaps(r: nat): bit { (1 + Bit(r, 0) + Bit(r, 2) + Bit(r, 3) + Bit(r, 5) + Bit(r, 6)) % 2 }

  lemma StepOutputs(inSr: nat, b: bit)
    ensures var r := (2 * inSr + b) % 256; OutputOf(CCSDS, 2 * (inSr % 64) + b) == Symbol(FirstTaps(r), SecondTaps(r))
  {
    hide *;
    var r := (2 * inSr + b) % 256;
    RegisterMod(inSr, b);
    var w := LowSeven(r);
    TapsOfRegister(r, w);
  }

  lemma LowSeven(r: nat) returns (w: nat)
    requires r < 256
    ensures w == Word(Bit(r, 0), Bit(r, 1), Bit(r, 2), Bit(r, 3), Bit(r, 4), Bit(r, 5), Bit(r, 6)) == r % 128
  {
    hide Bit;
    ByteOfBits(r);
    w := Word(Bit(r, 0), Bit(r, 1), Bit(r, 2), Bit(r, 3), Bit(r, 4), Bit(r, 5), Bit(r, 6));
    RestOfByte(r, w, Bit(r, 7));
  }

  lemma TapsOfRegister(r: nat, w: nat)
    requires w == Word(Bit(r, 0), Bit(r, 1), Bit(r, 2), Bit(r, 3), Bit(r, 4), Bit(r, 5), Bit(r, 6))
    ensures OutputOf(CCSDS, w) == Symbol(FirstTaps(r), SecondTaps(r))
  {
    hide Bit, Output, Word;
    FirstOutput(Bit(r, 0), Bit(r, 1), Bit(r, 2), Bit(r, 3), Bit(r, 4), Bit(r, 5), Bit(r, 6));
    SecondOutput(Bit(r, 0), Bit(r, 1), Bit(r, 2), Bit(r, 3), Bit(r, 4), Bit(r, 5), Bit(r, 6));
  }

  lemma RestOfByte(r: nat, w: nat, top: bit)
    requires w < 128 && r == 128 * top + w
    ensures r % 128 == w
  {}

  /** One step of the encoder. */
  method EncodeStep(partab: array<bit>, inSr: nat, outSr: nat, b: bit) returns (inSr': nat, outSr': nat)
    requires partab.Length == 256 && forall i :: 0 <= i < 256 ==> partab[i] == OddOnes(i)
    ensures inSr' < 256 && inSr' % 64 == NextState(inSr % 64, b)
    ensures outSr' == (4 * outSr + SymbolValue(OutputOf(CCSDS, 2 * (inSr % 64) + b))) % 256
    ensures inSr' == (2 * inSr + b) % 256
    ensures OutputOf(CCSDS, 2 * (inSr % 64) + b) == Symbol(FirstTaps(inSr'), SecondTaps(inSr'))
  {
    hide Or, OddOnes, NextState, Output, FirstTaps, SecondTaps;
    StepOutputs(inSr, b);
    OrBit(inSr, b);
    inSr' := Byte(Or(2 * inSr, b));
    EncoderRegister(CCSDS.p0, inSr, b);
    EncoderRegister(CCSDS.p1, inSr, b);
    var o0 := OutputBit(partab, CCSDS.p0, inSr');
    OrBit(outSr, o0);
    outSr' := Byte(Or(2 * outSr, o0));
    var o1 := OutputBit(partab, CCSDS.p1, inSr');
    OrBit(outSr', o1);
    outSr' := Byte(Or(2 * outSr', o1));
    ModTwice(2 * outSr + o0, o1);
  }

  lemma ModTwice(x: nat, o: bit)
    ensures (2 * (x % 256) + o) % 256 == (2 * x + o) % 256
  {
    var q := x / 256;
    assert 2 * x + o == 2 * (x % 256) + o + 2 * q * 256;
    AddMultiple(2 * (x % 256) + o, 2 * q, 256);
  }

  /** The codeword of packed data and eight zero bits. */
  function Encoding(data: seq<nat>, framebits: nat): (c: seq<Symbol>)
    ensures |c| == framebits + 8
  {
    Codeword(CCSDS, 0, Unpacked(data, framebits) + Zeros(8))
  }

  /** Input t of the encoder: the bits of a byte from the top down, and zeros before the data and after them. */
  function InputAt(data: seq<nat>, framebits: nat, t: int): bit {
    if 0 <= t < framebits && t / 8 < |data| then data[t / 8] / Pow2(7 - t % 8) % 2 else 0
  }

  /** The inputs now and 1, 2, 3 and 6 steps ago. */
  function FirstSum(data: seq<nat>, framebits: nat, t: int): bit {
    (InputAt(data, framebits, t) + InputAt(data, framebits, t - 1) + InputAt(data, framebits, t - 2)
     + InputAt(data, framebits, t - 3) + InputAt(data, framebits, t - 6)) % 2
  }

  /** The inputs now and 2, 3, 5 and 6 steps ago, inverted. */
  function SecondSum(data: seq<nat>, framebits: nat, t: int): bit {
    (1 + InputAt(data, framebits, t) + InputAt(data, framebits, t - 2) + InputAt(data, framebits, t - 3)
     + InputAt(data, framebits, t - 5) + InputAt(data, framebits, t - 6)) % 2
  }

  lemma {:induction false} BitIsQuotient(x: nat, i: nat)
    ensures Bit(x, i) == x / Pow2(i) % 2
    decreases i
  {
    if i > 0 {
      BitIsQuotient(x / 2, i - 1);
      QuotientOfHalf(x, Pow2(i - 1));
    }
  }

  lemma QuotientOfHalf(x: nat, p: nat)
    requires p >= 1
    ensures x / 2 / p == x / (2 * p)
  {
    var q := x / 2 / p;
    var r := x / 2 % p;
    assert x / 2 == q * p + r;
    assert x == q * (2 * p) + (2 * r + x % 2) by { assert q * (2 * p) == 2 * (q * p); }
    DivModUnique(x, 2 * p, q, 2 * r + x % 2);
  }

  lemma InputsAre(data: seq<nat>, framebits: nat, t: int)
    requires t < framebits + 8
    ensures InputOf(Unpacked(data, framebits) + Zeros(8), t) == InputAt(data, framebits, t)
  {
    hide Bit, Pow2;
    if t >= 0 {
      NextBit(data, framebits, t);
      if t / 8 < |data| { BitIsQuotient(data[t / 8], 7 - t % 8); }
    }
  }

  /** The encoding is the convolution of the data with the two sets of taps. */
  lemma EncodingConvolves(data: seq<nat>, framebits: nat, t: nat)
    requires t < framebits + 8
    ensures Encoding(data, framebits)[t] == Symbol(FirstSum(data, framebits, t), SecondSum(data, framebits, t))
  {
    hide Codeword, InputOf, Unpacked, InputAt, Zeros;
    var u := Unpacked(data, framebits) + Zeros(8);
    assert |u| == framebits + 8 by { LengthWithEight(data, framebits); }
    CodewordConvolves(u, t);
    InputsAre(data, framebits, t); InputsAre(data, framebits, t - 1); InputsAre(data, framebits, t - 2);
    InputsAre(data, framebits, t - 3); InputsAre(data, framebits, t - 5); InputsAre(data, framebits, t - 6);
  }

  lemma LengthWithEight(data: seq<nat>, framebits: nat)
    ensures |Unpacked(data, framebits) + Zeros(8)| == framebits + 8
  {}

  /** A byte with the symbols of inputs t to t + 3, the first output of the first one on top. */
  ghost predicate Carries(x: nat, data: seq<nat>, framebits: nat, t: nat) {
    && x < 256
    && Bit(x, 7) == FirstSum(data, framebits, t) && Bit(x, 6) == SecondSum(data, framebits, t)
    && Bit(x, 5) == FirstSum(data, framebits, t + 1) && Bit(x, 4) == SecondSum(data, framebits, t + 1)
    && Bit(x, 3) == FirstSum(data, framebits, t + 2) && Bit(x, 2) == SecondSum(data, framebits, t + 2)
    && Bit(x, 1) == FirstSum(data, framebits, t + 3) && Bit(x, 0) == SecondSum(data, framebits, t + 3)
  }

  lemma ByteConvolves(data: seq<nat>, framebits: nat, k: nat)
    requires 4 * k + 4 <= framebits + 8
    ensures Carries(OutputRegister(Encoding(data, framebits)[..4 * k + 4]), data, framebits, 4 * k)
  {
    hide FirstSum, SecondSum, Bit, Encoding, OutputRegister;
    var c := Encoding(data, framebits);
    OutputLow(c, 4 * k + 3, 1, 64);
    SymbolInByte(c, 4 * k, 0); SymbolInByte(c, 4 * k, 1); SymbolInByte(c, 4 * k, 2); SymbolInByte(c, 4 * k, 3);
    EncodingConvolves(data, framebits, 4 * k); EncodingConvolves(data, framebits, 4 * k + 1);
    EncodingConvolves(data, framebits, 4 * k + 2); EncodingConvolves(data, framebits, 4 * k + 3);
  }

  lemma ZeroSums(data: seq<nat>, framebits: nat, t: int)
    requires forall j :: 0 <= j < |data| ==> data[j] == 0
    ensures FirstSum(data, framebits, t) == 0 && SecondSum(data, framebits, t) == 1
  {
    hide InputAt;
    NoInput(data, framebits, t); NoInput(data, framebits, t - 1); NoInput(data, framebits, t - 2);
    NoInput(data, framebits, t - 3); NoInput(data, framebits, t - 5); NoInput(data, framebits, t - 6);
  }

  lemma NoInput(data: seq<nat>, framebits: nat, t: int)
    requires forall j :: 0 <= j < |data| ==> data[j] == 0
    ensures InputAt(data, framebits, t) == 0
  {}

  /** Data of zeros are sent as bytes 0x55. */
  lemma ZerosAreSent(data: seq<nat>, framebits: nat, t: nat, x: nat)
    requires Carries(x, data, framebits, t) && forall j :: 0 <= j < |data| ==> data[j] == 0
    ensures x == 0x55
  {
    hide FirstSum, SecondSum, Bit;
    ZeroSums(data, framebits, t); ZeroSums(data, framebits, t + 1); ZeroSums(data, framebits, t + 2);
    ZeroSums(data, framebits, t + 3);
    ByteOfBits(x);
  }

  /** encode_viterbi_packed. The buffer temp limits the number of bits; whole bytes of symbols are copied out. */
  method Encode(channel: array<nat>, data: seq<nat>, framebits: nat)
    requires framebits <= 1016 && framebits <= 8 * |data| && 2 * (framebits / 8) + 2 <= channel.Length
    modifies channel
    ensures forall k :: 0 <= k < channel.Length ==>
              channel[k] == if k < 2 * (framebits / 8) + 2 then OutputRegister(Encoding(data, framebits)[..4 * k + 4]) else old(channel[k])
    ensures forall k :: 0 <= k < 2 * (framebits / 8) + 2 ==> Carries(channel[k], data, framebits, 4 * k)
  {
    hide *;
    ghost var u := Unpacked(data, framebits) + Zeros(8);
    ghost var c := Codeword(CCSDS, 0, u);
    assert c == Encoding(data, framebits) by { EncodingUnfolds(data, framebits); }
    var partab := PartabInit();
    var inSr, outSr := 0, 0;
    var temp := new nat[256];
    StartOfEncoding(u, c);
    for i := 0 to framebits + 8
      invariant forall k :: 0 <= k < 256 ==> partab[k] == OddOnes(k)
      invariant forall j :: 0 <= j < channel.Length ==> channel[j] == old(channel[j])
      invariant inSr < 256 && inSr % 64 == StateAfter(0, u[..i]) && outSr == OutputRegister(c[..i])
      invariant forall k :: 0 <= k && 4 * k + 4 <= i ==> temp[k] == OutputRegister(c[..4 * k + 4])
    {
      var b: bit := if i >= framebits then 0 else DataBit(data, i);
      NextBit(data, framebits, i);
      CodewordAt(CCSDS, 0, u, i);
      OutputStep(c, i);
      inSr, outSr := EncodeStep(partab, inSr, outSr, b);
      temp[i / 4] := outSr;
    }
    for k := 0 to 2 * (framebits / 8) + 2
      invariant forall j :: 0 <= j < 64 * 4 && 4 * j + 4 <= framebits + 8 ==> temp[j] == OutputRegister(c[..4 * j + 4])
      invariant forall j :: 0 <= j < channel.Length ==>
                  channel[j] == if j < k then OutputRegister(c[..4 * j + 4]) else old(channel[j])
    {
      assert 4 * k + 4 <= framebits + 8;
      channel[k] := temp[k];
    }
    forall k | 0 <= k < 2 * (framebits / 8) + 2 ensures Carries(channel[k], data, framebits, 4 * k) {
      ByteConvolves(data, framebits, k);
    }
  }

  lemma EncodingUnfolds(data: seq<nat>, framebits: nat)
    ensures Encoding(data, framebits) == Codeword(CCSDS, 0, Unpacked(data, framebits) + Zeros(8))
  {}

  lemma StartOfEncoding(u: seq<bit>, c: seq<Symbol>)
    ensures StateAfter(0, u[..0]) == 0 && OutputRegister(c[..0]) == 0
  {}

  lemma NextBit(data: seq<nat>, framebits: nat, i: nat)
    requires i < framebits + 8
    ensures (Unpacked(data, framebits) + Zeros(8))[i] == if i >= framebits then 0 else DataBit(data, i)
  {
    hide DataBit;
  }

  // ---------------------------------------------------------------- from end to end

  lemma ReceivedAsSent(channel: seq<nat>, c: seq<Symbol>, m: nat, t: nat)
    requires m <= |channel| && t < 4 * m <= |c|
    requires forall k :: 0 <= k < m ==> channel[k] == OutputRegister(c[..4 * k + 4])
    ensures Symbol(DataBit(channel, 2 * t), DataBit(channel, 2 * t + 1)) == c[t]
  {
    hide Bit, OutputRegister;
    var k, j := t / 4, t % 4;
    assert 2 * t / 8 == k && (2 * t + 1) / 8 == k && 2 * t % 8 == 2 * j && (2 * t + 1) % 8 == 2 * j + 1;
    SymbolInByte(c, 4 * k, j);
  }

  /** The number of wrong bits among the symbols received. */
  function WrongBits(c: seq<Symbol>, received: seq<Symbol>): nat {
    if c == [] || received == [] then 0 else WrongBits(Front(c), Front(received)) + Miss(Last(c), Last(received))
  }

  lemma {:induction false} DistanceIsWrongBits(code: Code, start: nat, u: seq<bit>, received: seq<Symbol>)
    requires |u| == |received|
    ensures Distance(code, start, u, received) == WrongBits(Codeword(code, start, u), received)
    decreases |u|
  {
    hide OutputOf, StateAfter, Miss;
    if u != [] {
      DistanceIsWrongBits(code, start, Front(u), Front(received));
      CodewordStep(code, start, u);
      DistanceStep(code, start, u, received);
    }
  }

  /** The ones among the first n bits of packed noise. */
  function Ones(noise: seq<nat>, n: nat): nat {
    if n == 0 then 0 else Ones(noise, n - 1) + DataBit(noise, n - 1)
  }

  function Disturbed(syms: seq<nat>, noise: seq<nat>): (s: seq<nat>)
    requires |noise| == |syms|
    ensures |s| == |syms|
  {
    seq(|syms|, k requires 0 <= k < |syms| => Xor(syms[k], noise[k]))
  }

  lemma DisturbedBit(syms: seq<nat>, noise: seq<nat>, i: nat)
    requires |noise| == |syms|
    ensures DataBit(Disturbed(syms, noise), i) == Differ(DataBit(syms, i), DataBit(noise, i))
  {
    hide Xor, Bit;
    if i / 8 < |syms| { BitOfXor(syms[i / 8], noise[i / 8], 7 - i % 8); }
  }

  /** The wrong bits are the ones of the noise. */
  lemma {:induction false} NoiseIsWrong(syms: seq<nat>, noise: seq<nat>, n: nat)
    requires |noise| == |syms|
    ensures WrongBits(Received(syms, n), Received(Disturbed(syms, noise), n)) == Ones(noise, 2 * n)
  {
    hide DataBit, Xor, Disturbed;
    if n > 0 {
      NoiseIsWrong(syms, noise, n - 1);
      assert Front(Received(syms, n)) == Received(syms, n - 1);
      assert Front(Received(Disturbed(syms, noise), n)) == Received(Disturbed(syms, noise), n - 1);
      DisturbedBit(syms, noise, 2 * n - 2);
      DisturbedBit(syms, noise, 2 * n - 1);
      assert Ones(noise, 2 * n) == Ones(noise, 2 * n - 2) + DataBit(noise, 2 * n - 2) + DataBit(noise, 2 * n - 1);
    }
  }

  /** Six zero bits lead back to state 0. */
  lemma SixZeros(s0: nat)
    ensures var s1 := NextState(s0, 0); var s2 := NextState(s1, 0); var s3 := NextState(s2, 0);
            var s4 := NextState(s3, 0); var s5 := NextState(s4, 0); NextState(s5, 0) == 0
  {
    var s1 := NextState(s0, 0); var s2 := NextState(s1, 0); var s3 := NextState(s2, 0);
    var s4 := NextState(s3, 0); var s5 := NextState(s4, 0); var s6 := NextState(s5, 0);
    assert s6 < 64;
    hide NextState;
    NextLow(s0, 0, 1, 32, 0); NextLow(s1, 0, 2, 16, 0); NextLow(s2, 0, 4, 8, 0);
    NextLow(s3, 0, 8, 4, 0); NextLow(s4, 0, 16, 2, 0); NextLow(s5, 0, 32, 1, 0);
  }

  lemma TailLeadsHome(start: nat, u: seq<bit>)
    ensures StateAfter(start, u + Zeros(6)) == 0
  {
    hide NextState;
    SixZeros(StateAfter(start, u));
    forall k: nat | k < 6 ensures StateAfter(start, u + Zeros(k + 1)) == NextState(StateAfter(start, u + Zeros(k)), 0) {
      assert u + Zeros(k + 1) == u + Zeros(k) + [0];
      FrontOfAppend(u + Zeros(k), 0);
    }
    assert u + Zeros(0) == u;
    assert StateAfter(start, u + Zeros(1)) == NextState(StateAfter(start, u + Zeros(0)), 0);
    assert StateAfter(start, u + Zeros(2)) == NextState(StateAfter(start, u + Zeros(1)), 0);
    assert StateAfter(start, u + Zeros(3)) == NextState(StateAfter(start, u + Zeros(2)), 0);
    assert StateAfter(start, u + Zeros(4)) == NextState(StateAfter(start, u + Zeros(3)), 0);
    assert StateAfter(start, u + Zeros(5)) == NextState(StateAfter(start, u + Zeros(4)), 0);
    assert StateAfter(start, u + Zeros(6)) == NextState(StateAfter(start, u + Zeros(5)), 0);
  }

  lemma PackedBit(data: seq<nat>, len: nat, u: seq<bit>, j: nat, i: nat)
    requires j < len <= |data| && i < 8 && |u| >= 8 * len && u[..8 * len] == Unpacked(data, 8 * len)
    ensures At(u + [0, 0], 8 * j + i) == Bit(data[j], 7 - i)
  {
    hide Bit;
    assert u[..8 * len][8 * j + i] == DataBit(data, 8 * j + i);
    assert (8 * j + i) / 8 == j && (8 * j + i) % 8 == i;
  }

  /** Packing the bits of a byte yields the byte. */
  lemma PackedAgain(data: seq<nat>, len: nat, u: seq<bit>, j: nat)
    requires j < len <= |data| && data[j] < 256 && |u| >= 8 * len && u[..8 * len] == Unpacked(data, 8 * len)
    ensures PackedByte(u + [0, 0], 8 * j) == data[j]
  {
    hide Bit, At, Unpacked;
    ByteOfBits(data[j]);
    PackedBit(data, len, u, j, 0); PackedBit(data, len, u, j, 1); PackedBit(data, len, u, j, 2); PackedBit(data, len, u, j, 3);
    PackedBit(data, len, u, j, 4); PackedBit(data, len, u, j, 5); PackedBit(data, len, u, j, 6); PackedBit(data, len, u, j, 7);
  }

  /** What the decoder gets to see of an undisturbed encoding: all but the last two symbols. */
  lemma EncodingReceived(data: seq<nat>, len: nat, channel: seq<nat>)
    requires |channel| >= 2 * len + 2
    requires forall k :: 0 <= k < 2 * len + 2 ==> channel[k] == OutputRegister(Encoding(data, 8 * len)[..4 * k + 4])
    ensures Received(channel, 8 * len + 6) == Codeword(CCSDS, 0, Unpacked(data, 8 * len) + Zeros(6))
  {
    hide OutputRegister, Codeword, DataBit;
    var c, u := Encoding(data, 8 * len), Unpacked(data, 8 * len) + Zeros(8);
    var v := Unpacked(data, 8 * len) + Zeros(6);
    assert u[..8 * len + 6] == v;
    CodewordPrefix(CCSDS, 0, u, 8 * len + 6);
    forall t | 0 <= t < 8 * len + 6 ensures Received(channel, 8 * len + 6)[t] == Codeword(CCSDS, 0, v)[t] {
      ReceivedAsSent(channel, c, 2 * len + 2, t);
      assert c[..8 * len + 6][t] == c[t];
    }
  }

  /** Up to four wrong bits anywhere among the bits that the decoder reads do no harm: the data come back, and the
      number of wrong bits with them. */
  method Transfer(vp: V27, data: seq<nat>, noise: seq<nat>, decoded: array<nat>) returns (errors: int)
    requires vp.Valid() && vp.code == CCSDS && |data| <= 127 && 8 * |data| + 6 <= vp.decisions.Length
    requires forall j :: 0 <= j < |data| ==> data[j] < 256
    requires |noise| == 2 * |data| + 2 && Ones(noise, 2 * (8 * |data| + 6)) <= 4
    requires decoded.Length >= |data| && decoded != vp.metrics1 && decoded != vp.metrics2
    modifies vp`oldMetrics, vp`newMetrics, vp`dp, vp.metrics1, vp.metrics2, vp.cache, vp.decisions, decoded
    ensures errors == Ones(noise, 2 * (8 * |data| + 6))
    ensures decoded[..|data|] == data
  {
    hide *;
    var len := |data|;
    var channel := new nat[2 * len + 2];
    Encode(channel, data, 8 * len);
    ghost var v := Unpacked(data, 8 * len) + Zeros(6);
    ghost var sent := channel[..];
    EncodingReceived(data, len, sent);
    var syms := Disturbed(channel[..], noise);
    ghost var received := Received(syms, 8 * len + 6);
    NoiseIsWrong(sent, noise, 8 * len + 6);
    DistanceIsWrongBits(CCSDS, 0, v, received);
    TailLeadsHome(0, Unpacked(data, 8 * len));
    LengthWithTail(data, 8 * len);
    FourErrors(v, received);
    ghost var u, start;
    errors, u, start := DecodeBlock(vp, syms, decoded, 8 * len);
    ChosenIsUnique(CCSDS, 0, 0, u, v, received);
    forall j | 0 <= j < len ensures decoded[j] == data[j] {
      PackedAgain(data, len, v, j);
    }
  }

  lemma LengthWithTail(data: seq<nat>, n: nat)
    ensures var v := Unpacked(data, n) + Zeros(6); |v| == n + 6 && v[..n] == Unpacked(data, n)
  {}
}
