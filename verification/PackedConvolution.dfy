/** What the packed encoder sends, with the taps written out: the convolution behind the polynomials of the CCSDS
    convention. */
module PackedConvolution {
  import opened Bits
  import opened PackedTrellis
  import opened Sequences

  /** The input d steps before the last one; before the start there were zeros. */
  function Past(u: seq<bit>, d: nat): bit {
    if d < |u| then u[|u| - 1 - d] else 0
  }

  lemma PastOfFront(u: seq<bit>, d: nat)
    requires u != []
    ensures Past(u, d + 1) == Past(Front(u), d) && Past(u, 0) == Last(u)
  {}

  /** The number whose seven lowest bits are given, lowest first. */
  function Word(b0: bit, b1: bit, b2: bit, b3: bit, b4: bit, b5: bit, b6: bit): (w: nat)
    ensures w < 128
  {
    b0 + 2 * b1 + 4 * b2 + 8 * b3 + 16 * b4 + 32 * b5 + 64 * b6
  }

  lemma Doubled(b0: bit, b1: bit, b2: bit, b3: bit, b4: bit, b5: bit, b6: bit)
    ensures 2 * Word(b1, b2, b3, b4, b5, b6, 0) + b0 == Word(b0, b1, b2, b3, b4, b5, b6)
  {}

  lemma TopOff(b0: bit, b1: bit, b2: bit, b3: bit, b4: bit, b5: bit, b6: bit)
    ensures Word(b0, b1, b2, b3, b4, b5, b6) == 64 * b6 + Word(b0, b1, b2, b3, b4, b5, 0) && Word(b0, b1, b2, b3, b4, b5, 0) < 64
  {}

  lemma ModOfTop(x: nat, top: bit)
    requires x < 64
    ensures (64 * top + x) % 64 == x
  {}

  lemma NextWord(b0: bit, b1: bit, b2: bit, b3: bit, b4: bit, b5: bit, b6: bit)
    ensures NextState(Word(b1, b2, b3, b4, b5, b6, 0), b0) == Word(b0, b1, b2, b3, b4, b5, 0)
  {
    hide Word;
    Doubled(b0, b1, b2, b3, b4, b5, b6);
    TopOff(b0, b1, b2, b3, b4, b5, b6);
    ModOfTop(Word(b0, b1, b2, b3, b4, b5, 0), b6);
  }

  /** The state holds the last six inputs, the newest one in the lowest bit. */
  lemma {:induction false} StateIsPast(u: seq<bit>)
    ensures StateAfter(0, u) == Word(Past(u, 0), Past(u, 1), Past(u, 2), Past(u, 3), Past(u, 4), Past(u, 5), 0)
    decreases |u|
  {
    hide Past, Word, NextState;
    if u == [] {
      NoPast();
      ZeroWord();
    } else {
      StateIsPast(Front(u));
      PastOfFront(u, 0); PastOfFront(u, 1); PastOfFront(u, 2); PastOfFront(u, 3); PastOfFront(u, 4); PastOfFront(u, 5);
      NextWord(Past(u, 0), Past(u, 1), Past(u, 2), Past(u, 3), Past(u, 4), Past(u, 5), Past(u, 6));
    }
  }

  lemma ZeroWord()
    ensures Word(0, 0, 0, 0, 0, 0, 0) == 0
  {}

  lemma NoPast()
    ensures forall d: nat :: Past([], d) == 0
  {}

  function Parity(n: nat): bit { n % 2 }

  function If(tap: bit, b: bit): bit { if tap == 1 then b else 0 }

  /** The lowest tap adds to what the others see. */
  lemma Tap(x: nat, b: bit, a: nat, t: bit, n: nat)
    requires OddOnes(And(x, a)) == Parity(n)
    ensures OddOnes(And(2 * x + b, 2 * a + t)) == Parity(n + If(t, b))
  {
    hide And, OddOnes;
    OnesOfAnd(2 * x + b, 2 * a + t);
    assert (2 * x + b) / 2 == x && (2 * a + t) / 2 == a;
  }

  lemma NoTap()
    ensures OddOnes(And(0, 0)) == Parity(0)
  {}

  /** Seven taps, one after the other. */
  lemma Taps(b0: bit, b1: bit, b2: bit, b3: bit, b4: bit, b5: bit, b6: bit,
             t0: bit, t1: bit, t2: bit, t3: bit, t4: bit, t5: bit, t6: bit)
    ensures OddOnes(And(Word(b0, b1, b2, b3, b4, b5, b6), Word(t0, t1, t2, t3, t4, t5, t6)))
            == Parity(If(t6, b6) + If(t5, b5) + If(t4, b4) + If(t3, b3) + If(t2, b2) + If(t1, b1) + If(t0, b0))
  {
    hide And, OddOnes, If, Parity;
    var x5, a5, n5 := 2 * b6 + b5, 2 * t6 + t5, If(t6, b6) + If(t5, b5);
    var x4, a4, n4 := 2 * x5 + b4, 2 * a5 + t4, n5 + If(t4, b4);
    var x3, a3, n3 := 2 * x4 + b3, 2 * a4 + t3, n4 + If(t3, b3);
    var x2, a2, n2 := 2 * x3 + b2, 2 * a3 + t2, n3 + If(t2, b2);
    var x1, a1, n1 := 2 * x2 + b1, 2 * a2 + t1, n2 + If(t1, b1);
    NoTap();
    Tap(0, b6, 0, t6, 0);
    Tap(b6, b5, t6, t5, If(t6, b6));
    Tap(x5, b4, a5, t4, n5);
    Tap(x4, b3, a4, t3, n4);
    Tap(x3, b2, a3, t2, n3);
    Tap(x2, b1, a2, t1, n2);
    Tap(x1, b0, a1, t0, n1);
  }

  lemma Plain(n: nat, p: int, register: nat)
    requires p >= 0 && OddOnes(And(register, p)) == Parity(n)
    ensures Output(p, register) == Parity(n)
  {
    hide And, OddOnes;
  }

  lemma Complemented(n: nat, p: int, register: nat)
    requires p < 0 && OddOnes(And(register, -p)) == Parity(n)
    ensures Output(p, register) == Parity(1 + n)
  {
    hide And, OddOnes;
  }

  lemma FirstOutput(b0: bit, b1: bit, b2: bit, b3: bit, b4: bit, b5: bit, b6: bit)
    ensures Output(CCSDS.p0, Word(b0, b1, b2, b3, b4, b5, b6)) == Parity(b0 + b1 + b2 + b3 + b6)
  {
    hide And, OddOnes, Output, Parity;
    Taps(b0, b1, b2, b3, b4, b5, b6, 1, 1, 1, 1, 0, 0, 1);
    Plain(b0 + b1 + b2 + b3 + b6, CCSDS.p0, Word(b0, b1, b2, b3, b4, b5, b6));
  }

  lemma SecondOutput(b0: bit, b1: bit, b2: bit, b3: bit, b4: bit, b5: bit, b6: bit)
    ensures Output(CCSDS.p1, Word(b0, b1, b2, b3, b4, b5, b6)) == Parity(1 + b0 + b2 + b3 + b5 + b6)
  {
    hide And, OddOnes, Output, Parity;
    Taps(b0, b1, b2, b3, b4, b5, b6, 1, 0, 1, 1, 0, 1, 1);
    Complemented(b0 + b2 + b3 + b5 + b6, CCSDS.p1, Word(b0, b1, b2, b3, b4, b5, b6));
  }

  /** The last symbol of a codeword sums the newest input and those 1, 2, 3 and 6 steps before it, and, inverted, the
      newest one and those 2, 3, 5 and 6 steps before it. */
  lemma LastSymbol(u: seq<bit>)
    requires u != []
    ensures Last(Codeword(CCSDS, 0, u)).y0 == (Past(u, 0) + Past(u, 1) + Past(u, 2) + Past(u, 3) + Past(u, 6)) % 2
    ensures Last(Codeword(CCSDS, 0, u)).y1 == (1 + Past(u, 0) + Past(u, 2) + Past(u, 3) + Past(u, 5) + Past(u, 6)) % 2
  {
    hide Past, Codeword, Output, StateAfter, Word;
    CodewordStep(CCSDS, 0, u);
    StateIsPast(Front(u));
    PastOfFront(u, 0); PastOfFront(u, 1); PastOfFront(u, 2); PastOfFront(u, 3); PastOfFront(u, 4); PastOfFront(u, 5);
    Doubled(Past(u, 0), Past(u, 1), Past(u, 2), Past(u, 3), Past(u, 4), Past(u, 5), Past(u, 6));
    FirstOutput(Past(u, 0), Past(u, 1), Past(u, 2), Past(u, 3), Past(u, 4), Past(u, 5), Past(u, 6));
    SecondOutput(Past(u, 0), Past(u, 1), Past(u, 2), Past(u, 3), Past(u, 4), Past(u, 5), Past(u, 6));
  }
}
