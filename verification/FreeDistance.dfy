/** The free distance of the CCSDS code: different messages that start and end in state 0 differ in at least ten code
    bits, so that any four wrong bits in a block are corrected. */
module FreeDistance {
  import opened Arithmetic
  import opened Bits
  import opened ExclusiveOr
  import opened PackedTrellis
  import opened PackedViterbi
  import opened Sequences
  import opened Trellis

  // ---------------------------------------------------------------- the code is linear

  function Differ(x: bit, y: bit): bit { if x == y then 0 else 1 }

  function SumBits(u: seq<bit>, v: seq<bit>): (w: seq<bit>)
    requires |u| == |v|
    ensures |w| == |u|
  {
    if u == [] then [] else SumBits(Front(u), Front(v)) + [Differ(Last(u), Last(v))]
  }

  lemma LowIsMod(x: nat)
    ensures Low(x, 6) == x % 64
  {
    EightBits();
    SplitBits(x, 6);
    LowBound(x, 6);
    DivModUnique(x, 64, High(x, 6), Low(x, 6));
  }

  lemma NextStateIsLinear(a: nat, b: nat, x: bit, y: bit)
    ensures NextState(Xor(a, b), Differ(x, y)) == Xor(NextState(a, x), NextState(b, y))
    ensures 2 * Xor(a, b) + Differ(x, y) == Xor(2 * a + x, 2 * b + y)
  {
    hide Xor, Low, NextState;
    assert (x + y) % 2 == Differ(x, y);
    XorOfParts(a, b, x, y);
    XorLow(2 * a + x, 2 * b + y, 6);
    LowIsMod(2 * a + x);
    LowIsMod(2 * b + y);
    LowIsMod(Xor(2 * a + x, 2 * b + y));
    NextUnfolds(a, x);
    NextUnfolds(b, y);
    NextUnfolds(Xor(a, b), Differ(x, y));
  }

  lemma {:induction false} StateIsLinear(u: seq<bit>, v: seq<bit>)
    requires |u| == |v|
    ensures StateAfter(0, SumBits(u, v)) == Xor(StateAfter(0, u), StateAfter(0, v))
    decreases |u|
  {
    hide NextState, Xor;
    if u == [] {
      XorZero(0);
    } else {
      StateIsLinear(Front(u), Front(v));
      FrontOfAppend(SumBits(Front(u), Front(v)), Differ(Last(u), Last(v)));
      NextStateIsLinear(StateAfter(0, Front(u)), StateAfter(0, Front(v)), Last(u), Last(v));
    }
  }

  lemma {:induction false} AndIsLinear(a: nat, b: nat, m: nat)
    ensures And(Xor(a, b), m) == Xor(And(a, m), And(b, m))
    decreases m
  {
    hide *;
    if m == 0 {
      AndNothing(a); AndNothing(b); AndNothing(Xor(a, b));
      XorZero(0);
    } else {
      AndIsLinear(a / 2, b / 2, m / 2);
      XorHalves(a, b);
      AndByHalves(a, m); AndByHalves(b, m); AndByHalves(Xor(a, b), m);
      ParityOfSum(a, b);
      XorOfParts(And(a / 2, m / 2), And(b / 2, m / 2), OnlyIf(a, m), OnlyIf(b, m));
      OnlyIfSums(a, b, m, Xor(a, b));
    }
  }

  function OnlyIf(x: nat, m: nat): bit { if x % 2 == 1 && m % 2 == 1 then 1 else 0 }

  lemma OnlyIfSums(a: nat, b: nat, m: nat, x: nat)
    requires x % 2 == if a % 2 == b % 2 then 0 else 1
    ensures (OnlyIf(a, m) + OnlyIf(b, m)) % 2 == OnlyIf(x, m)
  {}

  lemma AndNothing(a: nat)
    ensures And(a, 0) == 0
  {}

  lemma AndByHalves(x: nat, m: nat)
    ensures And(x, m) == 2 * And(x / 2, m / 2) + OnlyIf(x, m)
  {
    assert x % 2 * (m % 2) == OnlyIf(x, m);
  }

  function One(b: bool): bit { if b then 1 else 0 }

  predicate Odd(x: nat) { x % 2 == 1 }

  /** What the taps of polynomial 0x4f make of register bits 6, 3, 2, 1 and 0. */
  function TapB(b6: bool, b3: bool, b2: bool, b1: bool, b0: bool): bit { One((((b6 != b3) != b2) != b1) != b0) }

  /** What the taps of polynomial 0x6d make of register bits 6, 5, 3, 2 and 0. */
  function TapA(b6: bool, b5: bool, b3: bool, b2: bool, b0: bool): bit { One((((b6 != b5) != b3) != b2) != b0) }

  /** How many of the two outputs a register of seven bits flips. */
  function RegisterWeight(r: nat): nat {
    var h := r / 2; var h2 := h / 2; var h3 := h2 / 2; var h4 := h3 / 2; var h5 := h4 / 2; var h6 := h5 / 2;
    TapB(Odd(h6), Odd(h3), Odd(h2), Odd(h), Odd(r)) + TapA(Odd(h6), Odd(h5), Odd(h3), Odd(h2), Odd(r))
  }

  lemma OnesTapped(x: nat, a: nat)
    requires a % 2 == 1
    ensures OddOnes(And(x, a)) == Differ(OddOnes(And(x / 2, a / 2)), One(Odd(x)))
  {
    hide And, OddOnes;
    OnesOfAnd(x, a);
  }

  lemma OnesSkipped(x: nat, a: nat)
    requires a % 2 == 0
    ensures OddOnes(And(x, a)) == OddOnes(And(x / 2, a / 2))
  {
    hide And, OddOnes;
    OnesOfAnd(x, a);
  }

  lemma OnesNone(x: nat)
    ensures OddOnes(And(x, 0)) == 0
  {}

  lemma OnesOfB(r: nat)
    ensures var h := r / 2; var h2 := h / 2; var h3 := h2 / 2; var h4 := h3 / 2; var h5 := h4 / 2; var h6 := h5 / 2;
            OddOnes(And(r, 0x4f)) == TapB(Odd(h6), Odd(h3), Odd(h2), Odd(h), Odd(r))
  {
    hide And, OddOnes, Odd;
    var h := r / 2; var h2 := h / 2; var h3 := h2 / 2; var h4 := h3 / 2; var h5 := h4 / 2; var h6 := h5 / 2;
    OnesTapped(r, 0x4f); OnesTapped(h, 0x27); OnesTapped(h2, 0x13); OnesTapped(h3, 0x9);
    OnesSkipped(h4, 0x4); OnesSkipped(h5, 0x2); OnesTapped(h6, 0x1);
    OnesNone(h6 / 2);
  }

  lemma OnesOfA(r: nat)
    ensures var h := r / 2; var h2 := h / 2; var h3 := h2 / 2; var h4 := h3 / 2; var h5 := h4 / 2; var h6 := h5 / 2;
            OddOnes(And(r, 0x6d)) == TapA(Odd(h6), Odd(h5), Odd(h3), Odd(h2), Odd(r))
  {
    hide And, OddOnes, Odd;
    var h := r / 2; var h2 := h / 2; var h3 := h2 / 2; var h4 := h3 / 2; var h5 := h4 / 2; var h6 := h5 / 2;
    OnesTapped(r, 0x6d); OnesSkipped(h, 0x36); OnesTapped(h2, 0x1b); OnesTapped(h3, 0xd);
    OnesSkipped(h4, 0x6); OnesTapped(h5, 0x3); OnesTapped(h6, 0x1);
    OnesNone(h6 / 2);
  }

  lemma OnesAreTaps(r: nat)
    ensures OddOnes(And(r, 0x4f)) + OddOnes(And(r, 0x6d)) == RegisterWeight(r)
  {
    hide And, OddOnes, Odd, TapA, TapB;
    OnesOfB(r);
    OnesOfA(r);
  }

  /** Two registers differ in as many outputs as their sum flips. */
  lemma MissIsWeight(r: nat, s: nat)
    ensures Miss(OutputOf(CCSDS, r), OutputOf(CCSDS, s)) == RegisterWeight(Xor(r, s))
  {
    hide And, OddOnes, Xor, RegisterWeight;
    OnesAreTaps(Xor(r, s));
    OutputsDiffer(0x4f, r, s);
    OutputsDiffer(-0x6d, r, s);
  }

  lemma OutputsDiffer(p: int, r: nat, s: nat)
    ensures OddOnes(And(Xor(r, s), Abs(p))) == if Output(p, r) != Output(p, s) then 1 else 0
  {
    hide And, OddOnes, Xor;
    AndIsLinear(r, s, Abs(p));
    OnesOfXor(And(r, Abs(p)), And(s, Abs(p)));
  }

  /** The number of code bits that a difference between messages flips. */
  function Weight(w: seq<bit>): nat {
    if w == [] then 0 else Weight(Front(w)) + RegisterWeight(2 * StateAfter(0, Front(w)) + Last(w))
  }

  lemma WeightUnfolds(w: seq<bit>)
    requires w != []
    ensures Weight(w) == Weight(Front(w)) + RegisterWeight(2 * StateAfter(0, Front(w)) + Last(w))
  {
    hide RegisterWeight, StateAfter;
  }

  lemma SumUnfolds(u: seq<bit>, v: seq<bit>)
    requires |u| == |v| > 0
    ensures var w := SumBits(u, v); w != [] && Front(w) == SumBits(Front(u), Front(v)) && Last(w) == Differ(Last(u), Last(v))
  {
    FrontOfAppend(SumBits(Front(u), Front(v)), Differ(Last(u), Last(v)));
  }

  lemma NothingDiffers(u: seq<bit>, v: seq<bit>)
    requires |u| == |v| == 0
    ensures Distance(CCSDS, 0, u, Codeword(CCSDS, 0, v)) == Weight(SumBits(u, v)) == 0
  {}

  lemma {:induction false} DistanceIsWeight(u: seq<bit>, v: seq<bit>)
    requires |u| == |v|
    ensures Distance(CCSDS, 0, u, Codeword(CCSDS, 0, v)) == Weight(SumBits(u, v))
    decreases |u|
  {
    hide *;
    if u == [] {
      NothingDiffers(u, v);
    } else {
      DistanceIsWeight(Front(u), Front(v));
      var a, b := StateAfter(0, Front(u)), StateAfter(0, Front(v));
      SumUnfolds(u, v);
      WeightUnfolds(SumBits(u, v));
      CodewordStep(CCSDS, 0, v);
      DistanceStep(CCSDS, 0, u, Codeword(CCSDS, 0, v));
      StateIsLinear(Front(u), Front(v));
      NextStateIsLinear(a, b, Last(u), Last(v));
      MissIsWeight(2 * a + Last(u), 2 * b + Last(v));
    }
  }

  lemma {:induction false} TriangleInequality(u: seq<bit>, v: seq<bit>, received: seq<Symbol>)
    requires |u| == |v| == |received|
    ensures Distance(CCSDS, 0, u, Codeword(CCSDS, 0, v)) <= Distance(CCSDS, 0, u, received) + Distance(CCSDS, 0, v, received)
    decreases |u|
  {
    hide OutputOf, StateAfter;
    if u != [] {
      TriangleInequality(Front(u), Front(v), Front(received));
      FrontOfAppend(Codeword(CCSDS, 0, Front(v)), OutputOf(CCSDS, 2 * StateAfter(0, Front(v)) + Last(v)));
    }
  }

  // ---------------------------------------------------------------- the lightest way back to state 0

  function Pick(a: bool, b: bool, c: bool, v0: nat, v1: nat, v2: nat, v3: nat, v4: nat, v5: nat, v6: nat, v7: nat): nat {
    if a then (if b then (if c then v7 else v6) else (if c then v5 else v4))
    else (if b then (if c then v3 else v2) else (if c then v1 else v0))
  }

  /** The least weight of any way back to state 0, by the bits of the state. */
  function Table(b5: bool, b4: bool, b3: bool, b2: bool, b1: bool, b0: bool): nat {
    Pick(b5, b4, b3,
      Pick(b2, b1, b0, 0, 8, 7, 7, 5, 7, 6, 6),
      Pick(b2, b1, b0, 3, 5, 6, 6, 6, 6, 5, 7),
      Pick(b2, b1, b0, 3, 7, 4, 6, 6, 6, 5, 7),
      Pick(b2, b1, b0, 4, 6, 7, 5, 5, 7, 6, 6),
      Pick(b2, b1, b0, 2, 8, 5, 7, 3, 7, 6, 6),
      Pick(b2, b1, b0, 5, 5, 6, 6, 4, 6, 7, 7),
      Pick(b2, b1, b0, 3, 5, 4, 6, 6, 6, 5, 7),
      Pick(b2, b1, b0, 4, 4, 7, 7, 5, 7, 6, 6))
  }

  /** A branch brings the way back no closer than its weight. */
  lemma TableDrops(b5: bool, b4: bool, b3: bool, b2: bool, b1: bool, b0: bool, x: bool)
    requires b5 || b4 || b3 || b2 || b1 || b0
    ensures Table(b5, b4, b3, b2, b1, b0)
            <= TapB(b5, b2, b1, b0, x) + TapA(b5, b4, b2, b1, x) + Table(b4, b3, b2, b1, b0, x)
  {}

  function WayBack(s: nat): nat {
    var h := s / 2; var h2 := h / 2; var h3 := h2 / 2; var h4 := h3 / 2; var h5 := h4 / 2;
    Table(Odd(h5), Odd(h4), Odd(h3), Odd(h2), Odd(h), Odd(s))
  }

  lemma SomeBit(s: nat)
    requires 0 < s < 64
    ensures var h := s / 2; var h2 := h / 2; var h3 := h2 / 2; var h4 := h3 / 2; var h5 := h4 / 2;
            Odd(s) || Odd(h) || Odd(h2) || Odd(h3) || Odd(h4) || Odd(h5)
  {}

  lemma NewestBit(s: nat, x: bit)
    ensures var r := 2 * s + x; r / 2 == s && Odd(r) == (x == 1)
  {}

  lemma WayBackDrops(s: nat, x: bit)
    requires 0 < s < 64
    ensures WayBack(s) <= RegisterWeight(2 * s + x) + WayBack(NextState(s, x))
  {
    hide Table, TapA, TapB;
    hide Odd, NextState;
    var h := s / 2; var h2 := h / 2; var h3 := h2 / 2; var h4 := h3 / 2; var h5 := h4 / 2;
    SomeBit(s);
    TableDrops(Odd(h5), Odd(h4), Odd(h3), Odd(h2), Odd(h), Odd(s), x == 1);
    var r := 2 * s + x;
    assert r / 2 == s && Odd(r) == (x == 1) by { NewestBit(s, x); }
    NextBits(s, x);
  }

  lemma NextTop(s: nat, x: bit, d: nat)
    requires s < 64 && d == if s < 32 then 0 else 32
    ensures var n := NextState(s, x); n == 2 * (s - d) + x && n / 2 == s - d && Odd(n) == (x == 1)
  {
    if s < 32 { assert NextState(s, x) == 2 * s + x; } else { assert NextState(s, x) == 2 * (s - 32) + x; }
  }

  lemma LessEven(a: nat, c: nat)
    ensures a >= 2 * c ==> (a - 2 * c) / 2 == a / 2 - c && Odd(a - 2 * c) == Odd(a)
  {}

  /** The lower bits do not depend on the top one. */
  lemma WithoutTop(s: nat)
    requires 32 <= s < 64
    ensures var k := s - 32; var k2 := k / 2; var k3 := k2 / 2; var k4 := k3 / 2; var k5 := k4 / 2;
            var h := s / 2; var h2 := h / 2; var h3 := h2 / 2; var h4 := h3 / 2;
            && Odd(k) == Odd(s) && Odd(k2) == Odd(h) && Odd(k3) == Odd(h2) && Odd(k4) == Odd(h3) && Odd(k5) == Odd(h4)
  {
    hide *;
    LessEven(s, 16);
    LessEven(s / 2, 8);
    LessEven(s / 2 / 2, 4);
    LessEven(s / 2 / 2 / 2, 2);
    LessEven(s / 2 / 2 / 2 / 2, 1);
  }

  lemma NextBits(s: nat, x: bit)
    requires s < 64
    ensures var n := NextState(s, x); var k := n / 2; var k2 := k / 2; var k3 := k2 / 2; var k4 := k3 / 2; var k5 := k4 / 2;
            var h := s / 2; var h2 := h / 2; var h3 := h2 / 2; var h4 := h3 / 2;
            && Odd(n) == (x == 1) && Odd(k) == Odd(s) && Odd(k2) == Odd(h) && Odd(k3) == Odd(h2) && Odd(k4) == Odd(h3)
            && Odd(k5) == Odd(h4)
  {
    hide *;
    NextTop(s, x, if s < 32 then 0 else 32);
    if s >= 32 { WithoutTop(s); }
  }

  predicate AllZero(w: seq<bit>) { forall i :: 0 <= i < |w| ==> w[i] == 0 }

  lemma {:induction false} ZerosStay(w: seq<bit>)
    requires AllZero(w)
    ensures StateAfter(0, w) == 0
  {
    if w != [] { ZerosStay(Front(w)); }
  }

  /** Once it has left state 0, a message has flipped ten code bits or still needs the rest to come back. */
  lemma {:induction false} DetourWeight(w: seq<bit>)
    requires !AllZero(w)
    ensures Weight(w) + WayBack(StateAfter(0, w)) >= 10
    decreases |w|
  {
    hide WayBack, RegisterWeight, NextState;
    FrontLast(w);
    StateBelow(0, Front(w));
    var s := StateAfter(0, Front(w));
    if AllZero(Front(w)) {
      ZerosStay(Front(w));
      assert Last(w) == 1;
      FirstStep();
    } else {
      DetourWeight(Front(w));
      if s == 0 { HomeIsNear(); } else { WayBackDrops(s, Last(w)); }
    }
  }

  lemma FirstStep()
    ensures NextState(0, 1) == 1 && RegisterWeight(2 * 0 + 1) == 2 && WayBack(1) == 8
  {}

  lemma HomeIsNear()
    ensures WayBack(0) == 0
  {}

  /** The free distance: different messages of equal length that lead from state 0 to state 0 have codewords that
      differ in at least ten bits. */
  lemma DifferentMessagesAreFar(u: seq<bit>, v: seq<bit>)
    requires |u| == |v| && u != v && StateAfter(0, u) == 0 && StateAfter(0, v) == 0
    ensures Distance(CCSDS, 0, u, Codeword(CCSDS, 0, v)) >= 10
  {
    hide WayBack, StateAfter, Weight, Distance, Xor;
    var w := SumBits(u, v);
    if AllZero(w) { SumIsZeroOnlyIfEqual(u, v); }
    DetourWeight(w);
    StateIsLinear(u, v);
    XorZero(0);
    HomeIsNear();
    DistanceIsWeight(u, v);
  }

  lemma {:induction false} SumIsZeroOnlyIfEqual(u: seq<bit>, v: seq<bit>)
    requires |u| == |v| && AllZero(SumBits(u, v))
    ensures u == v
    decreases |u|
  {
    if u != [] {
      var f := SumBits(Front(u), Front(v));
      assert forall i :: 0 <= i < |f| ==> f[i] == SumBits(u, v)[i];
      SumIsZeroOnlyIfEqual(Front(u), Front(v));
      assert SumBits(u, v)[|u| - 1] == Differ(Last(u), Last(v));
      FrontLast(u);
      FrontLast(v);
    }
  }

  /** With at most four wrong bits the message sent is the chosen one. */
  lemma FourErrors(u: seq<bit>, received: seq<Symbol>)
    requires |u| == |received| && StateAfter(0, u) == 0 && Distance(CCSDS, 0, u, received) <= 4
    ensures Chosen(CCSDS, 0, 0, u, received)
  {
    hide StateAfter, Distance;
    forall v: seq<bit> | |v| == |received| && StateAfter(0, v) == 0 ensures Preferred(CCSDS, 0, u, v, received) {
      if u == v {
        NotAfterItself(Visited(0, u));
      } else {
        DifferentMessagesAreFar(u, v);
        TriangleInequality(u, v, received);
      }
    }
  }

  lemma {:induction false} NotAfterItself(p: seq<nat>)
    ensures NotAfter(p, p)
    decreases |p|
  {
    if p != [] { NotAfterItself(Front(p)); }
  }
}
