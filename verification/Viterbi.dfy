/** The generic convolutional code of ViterbiCodec: what is sent for a message, and which message is chosen
    for what is received. */
module Viterbi {
  import opened Bits
  import opened Sequences
  import opened Trellis

  const INT_MAX: nat := 0x7fff_ffff

  /** The number of places where two strings differ. */
  function HammingDistance(x: string, y: string): (d: nat)
    ensures d <= |x|
  {
    if x == "" || y == "" then 0
    else HammingDistance(Front(x), Front(y)) + (if Last(x) != Last(y) then 1 else 0)
  }

  /** The places where two strings of one length differ. */
  function DifferentPlaces(x: string, y: string): set<nat>
    requires |x| == |y|
  {
    set i: nat | i < |x| && x[i] != y[i]
  }

  lemma {:induction false} HammingCountsPlaces(x: string, y: string)
    requires |x| == |y|
    ensures HammingDistance(x, y) == |DifferentPlaces(x, y)|
    decreases |x|
  {
    if x != "" {
      var n := |x| - 1;
      HammingCountsPlaces(Front(x), Front(y));
      var before := DifferentPlaces(Front(x), Front(y));
      if x[n] != y[n] {
        assert DifferentPlaces(x, y) == before + {n};
      } else {
        assert DifferentPlaces(x, y) == before;
      }
    }
  }

  function ToChar(b: bit): char { if b == 1 then '1' else '0' }

  function Chars(u: seq<bit>): (s: string)
    ensures |s| == |u|
  {
    seq(|u|, i requires 0 <= i < |u| => ToChar(u[i]))
  }

  predicate IsBitString(s: string) {
    forall i :: 0 <= i < |s| ==> s[i] == '0' || s[i] == '1'
  }

  function BitsOf(s: string): (u: seq<bit>)
    ensures |u| == |s|
  {
    seq(|s|, i requires 0 <= i < |s| => if s[i] == '1' then 1 else 0)
  }

  /** A received string cut into symbols of n characters; missing characters at the end count as zeros. */
  function Symbols(received: string, n: nat): (ss: seq<string>)
    requires n > 0
  {
    if received == "" then []
    else if |received| < n then [received + Chars(Zeros(n - |received|))]
    else [received[..n]] + Symbols(received[n..], n)
  }

  function Flatten(ss: seq<string>): string {
    if ss == [] then "" else Flatten(Front(ss)) + Last(ss)
  }

  lemma {:induction false} FlattenFirst(s: string, ss: seq<string>)
    ensures Flatten([s] + ss) == s + Flatten(ss)
    decreases |ss|
  {
    if ss == [] {
      assert [s] + ss == [s] && Front([s]) == [];
      assert Flatten([]) + s == s && s + Flatten([]) == s;
    } else {
      FlattenFirst(s, Front(ss));
      assert Front([s] + ss) == [s] + Front(ss);
      assert s + Flatten(Front(ss)) + Last(ss) == s + (Flatten(Front(ss)) + Last(ss));
    }
  }

  /** The symbols are the received characters in order, followed by fewer than n zeros. */
  lemma {:induction false} SymbolsSpellReceived(received: string, n: nat) returns (missing: nat)
    requires n > 0
    ensures missing < n && Flatten(Symbols(received, n)) == received + seq(missing, _ => '0')
    decreases |received|
  {
    if received == "" {
      missing := 0;
    } else if |received| < n {
      missing := n - |received|;
      var s := received + Chars(Zeros(missing));
      assert Chars(Zeros(missing)) == seq(missing, _ => '0');
      assert Symbols(received, n) == [s] && Front([s]) == [];
      assert Flatten([]) + s == s;
    } else {
      missing := SymbolsSpellReceived(received[n..], n);
      FlattenFirst(received[..n], Symbols(received[n..], n));
      assert received[..n] + (received[n..] + seq(missing, _ => '0')) == received + seq(missing, _ => '0');
    }
  }

  datatype Parameters = Parameters(constraint: nat, polynomials: seq<nat>)

  /** What the constructor of ViterbiCodec accepts. */
  ghost predicate Accepted(c: Parameters) {
    && c.constraint >= 2
    && c.polynomials != []
    && forall j :: 0 <= j < |c.polynomials| ==> 0 < c.polynomials[j] < Pow2(c.constraint)
  }

  type Code = c: Parameters | Accepted(c) ghost witness OnlyTap()

  ghost function OnlyTap(): (c: Parameters)
    ensures Accepted(c)
  {
    assert Pow2(2) == 2 * Pow2(1);
    Parameters(2, [1])
  }

  function Half(code: Code): nat { Pow2(code.constraint - 2) }

  function States(code: Code): nat { 2 * Half(code) }

  /** The register moves down one place and the input enters at the top. */
  function NextState(code: Code, state: nat, input: bit): nat {
    state / 2 + input * Half(code)
  }

  function Register(code: Code, state: nat, input: bit): nat {
    state + input * States(code)
  }

  /** The parity of the register bits that taps d and above of a polynomial select. Tap 0 sees the current
      input, which is the top bit of the register. */
  function Parity(polynomial: nat, register: nat, constraint: nat, d: nat): bit
    requires d <= constraint
    decreases constraint - d
  {
    if d == constraint then 0
    else (Parity(polynomial, register, constraint, d + 1)
          + Bit(polynomial, d) * Bit(register, constraint - 1 - d)) % 2
  }

  function OutputOf(code: Code, register: nat): (s: string)
    ensures |s| == |code.polynomials|
  {
    Chars(seq(|code.polynomials|, j requires 0 <= j < |code.polynomials| =>
      Parity(code.polynomials[j], register, code.constraint, 0)))
  }

  function StateAfter(code: Code, u: seq<bit>): nat {
    if u == [] then 0 else NextState(code, StateAfter(code, Front(u)), Last(u))
  }

  lemma {:induction false} StateBelow(code: Code, u: seq<bit>)
    ensures StateAfter(code, u) < States(code)
    decreases |u|
  {
    if u != [] { StateBelow(code, Front(u)); }
  }

  /** The symbols sent for the inputs u, from state 0. */
  function Codeword(code: Code, u: seq<bit>): (c: seq<string>)
    ensures |c| == |u|
  {
    if u == [] then []
    else Codeword(code, Front(u)) + [OutputOf(code, Register(code, StateAfter(code, Front(u)), Last(u)))]
  }

  /** How far the codeword of u is from the received symbols. */
  function Distance(code: Code, u: seq<bit>, received: seq<string>): nat {
    HammingDistance(Flatten(received), Flatten(Codeword(code, u)))
  }

  /** The states visited, from state 0 on. */
  ghost function Visited(code: Code, u: seq<bit>): (p: seq<nat>)
    ensures |p| == |u| + 1
  {
    if u == [] then [0] else Visited(code, Front(u)) + [StateAfter(code, u)]
  }

  /** u is a maximum-likelihood message for the received symbols. Among several it is the one whose
      last state that differs from the other's is smaller. */
  ghost predicate Chosen(code: Code, u: seq<bit>, received: seq<string>) {
    && |u| == |received|
    && forall v: seq<bit> :: |v| == |received| ==> Preferred(code, u, v, received)
  }

  ghost predicate Preferred(code: Code, u: seq<bit>, v: seq<bit>, received: seq<string>)
    requires |u| == |v|
  {
    Distance(code, u, received) < Distance(code, v, received) ||
    (Distance(code, u, received) == Distance(code, v, received) && NotAfter(Visited(code, u), Visited(code, v)))
  }

  // ---------------------------------------------------------------- the encoder computes a convolution

  /** Entry t of the GF(2) convolution of u with taps d and above of the polynomial. */
  function Convolution(polynomial: nat, u: seq<bit>, t: nat, constraint: nat, d: nat): bit
    requires t < |u| && d <= constraint
    decreases constraint - d
  {
    if d == constraint then 0
    else (Convolution(polynomial, u, t, constraint, d + 1)
          + Bit(polynomial, d) * (if d <= t then u[t - d] else 0)) % 2
  }

  /** The state holds the last constraint - 1 inputs, newest in the top bit. */
  lemma {:induction false} StateHoldsInputs(code: Code, u: seq<bit>, i: nat)
    requires i <= code.constraint - 2
    ensures Bit(StateAfter(code, u), code.constraint - 2 - i) == if i < |u| then u[|u| - 1 - i] else 0
    decreases |u|
  {
    var k := code.constraint - 2;
    if u == [] {
      BitOfZero(k - i);
    } else {
      var s := StateAfter(code, Front(u));
      StateBelow(code, Front(u));
      BitAbove(s / 2, Last(u), k, k - i);
      if i > 0 {
        StateHoldsInputs(code, Front(u), i - 1);
        assert Bit(s / 2, k - i) == Bit(s, k - i + 1);
      }
    }
  }

  lemma {:induction false} ParityIsConvolution(code: Code, polynomial: nat, u: seq<bit>, d: nat)
    requires u != [] && d <= code.constraint
    ensures Parity(polynomial, Register(code, StateAfter(code, Front(u)), Last(u)), code.constraint, d)
            == Convolution(polynomial, u, |u| - 1, code.constraint, d)
    decreases code.constraint - d
  {
    hide Bit;
    if d < code.constraint {
      ParityIsConvolution(code, polynomial, u, d + 1);
      RegisterHoldsInputs(code, u, d);
    }
  }

  /** The register holds the last constraint inputs, newest in the top bit. */
  lemma RegisterHoldsInputs(code: Code, u: seq<bit>, d: nat)
    requires u != [] && d < code.constraint
    ensures Bit(Register(code, StateAfter(code, Front(u)), Last(u)), code.constraint - 1 - d)
            == if d < |u| then u[|u| - 1 - d] else 0
  {
    hide Bit;
    var c := code.constraint;
    StateBelow(code, Front(u));
    BitAbove(StateAfter(code, Front(u)), Last(u), c - 1, c - 1 - d);
    if d > 0 { StateHoldsInputs(code, Front(u), d - 1); }
  }

  /** A convolution only sees the inputs up to its time. */
  lemma {:induction false} ConvolutionIsCausal(polynomial: nat, u: seq<bit>, v: seq<bit>, t: nat, constraint: nat, d: nat, i: nat)
    requires t < |u| && t < |v| && d <= constraint && i <= |u| && i <= |v| && u[..i] == v[..i] && t < d + i
    ensures Convolution(polynomial, u, t, constraint, d) == Convolution(polynomial, v, t, constraint, d)
    decreases constraint - d
  {
    hide Bit;
    if d < constraint {
      ConvolutionIsCausal(polynomial, u, v, t, constraint, d + 1, i);
      if d <= t { assert u[..i][t - d] == v[..i][t - d]; }
    }
  }

  /** Symbol t of the codeword holds entry t of the convolution of the inputs with every polynomial. */
  lemma {:induction false} EncoderConvolves(code: Code, u: seq<bit>, t: nat, j: nat)
    requires t < |u| && j < |code.polynomials|
    ensures j < |Codeword(code, u)[t]|
    ensures Codeword(code, u)[t][j] == if Convolution(code.polynomials[j], u, t, code.constraint, 0) == 1 then '1' else '0'
    decreases |u|
  {
    hide Bit;
    if t < |u| - 1 {
      EncoderConvolves(code, Front(u), t, j);
      ConvolutionIsCausal(code.polynomials[j], u, Front(u), t, code.constraint, 0, |u| - 1);
    } else {
      ParityIsConvolution(code, code.polynomials[j], u, 0);
    }
  }

  lemma {:induction false} ClearTapsAddNothing(polynomial: nat, u: seq<bit>, t: nat, constraint: nat, d: nat, e: nat)
    requires t < |u| && d <= e <= constraint
    requires forall i :: d <= i < e ==> Bit(polynomial, i) == 0
    ensures Convolution(polynomial, u, t, constraint, d) == Convolution(polynomial, u, t, constraint, e)
    decreases e - d
  {
    hide Bit;
    if d < e { ClearTapsAddNothing(polynomial, u, t, constraint, d + 1, e); }
  }

  lemma SetTapAddsInput(polynomial: nat, u: seq<bit>, i: nat, constraint: nat, d: nat)
    requires i + d < |u| && d < constraint && Bit(polynomial, d) == 1
    ensures Convolution(polynomial, u, i + d, constraint, d)
            == (Convolution(polynomial, u, i + d, constraint, d + 1) + u[i]) % 2
  {
    hide Bit;
    assert u[i + d - d] == u[i];
  }

  /** The product with a nonzero polynomial determines the next input once the earlier ones are known. */
  lemma NextInputDetermined(polynomial: nat, u: seq<bit>, v: seq<bit>, i: nat, constraint: nat, d: nat)
    requires |u| == |v| && i + d < |u| && d < constraint && u[..i] == v[..i]
    requires Bit(polynomial, d) == 1 && forall e :: 0 <= e < d ==> Bit(polynomial, e) == 0
    requires Convolution(polynomial, u, i + d, constraint, 0) == Convolution(polynomial, v, i + d, constraint, 0)
    ensures u[i] == v[i]
  {
    hide Bit, Convolution;
    ClearTapsAddNothing(polynomial, u, i + d, constraint, 0, d);
    ClearTapsAddNothing(polynomial, v, i + d, constraint, 0, d);
    ConvolutionIsCausal(polynomial, u, v, i + d, constraint, d + 1, i);
    SetTapAddsInput(polynomial, u, i, constraint, d);
    SetTapAddsInput(polynomial, v, i, constraint, d);
  }

  /** Encoding loses no input except possibly the last constraint - 1. */
  lemma {:induction false} EncoderIsInjective(code: Code, u: seq<bit>, v: seq<bit>, i: nat)
    requires |u| == |v| && Codeword(code, u) == Codeword(code, v)
    requires i + code.constraint <= |u| + 1
    ensures u[..i] == v[..i]
    decreases i
  {
    hide Bit, Codeword, Convolution;
    if i > 0 {
      EncoderIsInjective(code, u, v, i - 1);
      var d := LowestSetBit(code.polynomials[0], code.constraint);
      EncoderConvolves(code, u, i - 1 + d, 0);
      EncoderConvolves(code, v, i - 1 + d, 0);
      NextInputDetermined(code.polynomials[0], u, v, i - 1, code.constraint, d);
      assert u[..i] == u[..i - 1] + [u[i - 1]] && v[..i] == v[..i - 1] + [v[i - 1]];
    }
  }
}
