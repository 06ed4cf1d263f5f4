/** The class ViterbiCodec: a table-driven convolutional encoder and a Viterbi decoder with full traceback. */
module ViterbiCodec {
  import opened Bits
  import opened Sequences
  import opened Trellis
  import opened Viterbi
  import opened ViterbiTrellis

  /** A path metric fits the original's int. */
  type metric = m: nat | m <= INT_MAX

  /** x holds the bits of y from bit k on; shifting it down once more moves on by one bit. */
  ghost predicate Shifted(x: nat, y: nat, k: nat) {
    forall i: nat :: Bit(x, i) == Bit(y, k + i)
  }

  lemma ShiftedBits(x: nat, y: nat, k: nat)
    requires Shifted(x, y, k)
    ensures Shifted(x / 2, y, k + 1) && x % 2 == Bit(y, k)
  {
    forall i: nat ensures Bit(x / 2, i) == Bit(y, k + 1 + i) {
      assert Bit(x, i + 1) == Bit(y, k + (i + 1));
    }
    assert Bit(x, 0) == Bit(y, k + 0);
  }

  lemma BitsBelow(x: nat, b: bit, i: nat)
    ensures Bit(x * 2 + b, i) == if i == 0 then b else Bit(x, i - 1)
  {
    assert (x * 2 + b) / 2 == x;
  }

  method ReverseBits(numBits: nat, input: nat) returns (output: nat)
    requires input < Pow2(numBits)
    ensures output < Pow2(numBits)
    ensures forall i :: 0 <= i < numBits ==> Bit(output, i) == Bit(input, numBits - 1 - i)
  {
    hide Bit;
    output := 0;
    var rest, k := input, 0;
    while k < numBits
      invariant 0 <= k <= numBits && output < Pow2(k) && Shifted(rest, input, k)
      invariant forall i :: 0 <= i < k ==> Bit(output, i) == Bit(input, k - 1 - i)
    {
      ShiftedBits(rest, input, k);
      ghost var next := output * 2 + rest % 2;
      forall i | 0 <= i < k + 1 ensures Bit(next, i) == Bit(input, k - i) {
        BitsBelow(output, rest % 2, i);
      }
      output := output * 2 + rest % 2;
      rest := rest / 2;
      k := k + 1;
    }
  }

  /** The parity of the register bits that a bit-reversed polynomial selects. */
  method TapParity(reversed: nat, register: nat, constraint: nat, ghost polynomial: nat) returns (output: bit)
    requires forall i :: 0 <= i < constraint ==> Bit(reversed, i) == Bit(polynomial, constraint - 1 - i)
    ensures output == Parity(polynomial, register, constraint, 0)
  {
    hide Bit;
    var taps, input, k := reversed, register, 0;
    output := 0;
    while k < constraint
      invariant 0 <= k <= constraint && Shifted(taps, reversed, k) && Shifted(input, register, k)
      invariant output == Parity(polynomial, register, constraint, constraint - k)
    {
      ShiftedBits(taps, reversed, k);
      ShiftedBits(input, register, k);
      output := (output + (taps % 2) * (input % 2)) % 2;
      taps, input, k := taps / 2, input / 2, k + 1;
    }
  }

  /** Everything that one add-compare-select step adds up fits the original's int. */
  ghost predicate NoOverflow(code: Code, prev: seq<nat>, symbol: string, state: nat) {
    var b := BranchInto(code, symbol, state);
    && b.src0 < |prev| && b.src1 < |prev|
    && (prev[b.src0] < INT_MAX ==> prev[b.src0] + b.cost0 < INT_MAX)
    && (prev[b.src1] < INT_MAX ==> prev[b.src1] + b.cost1 < INT_MAX)
  }

  class ViterbiCodec {
    const code: Code
    var outputs: seq<string>

    ghost predicate Valid()
      reads this
    {
      && |outputs| == Pow2(code.constraint)
      && forall i :: 0 <= i < |outputs| ==> outputs[i] == OutputOf(code, i)
    }

    constructor (constraint: nat, polynomials: seq<nat>)
      requires Accepted(Parameters(constraint, polynomials))
      ensures Valid() && code == Parameters(constraint, polynomials)
    {
      code := Parameters(constraint, polynomials);
      outputs := [];
      new;
      InitializeOutputs();
    }

    method InitializeOutputs()
      modifies this
      ensures Valid()
    {
      outputs := seq(Pow2(code.constraint), _ => "");
      for i := 0 to |outputs|
        invariant |outputs| == Pow2(code.constraint)
        invariant forall h :: 0 <= h < i ==> outputs[h] == OutputOf(code, h)
        invariant forall h :: i <= h < |outputs| ==> outputs[h] == ""
      {
        for j := 0 to |code.polynomials|
          invariant |outputs| == Pow2(code.constraint)
          invariant forall h :: 0 <= h < i ==> outputs[h] == OutputOf(code, h)
          invariant outputs[i] == OutputOf(code, i)[..j]
          invariant forall h :: i < h < |outputs| ==> outputs[h] == ""
        {
          var reversed := ReverseBits(code.constraint, code.polynomials[j]);
          var output := TapParity(reversed, i, code.constraint, code.polynomials[j]);
          outputs := outputs[i := outputs[i] + [if output != 0 then '1' else '0']];
        }
      }
    }

    /** The table lookup. */
    function Output(state: nat, input: bit): (s: string)
      requires Valid() && state < States(code)
      reads this
      ensures s == OutputOf(code, Register(code, state, input))
    {
      assert Pow2(code.constraint) == 2 * States(code);
      outputs[Register(code, state, input)]
    }

    /** The encoding is the codeword of the message followed by constraint - 1 flushing zeros. */
    method Encode(bits: string) returns (encoded: string)
      requires Valid() && IsBitString(bits)
      ensures encoded == Flatten(Codeword(code, BitsOf(bits) + Zeros(code.constraint - 1)))
    {
      hide OutputOf, Flatten, Codeword, StateAfter, NextState, Pow2, States, Register;
      ghost var u := BitsOf(bits) + Zeros(code.constraint - 1);
      encoded := "";
      var state: nat := 0;
      EncodeStart(code);
      for i := 0 to |bits|
        invariant state == StateAfter(code, u[..i]) && encoded == Flatten(Codeword(code, u[..i]))
      {
        EncodeStep(code, u, i);
        assert u[i] == if bits[i] == '1' then 1 else 0;
        var input: bit := if bits[i] == '1' then 1 else 0;
        encoded := encoded + Output(state, input);
        state := NextState(code, state, input);
      }
      for i := 0 to code.constraint - 1
        invariant state == StateAfter(code, u[..|bits| + i]) && encoded == Flatten(Codeword(code, u[..|bits| + i]))
      {
        EncodeStep(code, u, |bits| + i);
        assert u[|bits| + i] == 0;
        encoded := encoded + Output(state, 0);
        state := NextState(code, state, 0);
      }
      assert u[..|u|] == u;
    }

    /** The better of the two extensions into a state, and where it comes from. */
    method PathMetric(bits: string, prevPathMetrics: seq<metric>, state: nat) returns (m: metric, source: nat)
      requires Valid() && |prevPathMetrics| == States(code) && state < States(code)
      requires NoOverflow(code, prevPathMetrics, bits, state)
      ensures var b := BranchInto(code, bits, state);
              m == Select(prevPathMetrics[b.src0], prevPathMetrics[b.src1], b, INT_MAX)
              && source == if TakesFirst(prevPathMetrics[b.src0], prevPathMetrics[b.src1], b, INT_MAX) then b.src0 else b.src1
    {
      hide OutputOf, HammingDistance;
      var s := state % Half(code) * 2;
      var input := TopBit(code, state);
      var pm1: metric := prevPathMetrics[s];
      if pm1 < INT_MAX {
        pm1 := pm1 + HammingDistance(bits, Output(s, input));
      }
      var pm2: metric := prevPathMetrics[s + 1];
      if pm2 < INT_MAX {
        pm2 := pm2 + HammingDistance(bits, Output(s + 1, input));
      }
      if pm1 <= pm2 {
        m, source := pm1, s;
      } else {
        m, source := pm2, s + 1;
      }
    }

    /** One add-compare-select step over all states; the new column records where each survivor comes from. */
    method UpdatePathMetrics(bits: string, pathMetrics: array<metric>, trellis: seq<seq<nat>>)
      returns (newTrellis: seq<seq<nat>>)
      requires Valid() && pathMetrics.Length == States(code)
      requires forall s :: 0 <= s < States(code) ==> NoOverflow(code, pathMetrics[..], bits, s)
      modifies pathMetrics
      ensures |newTrellis| == |trellis| + 1 && newTrellis[..|trellis|] == trellis
      ensures |newTrellis[|trellis|]| == States(code)
      ensures forall s :: 0 <= s < States(code) ==>
        Updated(code, old(pathMetrics[..]), bits, s, pathMetrics[s], newTrellis[|trellis|][s])
    {
      hide BranchInto, NoOverflow;
      var prev: seq<metric> := pathMetrics[..];
      var newPathMetrics: seq<metric>, newTrellisColumn: seq<nat> := [], [];
      for i := 0 to pathMetrics.Length
        invariant |newPathMetrics| == i == |newTrellisColumn|
        invariant pathMetrics[..] == prev
        invariant forall s :: 0 <= s < i ==> Updated(code, prev, bits, s, newPathMetrics[s], newTrellisColumn[s])
      {
        assert NoOverflow(code, prev, bits, i);
        var m, source := PathMetric(bits, prev, i);
        assert Updated(code, prev, bits, i, m, source) by { BranchInRange(code, prev, bits, i); }
        newPathMetrics, newTrellisColumn := newPathMetrics + [m], newTrellisColumn + [source];
      }
      forall i | 0 <= i < pathMetrics.Length { pathMetrics[i] := newPathMetrics[i]; }
      newTrellis := trellis + [newTrellisColumn];
    }

    /** The first position of the least element. */
    static method MinElement(a: array<metric>) returns (k: nat)
      requires a.Length > 0
      ensures k < a.Length
      ensures forall i :: 0 <= i < a.Length ==> a[k] <= a[i]
      ensures forall i :: 0 <= i < k ==> a[k] < a[i]
    {
      k := 0;
      for i := 1 to a.Length
        invariant 0 <= k < i
        invariant forall h :: 0 <= h < i ==> a[k] <= a[h]
        invariant forall h :: 0 <= h < k ==> a[k] < a[h]
      {
        if a[i] < a[k] { k := i; }
      }
    }

    /** Decoding returns the chosen message for the received symbols, without the flushing bits: the one whose
        codeword is closest, and among several closest ones the one picked by the tie rule of Chosen. */
    method Decode(bits: string) returns (decoded: string)
      requires Valid() && |bits| + |code.polynomials| <= 0x7fff_ffff
      ensures exists u: seq<bit> ::
        && Chosen(code, u, Symbols(bits, |code.polynomials|)) && decoded == Chars(DropFlush(code, u))
        && decoded == if |u| + 1 < code.constraint then Chars(u) else Chars(u)[..|u| + 1 - code.constraint]
    {
      hide *;
      var n := |code.polynomials|;
      IntMax();
      DecodeStart(code, bits);
      ghost var symbols := Symbols(bits, n);
      SymbolsLength(bits, n);
      var trellis: seq<seq<nat>> := [];
      var pathMetrics := new metric[States(code)](s => if s == 0 then 0 else INT_MAX);
      var i := 0;
      while i < |bits|
        invariant |trellis| <= |symbols| && i == n * |trellis|
        invariant if i < |bits| then Symbols(bits[i..], n) == symbols[|trellis|..] else |trellis| == |symbols|
        invariant forall s :: 0 <= s < States(code) ==>
          pathMetrics[s] == Metric(Start(), Stages(code, symbols[..|trellis|]), s, INT_MAX)
        invariant Columns(code, trellis, symbols)
        invariant fresh(pathMetrics)
        decreases |bits| - i
      {
        ghost var t, before, columns := |trellis|, pathMetrics[..], trellis;
        var current := if i + n <= |bits| then bits[i..i + n] else bits[i..];
        if |current| < n {
          current := current + Chars(Zeros(n - |current|));
        }
        NextSymbol(bits, n, i, t, current);
        StepOverflows(code, symbols, t, before);
        trellis := UpdatePathMetrics(current, pathMetrics, trellis);
        StepIsMetric(code, symbols, t, before, pathMetrics[..], columns, trellis);
        i := i + n;
      }
      assert symbols[..|symbols|] == symbols;
      var state := MinElement(pathMetrics);
      ghost var u := Winner(code, symbols, pathMetrics[..], state);
      decoded := Traceback(trellis, state, symbols);
      CharsDropFlush(code, u);
      decoded := if |decoded| + 1 < code.constraint then decoded else decoded[..|decoded| + 1 - code.constraint];
    }

    /** Following the recorded predecessors back from a state spells the inputs along its survivor. */
    method Traceback(trellis: seq<seq<nat>>, end: nat, ghost symbols: seq<string>) returns (decoded: string)
      requires |trellis| == |symbols| && end < States(code) && Columns(code, trellis, symbols)
      ensures decoded == Chars(Inputs(code, Survivor(Start(), Stages(code, symbols), end, INT_MAX)))
    {
      hide *;
      var state: nat := end;
      decoded := "";
      var i := |trellis|;
      assert symbols[..i] == symbols;
      assert Reversed(Chars([])) == "" by { NoChars(); }
      ghost var tail: seq<bit> := [];
      while i > 0
        invariant 0 <= i <= |trellis| && state < States(code) && decoded == Reversed(Chars(tail))
        invariant Inputs(code, Survivor(Start(), Stages(code, symbols[..i]), state, INT_MAX)) + tail
                  == Inputs(code, Survivor(Start(), Stages(code, symbols), end, INT_MAX))
      {
        i := i - 1;
        TraceStep(code, trellis, symbols, i, state);
        ReversedChars(TopBit(code, state), tail);
        tail := [TopBit(code, state)] + tail;
        decoded := decoded + [if TopBit(code, state) != 0 then '1' else '0'];
        state := trellis[i][state];
      }
      assert [] + tail == tail;
      ReversedTwice(Chars(tail));
      decoded := Reversed(decoded);
    }
  }

  // ---------------------------------------------------------------- one step of the encoder and of the decoder

  lemma EncodeStart(code: Code)
    ensures StateAfter(code, []) == 0 && Flatten(Codeword(code, [])) == ""
  {}

  lemma EncodeStep(code: Code, u: seq<bit>, i: nat)
    requires i < |u|
    ensures StateAfter(code, u[..i + 1]) == NextState(code, StateAfter(code, u[..i]), u[i])
    ensures Flatten(Codeword(code, u[..i + 1]))
            == Flatten(Codeword(code, u[..i])) + OutputOf(code, Register(code, StateAfter(code, u[..i]), u[i]))
    ensures StateAfter(code, u[..i]) < States(code)
  {
    hide OutputOf;
    FrontOfPrefix(u, i);
    StateBelow(code, u[..i]);
    FrontOfAppend(Codeword(code, u[..i]), OutputOf(code, Register(code, StateAfter(code, u[..i]), u[i])));
  }

  ghost predicate Updated(code: Code, prev: seq<nat>, symbol: string, s: nat, m: nat, source: nat) {
    var b := BranchInto(code, symbol, s);
    && b.src0 < |prev| && b.src1 < |prev|
    && m == Select(prev[b.src0], prev[b.src1], b, INT_MAX)
    && source == if TakesFirst(prev[b.src0], prev[b.src1], b, INT_MAX) then b.src0 else b.src1
  }

  lemma BranchInRange(code: Code, prev: seq<nat>, symbol: string, s: nat)
    requires NoOverflow(code, prev, symbol, s)
    ensures BranchInto(code, symbol, s).src0 < |prev| && BranchInto(code, symbol, s).src1 < |prev|
  {}

  /** Every recorded column holds the survivors' predecessors. */
  ghost predicate Columns(code: Code, trellis: seq<seq<nat>>, symbols: seq<string>) {
    && |trellis| <= |symbols|
    && forall t :: 0 <= t < |trellis| ==> Column(code, trellis[t], symbols, t)
  }

  ghost predicate Column(code: Code, column: seq<nat>, symbols: seq<string>, t: nat) {
    && t < |symbols| && |column| == States(code)
    && forall s :: 0 <= s < States(code) ==>
      column[s] == Source(Start(), Stages(code, symbols[..t]), StageFor(code, symbols[t])(s), INT_MAX)
  }

  lemma DecodeStart(code: Code, bits: string)
    ensures code.constraint >= 2 && |code.polynomials| > 0 && States(code) > 0
    ensures Columns(code, [], Symbols(bits, |code.polynomials|))
    ensures var symbols := Symbols(bits, |code.polynomials|);
            forall s: nat :: Metric(Start(), Stages(code, symbols[..0]), s, INT_MAX) == if s == 0 then 0 else INT_MAX
    ensures Symbols(bits[0..], |code.polynomials|) == Symbols(bits, |code.polynomials|)[0..]
    ensures bits == "" ==> Symbols(bits, |code.polynomials|) == []
  {
    assert bits[0..] == bits;
  }

  lemma CharsDropFlush(code: Code, u: seq<bit>)
    ensures code.constraint >= 2
    ensures Chars(DropFlush(code, u)) == if |u| + 1 < code.constraint then Chars(u) else Chars(u)[..|u| + 1 - code.constraint]
  {}

  lemma NoChars()
    ensures Reversed(Chars([])) == ""
  {}

  lemma ReversedChars(b: bit, u: seq<bit>)
    ensures Reversed(Chars([b] + u)) == Reversed(Chars(u)) + [if b != 0 then '1' else '0']
  {
    assert Chars([b] + u)[1..] == Chars(u);
  }

  lemma {:induction false} LengthsPrepend(s: string, ss: seq<string>)
    requires SymbolLengths(ss, |s|)
    ensures SymbolLengths([s] + ss, |s|)
    decreases |ss|
  {
    if ss == [] {
      assert [s] + ss == [s] && Front([s]) == [];
    } else {
      assert Front([s] + ss) == [s] + Front(ss);
      LengthsPrepend(s, Front(ss));
    }
  }

  lemma SymbolsLength(received: string, n: nat)
    requires n > 0
    ensures SymbolLengths(Symbols(received, n), n)
    ensures |received| <= n * |Symbols(received, n)| < |received| + n
    ensures |Flatten(Symbols(received, n))| < |received| + n
  {
    SymbolsHaveLength(received, n);
    SymbolCount(received, n);
    FlattenedLength(Symbols(received, n), n);
  }

  lemma {:induction false} SymbolsHaveLength(received: string, n: nat)
    requires n > 0
    ensures SymbolLengths(Symbols(received, n), n)
    decreases |received|
  {
    if received != "" && |received| >= n {
      SymbolsHaveLength(received[n..], n);
      LengthsPrepend(received[..n], Symbols(received[n..], n));
    } else if received != "" {
      LengthsPrepend(received + Chars(Zeros(n - |received|)), []);
    }
  }

  lemma {:induction false} SymbolCount(received: string, n: nat)
    requires n > 0
    ensures |received| <= n * |Symbols(received, n)| < |received| + n
    decreases |received|
  {
    if received != "" && |received| >= n {
      SymbolCount(received[n..], n);
      assert n * |Symbols(received, n)| == n + n * |Symbols(received[n..], n)|;
    }
  }

  /** The symbol that the decoder cuts off at position i. */
  lemma NextSymbol(bits: string, n: nat, i: nat, t: nat, current: string)
    requires n > 0 && i < |bits| && t < |Symbols(bits, n)| && i == n * t
    requires Symbols(bits[i..], n) == Symbols(bits, n)[t..]
    requires current == if i + n <= |bits| then bits[i..i + n] else bits[i..] + Chars(Zeros(n - (|bits| - i)))
    ensures current == Symbols(bits, n)[t] && i + n == n * (t + 1)
    ensures if i + n < |bits| then Symbols(bits[i + n..], n) == Symbols(bits, n)[t + 1..] else t + 1 == |Symbols(bits, n)|
  {
    var ss := Symbols(bits[i..], n);
    assert ss[0] == Symbols(bits, n)[t] && ss[1..] == Symbols(bits, n)[t + 1..];
    if i + n <= |bits| {
      assert bits[i..][..n] == bits[i..i + n] && bits[i..][n..] == bits[i + n..];
    }
  }

  lemma {:induction false} LengthsOfPrefix(ss: seq<string>, n: nat, t: nat)
    requires SymbolLengths(ss, n) && t <= |ss|
    ensures SymbolLengths(ss[..t], n)
    decreases |ss|
  {
    if t < |ss| {
      LengthsOfPrefix(Front(ss), n, t);
      assert Front(ss)[..t] == ss[..t];
    } else {
      assert ss[..t] == ss;
    }
  }

  lemma FlattenedPrefix(ss: seq<string>, n: nat, t: nat)
    requires SymbolLengths(ss, n) && t <= |ss|
    ensures SymbolLengths(ss[..t], n) && |Flatten(ss[..t])| <= |Flatten(ss)|
  {
    LengthsOfPrefix(ss, n, t);
    FlattenedLength(ss[..t], n);
    FlattenedLength(ss, n);
    assert n * t <= n * |ss|;
  }

  lemma StagesOfPrefix(code: Code, symbols: seq<string>, t: nat)
    requires t < |symbols|
    ensures Stages(code, symbols[..t + 1]) == Stages(code, symbols[..t]) + [StageFor(code, symbols[t])]
    ensures Front(Stages(code, symbols[..t + 1])) == Stages(code, symbols[..t])
    ensures Last(Stages(code, symbols[..t + 1])) == StageFor(code, symbols[t])
  {
    FrontOfPrefix(symbols, t);
    FrontOfAppend(Stages(code, symbols[..t]), StageFor(code, symbols[t]));
  }

  /** Since no distance reaches INT_MAX, no addition of the next step overflows. */
  lemma StepOverflows(code: Code, symbols: seq<string>, t: nat, prev: seq<nat>)
    requires t < |symbols| && SymbolLengths(symbols, |code.polynomials|) && |Flatten(symbols)| < INT_MAX
    requires |prev| == States(code)
    requires forall s :: 0 <= s < |prev| ==> prev[s] == Metric(Start(), Stages(code, symbols[..t]), s, INT_MAX)
    ensures forall s :: 0 <= s < |prev| ==> NoOverflow(code, prev, symbols[t], s)
  {
    hide Bounded, Metric, BranchInto, NoOverflow;
    FlattenedPrefix(symbols, |code.polynomials|, t + 1);
    DistancesAreBounded(code, symbols[..t + 1]);
    StagesOfPrefix(code, symbols, t);
    StagesAreOrdered(code, symbols[..t]);
    forall s | 0 <= s < |prev| ensures NoOverflow(code, prev, symbols[t], s) {
      NoOverflowAt(code, Stages(code, symbols[..t]), symbols[t], prev, s);
    }
  }

  lemma NoOverflowAt(code: Code, stages: seq<Stage>, symbol: string, prev: seq<nat>, s: nat)
    requires s < |prev| == States(code) && Ordered(stages, States(code))
    requires Bounded(Start(), stages + [StageFor(code, symbol)], States(code), INT_MAX)
    requires forall i :: 0 <= i < |prev| ==> prev[i] == Metric(Start(), stages, i, INT_MAX)
    ensures NoOverflow(code, prev, symbol, s)
  {
    hide Bounded, Metric;
    var stage := StageFor(code, symbol);
    var b := BranchInto(code, symbol, s);
    assert stage(s) == b;
    if prev[b.src0] < INT_MAX { ExtensionStaysBelow(Start(), stages, stage, b.src0, s, States(code), INT_MAX); }
    if prev[b.src1] < INT_MAX { ExtensionStaysBelow(Start(), stages, stage, b.src1, s, States(code), INT_MAX); }
  }

  lemma StepIsMetric(code: Code, symbols: seq<string>, t: nat, prev: seq<nat>, next: seq<nat>,
                     columns: seq<seq<nat>>, trellis: seq<seq<nat>>)
    requires t < |symbols| && |prev| == |next| == States(code)
    requires forall s :: 0 <= s < |prev| ==> prev[s] == Metric(Start(), Stages(code, symbols[..t]), s, INT_MAX)
    requires Columns(code, columns, symbols) && |columns| == t && |trellis| == t + 1 && trellis[..t] == columns
    requires |trellis[t]| == States(code)
    requires forall s :: 0 <= s < |prev| ==> Updated(code, prev, symbols[t], s, next[s], trellis[t][s])
    ensures forall s :: 0 <= s < |next| ==> next[s] == Metric(Start(), Stages(code, symbols[..t + 1]), s, INT_MAX)
    ensures Columns(code, trellis, symbols)
  {
    hide BranchInto, Select, TakesFirst;
    StagesOfPrefix(code, symbols, t);
    forall s | 0 <= s < |next|
      ensures next[s] == Metric(Start(), Stages(code, symbols[..t + 1]), s, INT_MAX)
      ensures trellis[t][s] == Source(Start(), Stages(code, symbols[..t]), StageFor(code, symbols[t])(s), INT_MAX)
    {
      assert Updated(code, prev, symbols[t], s, next[s], trellis[t][s]);
      assert StageFor(code, symbols[t])(s) == BranchInto(code, symbols[t], s);
    }
    forall i | 0 <= i < |trellis| ensures Column(code, trellis[i], symbols, i) {
      if i < t { assert columns[i] == trellis[i] && Column(code, columns[i], symbols, i); }
    }
  }

  /** The survivor of the first state with the least metric spells the chosen message. */
  lemma Winner(code: Code, symbols: seq<string>, metrics: seq<nat>, state: nat) returns (u: seq<bit>)
    requires SymbolLengths(symbols, |code.polynomials|) && |Flatten(symbols)| < INT_MAX
    requires state < |metrics| == States(code)
    requires forall s :: 0 <= s < States(code) ==> metrics[s] == Metric(Start(), Stages(code, symbols), s, INT_MAX)
    requires forall i :: 0 <= i < |metrics| ==> metrics[state] <= metrics[i]
    requires forall i :: 0 <= i < state ==> metrics[state] < metrics[i]
    ensures Chosen(code, u, symbols)
    ensures u == Inputs(code, Survivor(Start(), Stages(code, symbols), state, INT_MAX))
  {
    hide Metric, Survivor, Inputs;
    var stages, n := Stages(code, symbols), States(code);
    DistancesAreBounded(code, symbols);
    StagesAreOrdered(code, symbols);
    var v := Zeros(|symbols|);
    MessageIsPath(code, v, symbols);
    SurvivorBest(Start(), stages, Visited(code, v), n, INT_MAX);
    forall i: nat | i < n ensures Metric(Start(), stages, i, INT_MAX) == metrics[i] {}
    TracebackIsBest(Start(), stages, state, n, INT_MAX);
    u := Inputs(code, Survivor(Start(), stages, state, INT_MAX));
    BestIsChosen(code, Survivor(Start(), stages, state, INT_MAX), symbols);
  }

  lemma TraceStep(code: Code, trellis: seq<seq<nat>>, symbols: seq<string>, i: nat, state: nat)
    requires Columns(code, trellis, symbols) && i < |trellis| && state < States(code)
    ensures |trellis[i]| == States(code) && trellis[i][state] < States(code)
    ensures Inputs(code, Survivor(Start(), Stages(code, symbols[..i + 1]), state, INT_MAX))
            == Inputs(code, Survivor(Start(), Stages(code, symbols[..i]), trellis[i][state], INT_MAX)) + [TopBit(code, state)]
  {
    StagesOfPrefix(code, symbols, i);
    assert Column(code, trellis[i], symbols, i);
    StagesAreOrdered(code, symbols[..i + 1]);
    var p := Survivor(Start(), Stages(code, symbols[..i]), trellis[i][state], INT_MAX);
    FrontOfAppend(p, state);
  }

  function Reversed(s: string): (r: string)
    ensures |r| == |s|
  {
    if s == "" then "" else Reversed(s[1..]) + [s[0]]
  }

  lemma {:induction false} ReversedAt(s: string, k: nat)
    requires k < |s|
    ensures Reversed(s)[k] == s[|s| - 1 - k]
  {
    if k < |s| - 1 { ReversedAt(s[1..], k); }
  }

  lemma ReversedTwice(s: string)
    ensures Reversed(Reversed(s)) == s
  {
    forall k | 0 <= k < |s| ensures Reversed(Reversed(s))[k] == s[k] {
      ReversedAt(Reversed(s), k);
      ReversedAt(s, |s| - 1 - k);
    }
  }

  lemma BitsOfChars(s: string)
    requires IsBitString(s)
    ensures Chars(BitsOf(s)) == s
  {}

  /** Decoding what was encoded returns the message, for every code and every message. */
  method DecodeOfEncode(codec: ViterbiCodec, message: string) returns (decoded: string)
    requires codec.Valid() && IsBitString(message)
    requires |codec.code.polynomials| * (|message| + codec.code.constraint) <= 0x7fff_ffff
    ensures decoded == message
  {
    hide *;
    ghost var code, m := codec.code, BitsOf(message);
    IntMax();
    EncodingFits(code, m);
    ghost var sent := Codeword(code, m + Zeros(code.constraint - 1));
    EncodingSymbols(code, m);
    var encoded := codec.Encode(message);
    decoded := codec.Decode(encoded);
    ghost var u: seq<bit> :| Chosen(code, u, sent) && decoded == Chars(DropFlush(code, u));
    EncodingIsInverted(code, m, u);
    BitsOfChars(message);
  }

  lemma IntMax()
    ensures INT_MAX == 0x7fff_ffff
  {}

  lemma EncodingFits(code: Code, m: seq<bit>)
    requires |code.polynomials| * (|m| + code.constraint) <= INT_MAX
    ensures code.constraint >= 2 && |code.polynomials| > 0
    ensures |Flatten(Codeword(code, m + Zeros(code.constraint - 1)))| + |code.polynomials| <= INT_MAX
  {
    EncodingSymbols(code, m);
  }

  lemma EncodingSymbols(code: Code, m: seq<bit>)
    ensures var sent := Codeword(code, m + Zeros(code.constraint - 1));
            Symbols(Flatten(sent), |code.polynomials|) == sent
            && |Flatten(sent)| + |code.polynomials| == |code.polynomials| * (|m| + code.constraint)
  {
    hide Codeword, Flatten, Symbols, SymbolLengths;
    var u, n := m + Zeros(code.constraint - 1), |code.polynomials|;
    CodewordLengths(code, u);
    FlattenedLength(Codeword(code, u), n);
    SymbolsOfFlatten(Codeword(code, u), n);
    assert n * (|u| + 1) == n * |u| + n;
  }

  lemma {:induction false} SymbolsOfFlatten(ss: seq<string>, n: nat)
    requires n > 0 && SymbolLengths(ss, n)
    ensures Symbols(Flatten(ss), n) == ss
    decreases |ss|
  {
    if ss != [] {
      SymbolsOfFlatten(Front(ss), n);
      FlattenedLength(Front(ss), n);
      SymbolsAppend(Flatten(Front(ss)), Last(ss), n, |ss| - 1);
      FrontLast(ss);
    }
  }

  lemma {:induction false} SymbolsAppend(x: string, s: string, n: nat, k: nat)
    requires n > 0 && |s| == n && |x| == n * k
    ensures Symbols(x + s, n) == Symbols(x, n) + [s]
    decreases k
  {
    if k == 0 {
      assert x + s == s && s[..n] == s && s[n..] == "";
    } else {
      assert n * k == n * (k - 1) + n;
      assert (x + s)[..n] == x[..n] && (x + s)[n..] == x[n..] + s;
      SymbolsAppend(x[n..], s, n, k - 1);
    }
  }
}
