/** The packed Viterbi decoder: eight-bit metrics in two buffers that are swapped, decisions packed into bytes,
    and a chainback that writes every output byte eight times. */
module PackedViterbi {
  import opened Bits
  import opened ExclusiveOr
  import opened PackedTrellis
  import opened Sequences
  import opened Trellis

  /** Conversion to eight bits. */
  function Byte(x: int): nat { x % 256 }

  /** Bit n of packed data, most significant bit of a byte first. */
  function DataBit(data: seq<nat>, n: nat): bit {
    if n / 8 < |data| then Bit(data[n / 8], 7 - n % 8) else 0
  }

  function Received(syms: seq<nat>, n: nat): (r: seq<Symbol>)
    ensures |r| == n
  {
    seq(n, t requires 0 <= t < n => Symbol(DataBit(syms, 2 * t), DataBit(syms, 2 * t + 1)))
  }

  // ---------------------------------------------------------------- parity by table

  lemma OnesStep(x: nat)
    ensures OddOnes(x) == (OddOnes(x / 2) + x % 2) % 2
  {
    if x == 0 { assert x / 2 == 0 && x % 2 == 0; }
  }

  lemma RegroupBits(p: bit, q: bit, x: bit, y: bit)
    ensures ((p + q) % 2 + (if x == y then 0 else 1)) % 2 == ((p + x) % 2 + (q + y) % 2) % 2
  {}

  lemma ParityOfSum(a: nat, b: nat)
    ensures (a + b) % 2 == if a % 2 == b % 2 then 0 else 1
  {
    assert a + b == 2 * (a / 2 + b / 2) + a % 2 + b % 2;
  }

  lemma {:induction false} OnesOfLow(x: nat, m: nat, n: nat)
    ensures OddOnes(Low(x, m + n)) == (OddOnes(Low(x, m)) + OddOnes(Low(High(x, m), n))) % 2
    decreases m
  {
    hide *;
    if m == 0 {
      LowOfNone(x);
    } else {
      OnesOfLow(x / 2, m - 1, n);
      LowStep(x, m);
      LowStep(x, m + n);
      OnesOfHalves(Low(x / 2, m + n - 1), x % 2);
      OnesOfHalves(Low(x / 2, m - 1), x % 2);
    }
  }

  lemma LowOfNone(x: nat)
    ensures Low(x, 0) == 0 && High(x, 0) == x && OddOnes(0) == 0
  {}

  lemma LowStep(x: nat, m: nat)
    requires m > 0
    ensures Low(x, m) == 2 * Low(x / 2, m - 1) + x % 2 && High(x, m) == High(x / 2, m - 1)
  {}

  lemma {:induction false} OnesOfXor(a: nat, b: nat)
    ensures OddOnes(Xor(a, b)) == (OddOnes(a) + OddOnes(b)) % 2
    decreases a + b
  {
    hide *;
    if a + b == 0 {
      LowOfNone(0);
      XorZero(0);
    } else {
      OnesOfXor(a / 2, b / 2);
      XorHalves(a, b);
      OnesStep(Xor(a, b));
      OnesStep(a);
      OnesStep(b);
      ParityOfSum(a, b);
      OnesCombine(OddOnes(Xor(a, b)), OddOnes(a), OddOnes(b), OddOnes(a / 2), OddOnes(b / 2), a % 2, b % 2, (a + b) % 2);
    }
  }

  /** Parities of the upper parts and the lowest bits combine. */
  lemma OnesCombine(x: bit, y: bit, z: bit, p: bit, q: bit, a: bit, b: bit, c: bit)
    requires x == ((p + q) % 2 + c) % 2 && y == (p + a) % 2 && z == (q + b) % 2 && c == if a == b then 0 else 1
    ensures x == (y + z) % 2
  {
    RegroupBits(p, q, a, b);
  }

  /** Folding the upper half of 2n bits onto the lower half keeps the parity. */
  lemma FoldKeepsParity(x: nat, n: nat)
    ensures OddOnes(Low(Xor(x, High(x, n)), n)) == OddOnes(Low(x, n + n))
  {
    hide OddOnes, Xor, Low, High;
    XorLow(x, High(x, n), n);
    OnesOfXor(Low(x, n), Low(High(x, n), n));
    OnesOfLow(x, n, n);
  }

  method PartabInit() returns (partab: array<bit>)
    ensures fresh(partab) && partab.Length == 256
    ensures forall i :: 0 <= i < 256 ==> partab[i] == OddOnes(i)
  {
    hide OddOnes;
    partab := new bit[256];
    for i := 0 to 256
      invariant forall k :: 0 <= k < i ==> partab[k] == OddOnes(k)
    {
      var cnt: nat, ti: nat := 0, i;
      while ti != 0
        invariant (OddOnes(ti) + cnt) % 2 == OddOnes(i)
        invariant forall k :: 0 <= k < i ==> partab[k] == OddOnes(k)
      {
        OnesStep(ti);
        if ti % 2 == 1 {
          cnt := cnt + 1;
        }
        ti := ti / 2;
      }
      assert OddOnes(0) == 0 by { LowOfNone(0); }
      partab[i] := cnt % 2;
    }
  }

  /** The parity of a 32-bit word, folded down to one byte. */
  method Parity(partab: array<bit>, x: nat) returns (p: bit)
    requires partab.Length == 256 && forall i :: 0 <= i < 256 ==> partab[i] == OddOnes(i)
    requires x < Pow2(32)
    ensures p == OddOnes(x)
  {
    hide OddOnes, Xor, Low, High, Pow2;
    LowOfSmall(x, 32);
    var y := Xor(x, High(x, 16));
    FoldKeepsParity(x, 16);
    var z := Xor(y, High(y, 8));
    FoldKeepsParity(y, 8);
    LowBound(z, 8);
    assert Pow2(8) == 256 by { EightBits(); }
    p := partab[Low(z, 8)];
  }

  lemma EightBits()
    ensures Pow2(8) == 256 && Pow2(7) == 128 && Pow2(6) == 64
  {
    assert Pow2(3) == 8;
    assert Pow2(6) == 64;
  }

  lemma {:induction false} AndBound(a: nat, b: nat)
    ensures And(a, b) <= a
  {
    if a != 0 && b != 0 { AndBound(a / 2, b / 2); }
  }

  lemma BelowWord(x: nat)
    requires x <= 255
    ensures x < Pow2(32)
  {
    EightBits();
    PowGrows(8, 32);
  }

  lemma {:induction false} PowGrows(i: nat, j: nat)
    requires i <= j
    ensures Pow2(i) <= Pow2(j)
  {
    if i < j { PowGrows(i, j - 1); }
  }

  /** One output bit of the encoder register. */
  method OutputBit(partab: array<bit>, p: int, register: nat) returns (r: bit)
    requires partab.Length == 256 && forall i :: 0 <= i < 256 ==> partab[i] == OddOnes(i)
    requires register < 256
    ensures r == Output(p, register)
  {
    hide OddOnes, And, Pow2;
    AndBound(register, Abs(p));
    BelowWord(And(register, Abs(p)));
    var q := Parity(partab, And(register, Abs(p)));
    r := (Inverted(p) + q) % 2;
  }

  /** The branch tables: what the encoder sends from state b on input 0. */
  method SetPolynomials(code: Code) returns (table0: seq<bit>, table1: seq<bit>)
    ensures |table0| == |table1| == 32
    ensures forall b :: 0 <= b < 32 ==> table0[b] == Output(code.p0, 2 * b) && table1[b] == Output(code.p1, 2 * b)
  {
    hide Output, OddOnes;
    var partab := PartabInit();
    table0, table1 := [], [];
    for state := 0 to 32
      invariant |table0| == |table1| == state && forall i :: 0 <= i < 256 ==> partab[i] == OddOnes(i)
      invariant forall b :: 0 <= b < state ==> table0[b] == Output(code.p0, 2 * b) && table1[b] == Output(code.p1, 2 * b)
    {
      var o0 := OutputBit(partab, code.p0, 2 * state);
      var o1 := OutputBit(partab, code.p1, 2 * state);
      table0, table1 := table0 + [o0], table1 + [o1];
    }
  }

  // ---------------------------------------------------------------- decisions

  /** The decision for a state: bit s % 8 of byte s / 8. */
  function Decision(w: seq<nat>, s: nat): bit {
    if s / 8 < |w| then Bit(w[s / 8], s % 8) else 0
  }

  /** The decisions below state s are in the bytes, nothing above. */
  ghost predicate FilledTo(w: seq<nat>, s: nat) {
    |w| == 8 && forall k :: 0 <= k < 8 ==> w[k] < if s <= 8 * k then 1 else if s >= 8 * k + 8 then 256 else Pow2(s - 8 * k)
  }

  /** Storing the decision for the next state. */
  method Record(cache: array<nat>, s: nat, decision: bit)
    requires cache.Length == 8 && s < 64 && FilledTo(cache[..], s)
    modifies cache
    ensures FilledTo(cache[..], s + 1)
    ensures forall r :: 0 <= r < 64 ==> Decision(cache[..], r) == if r == s then decision else Decision(old(cache[..]), r)
  {
    hide Bit, Or, Pow2;
    ghost var before := cache[..];
    var k := s / 8;
    assert before[k] < Pow2(s % 8) by { PowStart(); }
    OrAbove(before[k], decision, s % 8);
    cache[k] := Or(cache[k], decision * Pow2(s % 8));
    RecordedBits(before, s, decision, cache[..]);
  }

  lemma PowStart()
    ensures Pow2(0) == 1
  {}

  lemma RecordedBits(w: seq<nat>, s: nat, decision: bit, w': seq<nat>)
    requires FilledTo(w, s) && s < 64 && w[s / 8] < Pow2(s % 8) && w' == w[s / 8 := w[s / 8] + decision * Pow2(s % 8)]
    ensures FilledTo(w', s + 1)
    ensures forall r :: 0 <= r < 64 ==> Decision(w', r) == if r == s then decision else Decision(w, r)
  {
    hide Bit, Pow2;
    forall r | 0 <= r < 64 ensures Decision(w', r) == if r == s then decision else Decision(w, r) {
      if r / 8 == s / 8 { BitAbove(w[s / 8], decision, s % 8, r % 8); }
    }
    assert Pow2(s % 8 + 1) == 2 * Pow2(s % 8) by { PowStep(s % 8); }
    if s % 8 == 7 { EightBits(); }
  }

  lemma PowStep(k: nat)
    ensures Pow2(k + 1) == 2 * Pow2(k)
  {}

  // ---------------------------------------------------------------- the decoder

  /** What decision is due for state s after the symbols received so far, when y comes next. */
  ghost function DecisionDue(code: Code, start: nat, received: seq<Symbol>, y: Symbol, s: nat, inf: nat): bit {
    var b := BranchInto(code, y, s);
    if TakesFirst(PathMetric(code, start, received, b.src0, inf), PathMetric(code, start, received, b.src1, inf), b, inf)
    then 0 else 1
  }

  ghost predicate Recorded(w: seq<nat>, code: Code, start: nat, received: seq<Symbol>, y: Symbol, inf: nat) {
    forall s: nat :: s < 64 ==> Decision(w, s) == DecisionDue(code, start, received, y, s, inf)
  }

  ghost predicate Exact(metrics: seq<nat>, code: Code, start: nat, received: seq<Symbol>, inf: nat) {
    |metrics| == 64 && forall s: nat :: s < 64 ==> metrics[s] == PathMetric(code, start, received, s, inf)
  }

  /** struct v27, with the branch tables and the decision cache that the original keeps in static memory. */
  class V27 {
    const code: Code
    const table0: seq<bit>
    const table1: seq<bit>
    const metrics1: array<nat>
    const metrics2: array<nat>
    var oldMetrics: array<nat>
    var newMetrics: array<nat>
    const decisions: array<seq<nat>>
    const cache: array<nat>
    /** The index of the next decision, or -1 when the pointer has been left at the cache. */
    var dp: int

    ghost predicate Valid()
      reads this
    {
      && |table0| == |table1| == 32
      && (forall b :: 0 <= b < 32 ==> table0[b] == Output(code.p0, 2 * b) && table1[b] == Output(code.p1, 2 * b))
      && metrics1.Length == metrics2.Length == 64 && cache.Length == 8
      && metrics1 != metrics2 && metrics1 != cache && metrics2 != cache
      && ((oldMetrics == metrics1 && newMetrics == metrics2) || (oldMetrics == metrics2 && newMetrics == metrics1))
      && -1 <= dp <= decisions.Length
    }

    /** create_viterbi_packed, for blocks of len data bits. */
    constructor (code: Code, len: nat)
      ensures Valid() && this.code == code && decisions.Length == len + 6 && dp == 0
      ensures fresh(metrics1) && fresh(metrics2) && fresh(decisions) && fresh(cache)
      ensures forall inf :: Exact(oldMetrics[..], code, 0, [], inf)
    {
      hide Exact, Output;
      var t0, t1 := SetPolynomials(code);
      this.code, table0, table1 := code, t0, t1;
      var m1, m2 := new nat[64], new nat[64];
      metrics1, metrics2, oldMetrics, newMetrics := m1, m2, m1, m2;
      decisions := new seq<nat>[len + 6];
      cache := new nat[8];
      dp := 0;
      new;
      Init(0);
    }

    /** init_viterbi_packed: a new block begins. */
    method Init(startingState: nat)
      requires Valid()
      modifies this`oldMetrics, this`newMetrics, this`dp, metrics1
      ensures Valid() && dp == 0
      ensures forall start, inf :: start == startingState % 64 ==> Exact(oldMetrics[..], code, start, [], inf)
    {
      hide Output;
      for i := 0 to 64
        invariant forall k :: 0 <= k < i ==> metrics1[k] == 63
      {
        metrics1[i] := 63;
      }
      oldMetrics, newMetrics := metrics1, metrics2;
      dp := 0;
      oldMetrics[startingState % 64] := 0;
      forall inf, s: nat | s < 64
        ensures oldMetrics[..][s] == PathMetric(code, startingState % 64, [], s, inf)
      {
        NoStages(code, startingState % 64, s, inf);
      }
    }

    /** One butterfly: the two states 2 b and 2 b + 1 from the two states b and b + 32. */
    method Butterfly(b: nat, sym0: bit, sym1: bit)
      requires Valid() && b < 32 && FilledTo(cache[..], 2 * b)
      modifies newMetrics, cache
      ensures FilledTo(cache[..], 2 * b + 2)
      ensures forall s :: 0 <= s < 64 && s != 2 * b && s != 2 * b + 1 ==>
                newMetrics[s] == old(newMetrics[s]) && Decision(cache[..], s) == Decision(old(cache[..]), s)
      ensures oldMetrics[b] <= 253 && oldMetrics[b + 32] <= 253 ==>
                Selected(code, Symbol(sym0, sym1), 2 * b, oldMetrics[b], oldMetrics[b + 32], newMetrics[2 * b], cache[..])
                && Selected(code, Symbol(sym0, sym1), 2 * b + 1, oldMetrics[b], oldMetrics[b + 32], newMetrics[2 * b + 1], cache[..])
    {
      hide Output, FilledTo, Decision, BranchInto, Byte;
      ghost var y := Symbol(sym0, sym1);
      ButterflyCosts(code, y, b);
      ghost var w := old(cache[..]);
      var metric: nat := (table0[b] + sym0) % 2 + (table1[b] + sym1) % 2;
      assert metric == Miss(OutputOf(code, 2 * b), y);
      NothingWraps(oldMetrics[b], metric);
      NothingWraps(oldMetrics[b + 32], 2 - metric);
      var m0, m1 := Byte(oldMetrics[b] + metric), Byte(oldMetrics[b + 32] + (2 - metric));
      var decision: bit := if m0 > m1 then 1 else 0;
      newMetrics[2 * b] := if decision == 1 then m1 else m0;
      Record(cache, 2 * b, decision);
      m0, m1 := Byte(m0 - (metric + metric - 2)), Byte(m1 + (metric + metric - 2));
      decision := if m0 > m1 then 1 else 0;
      newMetrics[2 * b + 1] := if decision == 1 then m1 else m0;
      Record(cache, 2 * b + 1, decision);
    }

    /** All butterflies of one step. */
    method AllButterflies(sym0: bit, sym1: bit)
      requires Valid()
      modifies newMetrics, cache
      ensures Small(oldMetrics[..]) ==> SelectedTo(code, Symbol(sym0, sym1), 64, oldMetrics[..], newMetrics[..], cache[..])
    {
      hide Output, FilledTo, Decision, Selected;
      ghost var y, before := Symbol(sym0, sym1), oldMetrics[..];
      for k := 0 to 8
        invariant forall j :: 0 <= j < k ==> cache[j] == 0
        modifies cache
      {
        cache[k] := 0;
      }
      NothingFilled(cache[..]);
      if Small(before) { NothingSelected(code, y, before, newMetrics[..], cache[..]); }
      for b := 0 to 32
        invariant oldMetrics[..] == before && FilledTo(cache[..], 2 * b)
        invariant Small(before) ==> SelectedTo(code, y, 2 * b, before, newMetrics[..], cache[..])
        modifies newMetrics, cache
      {
        ghost var m, w := newMetrics[..], cache[..];
        Butterfly(b, sym0, sym1);
        if Small(before) { SelectTwo(code, y, b, before, m, w, newMetrics[..], cache[..]); }
      }
    }

    /** One data bit: all butterflies, the decisions stored, the metric buffers swapped. */
    method Step(sym0: bit, sym1: bit, i: nat, ghost start: nat, ghost received: seq<Symbol>, ghost inf: nat)
      requires Valid() && i < decisions.Length && inf >= 256
      modifies this`oldMetrics, this`newMetrics, metrics1, metrics2, cache, decisions
      ensures Valid() && forall k :: 0 <= k < decisions.Length && k != i ==> decisions[k] == old(decisions[k])
      ensures Exact(old(oldMetrics[..]), code, start, received, inf) && Small(old(oldMetrics[..])) ==>
                Exact(oldMetrics[..], code, start, received + [Symbol(sym0, sym1)], inf)
                && Recorded(decisions[i], code, start, received, Symbol(sym0, sym1), inf)
    {
      hide Output, SelectedTo, Small, Exact, Recorded;
      ghost var before := oldMetrics[..];
      AllButterflies(sym0, sym1);
      decisions[i] := cache[..];
      oldMetrics, newMetrics := newMetrics, oldMetrics;
      if Exact(before, code, start, received, inf) && Small(before) {
        StepIsExact(code, start, received, Symbol(sym0, sym1), inf, before, oldMetrics[..], decisions[i]);
      }
    }

    /** The metrics and decisions are those of the received symbols. */
    ghost predicate Searched(start: nat, received: seq<Symbol>, inf: nat)
      reads this, oldMetrics, decisions
    {
      && Exact(oldMetrics[..], code, start, received, inf) && |received| <= decisions.Length
      && forall t :: 0 <= t < |received| ==> Recorded(decisions[t], code, start, received[..t], received[t], inf)
    }

    /** update_viterbi_packed. The decision pointer does not survive the call, so a block is one call. */
    method Update(syms: seq<nat>, nbits: nat, ghost start: nat, ghost inf: nat)
      requires Valid() && dp == 0 && nbits <= decisions.Length && 2 * nbits <= 8 * |syms| && 2 * nbits <= 65536
      requires start < 64 && inf >= 256 + 2 * nbits
      modifies this`oldMetrics, this`newMetrics, this`dp, metrics1, metrics2, cache, decisions
      ensures Valid() && dp == -1
      ensures Exact(old(oldMetrics[..]), code, start, [], inf) && Close(code, start, Received(syms, nbits), 241) ==>
                Searched(start, Received(syms, nbits), inf)
    {
      hide Exact, Recorded, Close, DataBit, Output;
      ghost var received := Received(syms, nbits);
      ghost var exact := Exact(oldMetrics[..], code, start, [], inf) && Close(code, start, received, 241);
      var i := 0;
      assert received[..0] == [];
      for t := 0 to nbits
        invariant Valid() && i == 2 * t && dp == 0
        invariant exact ==> Exact(oldMetrics[..], code, start, received[..t], inf)
        invariant exact ==> forall k :: 0 <= k < t ==> Recorded(decisions[k], code, start, received[..k], received[k], inf)
      {
        var sym0, sym1 := DataBit(syms, i), DataBit(syms, i + 1);
        i := i + 2;
        if exact { ExactIsSmall(code, start, received, t, inf, oldMetrics[..]); }
        assert received[..t + 1] == received[..t] + [Symbol(sym0, sym1)];
        Step(sym0, sym1, t, start, received[..t], inf);
      }
      assert received[..nbits] == received;
      dp := -1;
    }

    /** chainback_viterbi_packed: retraces the survivor of endstate, skipping the last six steps. Each step stores the
        register into the byte of its bit; the last store into a byte is the one that counts. */
    method Chainback(data: array<nat>, nbits: nat, endstate: nat, ghost start: nat, ghost received: seq<Symbol>, ghost inf: nat)
      returns (errors: int)
      requires Valid() && endstate < 64 && nbits <= 8 * data.Length && nbits + 6 <= decisions.Length
      requires data != metrics1 && data != metrics2
      modifies data
      ensures old(Searched(start, received, inf)) && |received| == nbits + 6 ==>
                && errors == PathMetric(code, start, received, endstate, inf)
                && forall j :: 0 <= 8 * j < nbits ==> data[j] == PackedByte(Decoded(code, start, received, endstate, inf) + [0, 0], 8 * j)
      ensures forall j :: 0 <= j < data.Length && 8 * j >= nbits ==> data[j] == old(data[j])
    {
      hide Output, Recorded, Decoded, PathMetric, Or;
      errors := oldMetrics[endstate];
      ghost var good := Searched(start, received, inf) && |received| == nbits + 6;
      ghost var u := Decoded(code, start, received, endstate, inf);
      ghost var v := u + [0, 0];
      var register: nat := endstate % 64;
      register := register * 4;
      if good { ChainStart(code, start, received, endstate, inf, nbits); }
      var n := nbits;
      while n > 0
        invariant 0 <= n <= nbits && register < 256
        invariant good ==> register == PackedByte(v, n)
        invariant good ==> forall j :: n <= 8 * j < nbits ==> data[j] == PackedByte(v, 8 * j)
        invariant forall j :: 0 <= j < data.Length && 8 * j >= nbits ==> data[j] == old(data[j])
      {
        n := n - 1;
        var k: nat := Decision(decisions[n + 6], register / 4);
        if good {
          assert Recorded(decisions[n + 6], code, start, received[..n + 6], received[n + 6], inf);
          ChainStep(code, start, received, endstate, inf, n, register, k, decisions[n + 6]);
        }
        Push(register, k);
        register := Or(register / 2, 128 * k);
        data[n / 8] := register;
      }
    }
  }

  /** Bits n to n + 7 in one byte, first bit on top; bits past the end count as zeros. */
  function PackedByte(v: seq<bit>, n: nat): nat {
    4 * Spell(v, n) + 2 * At(v, n + 6) + At(v, n + 7)
  }

  lemma SpellPadded(u: seq<bit>, n: nat)
    requires n + 6 <= |u|
    ensures Spell(u + [0, 0], n) == Spell(u, n)
  {}

  lemma ChainStart(code: Code, start: nat, received: seq<Symbol>, end: nat, inf: nat, nbits: nat)
    requires |received| == nbits + 6 && end < 64
    ensures PackedByte(Decoded(code, start, received, end, inf) + [0, 0], nbits) == 4 * end
  {
    hide Decoded, Spell, Trace;
    var u := Decoded(code, start, received, end, inf);
    TraceSpells(code, start, received, end, inf, nbits);
    SpellPadded(u, nbits);
    assert (u + [0, 0])[nbits + 6] == 0 && (u + [0, 0])[nbits + 7] == 0;
  }

  /** One step of the chainback prepends the bit that was decided six steps later. */
  lemma ChainStep(code: Code, start: nat, received: seq<Symbol>, end: nat, inf: nat, n: nat, register: nat, k: bit, w: seq<nat>)
    requires n + 7 <= |received| && end < 64
    requires Recorded(w, code, start, received[..n + 6], received[n + 6], inf)
    requires register == PackedByte(Decoded(code, start, received, end, inf) + [0, 0], n + 1) && k == Decision(w, register / 4)
    ensures register / 2 + 128 * k == PackedByte(Decoded(code, start, received, end, inf) + [0, 0], n)
  {
    hide Decoded, Trace, Decision, Metric, Miss, OutputOf, Stages;
    var u, p := Decoded(code, start, received, end, inf), Trace(code, start, received, end, inf);
    TraceSpells(code, start, received, end, inf, n);
    TraceSpells(code, start, received, end, inf, n + 1);
    SpellPadded(u, n);
    SpellPadded(u, n + 1);
    assert register / 4 == p[n + 7];
    TraceStep(code, start, received, end, inf, n + 6);
    DueIsSource(code, start, received[..n + 6], received[n + 6], p[n + 7], inf);
    assert p[n + 6] == p[n + 7] / 2 + 32 * k;
    ShiftIn(u + [0, 0], n, k);
  }

  lemma DueIsSource(code: Code, start: nat, received: seq<Symbol>, y: Symbol, s: nat, inf: nat)
    requires s < 64
    ensures Source(Bias(start), Stages(code, received), BranchInto(code, y, s), inf)
            == s / 2 + 32 * DecisionDue(code, start, received, y, s, inf)
  {
    hide Metric, Miss, OutputOf, Stages, Bias, TakesFirst;
    assert s / 2 % 32 == s / 2;
  }

  lemma ShiftIn(v: seq<bit>, n: nat, k: bit)
    requires Spell(v, n) == Spell(v, n + 1) / 2 + 32 * k
    ensures PackedByte(v, n + 1) / 2 + 128 * k == PackedByte(v, n)
  {
    assert k == At(v, n);
  }

  lemma Push(register: nat, k: bit)
    requires register < 256
    ensures Or(register / 2, 128 * k) == register / 2 + 128 * k < 256
  {
    hide Or;
    EightBits();
    OrAbove(register / 2, k, 7);
  }

  lemma ExactIsSmall(code: Code, start: nat, received: seq<Symbol>, t: nat, inf: nat, metrics: seq<nat>)
    requires start < 64 && inf >= 64 + 2 * |received| && Close(code, start, received, 241) && t <= |received|
    requires Exact(metrics, code, start, received[..t], inf)
    ensures Small(metrics)
  {
    hide Close, PathMetric;
    forall s | 0 <= s < 64 ensures metrics[s] <= 253 { MetricsFit(code, start, received, t, s, inf); }
  }

  /** Two more fit into eight bits. */
  ghost predicate Small(metrics: seq<nat>) {
    |metrics| == 64 && forall s :: 0 <= s < 64 ==> metrics[s] <= 253
  }

  lemma NothingFilled(w: seq<nat>)
    requires |w| == 8 && forall j :: 0 <= j < 8 ==> w[j] == 0
    ensures FilledTo(w, 0)
  {}

  /** The states below n have their new metrics and decisions. */
  ghost predicate SelectedTo(code: Code, y: Symbol, n: nat, before: seq<nat>, metrics: seq<nat>, w: seq<nat>) {
    |before| == |metrics| == 64 && n <= 64 &&
    forall s :: 0 <= s < n ==> Selected(code, y, s, before[s / 2], before[s / 2 + 32], metrics[s], w)
  }

  lemma NothingSelected(code: Code, y: Symbol, before: seq<nat>, metrics: seq<nat>, w: seq<nat>)
    requires |before| == |metrics| == 64
    ensures SelectedTo(code, y, 0, before, metrics, w)
  {}

  lemma SelectTwo(code: Code, y: Symbol, b: nat, before: seq<nat>, m: seq<nat>, w: seq<nat>, m': seq<nat>, w': seq<nat>)
    requires b < 32 && |m'| == 64 && SelectedTo(code, y, 2 * b, before, m, w)
    requires forall s :: 0 <= s < 64 && s != 2 * b && s != 2 * b + 1 ==> m'[s] == m[s] && Decision(w', s) == Decision(w, s)
    requires Selected(code, y, 2 * b, before[b], before[b + 32], m'[2 * b], w')
    requires Selected(code, y, 2 * b + 1, before[b], before[b + 32], m'[2 * b + 1], w')
    ensures SelectedTo(code, y, 2 * b + 2, before, m', w')
  {
    hide BranchInto, Decision;
    forall s | 0 <= s < 2 * b + 2 ensures Selected(code, y, s, before[s / 2], before[s / 2 + 32], m'[s], w') {
      assert s < 2 * b ==> Selected(code, y, s, before[s / 2], before[s / 2 + 32], m[s], w);
    }
  }

  lemma StepIsExact(code: Code, start: nat, received: seq<Symbol>, y: Symbol, inf: nat,
                    before: seq<nat>, metrics: seq<nat>, w: seq<nat>)
    requires inf >= 256 && Exact(before, code, start, received, inf) && Small(before)
    requires SelectedTo(code, y, 64, before, metrics, w)
    ensures Exact(metrics, code, start, received + [y], inf) && Recorded(w, code, start, received, y, inf)
  {
    hide Metric, Decision, Miss, OutputOf;
    FrontOfAppend(received, y);
    FrontOfAppend(Stages(code, received), StageFor(code, y));
    forall s: nat | s < 64
      ensures metrics[s] == PathMetric(code, start, received + [y], s, inf)
      ensures Decision(w, s) == DecisionDue(code, start, received, y, s, inf)
    {
      assert Selected(code, y, s, before[s / 2], before[s / 2 + 32], metrics[s], w);
      assert s / 2 % 32 == s / 2;
      MetricStep(code, start, received, y, s, inf);
    }
  }

  lemma MetricStep(code: Code, start: nat, received: seq<Symbol>, y: Symbol, s: nat, inf: nat)
    ensures var b := BranchInto(code, y, s);
            PathMetric(code, start, received + [y], s, inf)
            == Select(PathMetric(code, start, received, b.src0, inf), PathMetric(code, start, received, b.src1, inf), b, inf)
  {
    hide Select, BranchInto;
    FrontOfAppend(received, y);
    FrontOfAppend(Stages(code, received), StageFor(code, y));
  }

  lemma NothingWraps(a: nat, m: nat)
    requires m <= 2
    ensures a <= 253 ==> Byte(a + m) == a + m && Byte(a + m - (m + m - 2)) == a + (2 - m)
  {}

  /** State s has got the metric and the decision that the metrics m0 and m1 of its predecessors call for. */
  ghost predicate Selected(code: Code, y: Symbol, s: nat, m0: nat, m1: nat, m: nat, w: seq<nat>) {
    var b := BranchInto(code, y, s);
    && m == (if m0 + b.cost0 <= m1 + b.cost1 then m0 + b.cost0 else m1 + b.cost1)
    && Decision(w, s) == (if m0 + b.cost0 <= m1 + b.cost1 then 0 else 1)
  }
}
