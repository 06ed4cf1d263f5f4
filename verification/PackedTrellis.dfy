/** The convolutional code of constraint length 7 and rate 1/2 behind the packed Viterbi decoder, its trellis of 64
    states, and the bounds that keep eight-bit path metrics exact. */
module PackedTrellis {
  import opened Arithmetic
  import opened Bits
  import opened Sequences
  import opened Trellis

  /** Two polynomials; a negative one stands for inverted output. */
  datatype Polynomials = Polynomials(p0: int, p1: int)

  function Abs(p: int): nat { if p < 0 then -p else p }

  /** Both the newest and the oldest bit of the register are tapped. */
  predicate Tapped(p: int) { 64 <= Abs(p) < 128 && Abs(p) % 2 == 1 }

  type Code = c: Polynomials | Tapped(c.p0) && Tapped(c.p1) witness Polynomials(0x4f, -0x6d)

  /** The polynomials of the CCSDS convention: the second output is inverted. */
  const CCSDS: Code := Polynomials(0x4f, -0x6d)

  function And(a: nat, b: nat): nat {
    if a == 0 || b == 0 then 0 else 2 * And(a / 2, b / 2) + a % 2 * (b % 2)
  }

  /** The parity of the number of ones. */
  function OddOnes(x: nat): bit { if x == 0 then 0 else (OddOnes(x / 2) + x % 2) % 2 }

  function Inverted(p: int): bit { if p < 0 then 1 else 0 }

  /** The output bit for a register, whose newest bit is the lowest one. */
  function Output(p: int, register: nat): bit {
    (Inverted(p) + OddOnes(And(register, Abs(p)))) % 2
  }

  datatype Symbol = Symbol(y0: bit, y1: bit)

  function OutputOf(code: Code, register: nat): Symbol {
    Symbol(Output(code.p0, register), Output(code.p1, register))
  }

  function Miss(x: Symbol, y: Symbol): (d: nat)
    ensures d <= 2
  {
    (if x.y0 != y.y0 then 1 else 0) + (if x.y1 != y.y1 then 1 else 0)
  }

  /** The state holds the last six inputs, newest in the lowest bit. */
  function NextState(state: nat, input: bit): nat { (2 * state + input) % 64 }

  function StateAfter(start: nat, u: seq<bit>): nat {
    if u == [] then start else NextState(StateAfter(start, Front(u)), Last(u))
  }

  function Codeword(code: Code, start: nat, u: seq<bit>): (c: seq<Symbol>)
    ensures |c| == |u|
  {
    if u == [] then []
    else Codeword(code, start, Front(u)) + [OutputOf(code, 2 * StateAfter(start, Front(u)) + Last(u))]
  }

  /** The number of wrong bits if u was sent. */
  function Distance(code: Code, start: nat, u: seq<bit>, received: seq<Symbol>): nat {
    if u == [] || received == [] then 0
    else Distance(code, start, Front(u), Front(received))
         + Miss(OutputOf(code, 2 * StateAfter(start, Front(u)) + Last(u)), Last(received))
  }

  lemma CodewordStep(code: Code, start: nat, v: seq<bit>)
    requires v != []
    ensures Front(Codeword(code, start, v)) == Codeword(code, start, Front(v))
    ensures Last(Codeword(code, start, v)) == OutputOf(code, 2 * StateAfter(start, Front(v)) + Last(v))
  {
    hide OutputOf, StateAfter;
    FrontOfAppend(Codeword(code, start, Front(v)), OutputOf(code, 2 * StateAfter(start, Front(v)) + Last(v)));
  }

  lemma DistanceStep(code: Code, start: nat, u: seq<bit>, received: seq<Symbol>)
    requires |u| == |received| > 0
    ensures Distance(code, start, u, received) == Distance(code, start, Front(u), Front(received))
              + Miss(OutputOf(code, 2 * StateAfter(start, Front(u)) + Last(u)), Last(received))
  {
    hide OutputOf, StateAfter, Miss;
  }

  ghost function Visited(start: nat, u: seq<bit>): (p: seq<nat>)
    ensures |p| == |u| + 1
  {
    if u == [] then [start] else Visited(start, Front(u)) + [StateAfter(start, u)]
  }

  /** u leads from start to end and no message that does is closer to what was received; of several closest ones it
      is the one whose last state that differs from the other's is smaller. */
  ghost predicate Chosen(code: Code, start: nat, end: nat, u: seq<bit>, received: seq<Symbol>) {
    && |u| == |received| && StateAfter(start, u) == end
    && forall v: seq<bit> :: |v| == |received| && StateAfter(start, v) == end ==> Preferred(code, start, u, v, received)
  }

  ghost predicate Preferred(code: Code, start: nat, u: seq<bit>, v: seq<bit>, received: seq<Symbol>)
    requires |u| == |v|
  {
    Distance(code, start, u, received) < Distance(code, start, v, received) ||
    (Distance(code, start, u, received) == Distance(code, start, v, received)
     && NotAfter(Visited(start, u), Visited(start, v)))
  }

  // ---------------------------------------------------------------- butterflies

  lemma AndOdd(x: nat, b: bit, a: nat)
    requires a % 2 == 1
    ensures OddOnes(And(2 * x + b, a)) == (OddOnes(And(2 * x, a)) + b) % 2
  {
    hide *;
    assert (2 * x + b) / 2 == x && (2 * x + b) % 2 == b;
    OnesOfHalves(And(x, a / 2), 0);
    OnesOfHalves(And(x, a / 2), b);
    AndHalves(2 * x + b, a);
    AndHalves(2 * x, a);
  }

  lemma AndHalves(x: nat, a: nat)
    ensures And(x, a) == 2 * And(x / 2, a / 2) + x % 2 * (a % 2)
  {}

  lemma OnesOfHalves(x: nat, b: bit)
    ensures OddOnes(2 * x + b) == (OddOnes(x) + b) % 2
  {
    assert (2 * x + b) / 2 == x;
  }

  lemma OnesOfAnd(x: nat, a: nat)
    ensures OddOnes(And(x, a)) == (OddOnes(And(x / 2, a / 2)) + (if x % 2 == 1 && a % 2 == 1 then 1 else 0)) % 2
  {
    hide *;
    var b := if x % 2 == 1 && a % 2 == 1 then 1 else 0;
    AndHalves(x, a);
    assert x % 2 * (a % 2) == b;
    OnesOfHalves(And(x / 2, a / 2), b);
  }

  lemma TopOfOne(x: nat, a: nat)
    requires x < Pow2(0) <= a < 2 * Pow2(0)
    ensures OddOnes(And(x + Pow2(0), a)) == (OddOnes(And(x, a)) + 1) % 2
  {
    assert And(1, 1) == 1 && And(0, 1) == 0;
  }

  lemma HalfOfTop(x: nat, a: nat, k: nat)
    requires k > 0 && x < Pow2(k) <= a < 2 * Pow2(k)
    ensures x / 2 < Pow2(k - 1) <= a / 2 < 2 * Pow2(k - 1)
    ensures (x + Pow2(k)) / 2 == x / 2 + Pow2(k - 1) && (x + Pow2(k)) % 2 == x % 2
  {}

  /** The top tap sees the top bit. */
  lemma {:induction false} AndTop(x: nat, a: nat, k: nat)
    requires x < Pow2(k) <= a < 2 * Pow2(k)
    ensures OddOnes(And(x + Pow2(k), a)) == (OddOnes(And(x, a)) + 1) % 2
  {
    hide *;
    if k == 0 {
      TopOfOne(x, a);
    } else {
      var y := x + Pow2(k);
      HalfOfTop(x, a, k);
      AndTop(x / 2, a / 2, k - 1);
      OnesOfAnd(y, a);
      OnesOfAnd(x, a);
    }
  }

  /** The newest and the oldest register bit each invert both outputs. */
  lemma OutputOfRegister(p: int, b: nat, input: bit, top: bit)
    requires Tapped(p) && b < 32
    ensures Output(p, 2 * b + 64 * top + input) == (Output(p, 2 * b) + input + top) % 2
  {
    hide And, OddOnes;
    assert Pow2(6) == 64 by { assert Pow2(3) == 8; }
    AndOdd(b + 32 * top, input, Abs(p));
    AndTop(2 * b, Abs(p), 6);
  }

  /** The branches into state s: from s / 2 and from s / 2 + 32. */
  function BranchInto(code: Code, y: Symbol, s: nat): Branch {
    var b, input := s / 2 % 32, s % 2;
    Branch(b, Miss(OutputOf(code, 2 * b + input), y), b + 32, Miss(OutputOf(code, 2 * (b + 32) + input), y))
  }

  /** The four branch costs of a butterfly follow from one of them. */
  lemma ButterflyCosts(code: Code, y: Symbol, b: nat)
    requires b < 32
    ensures var m := Miss(OutputOf(code, 2 * b), y);
            && BranchInto(code, y, 2 * b) == Branch(b, m, b + 32, 2 - m)
            && BranchInto(code, y, 2 * b + 1) == Branch(b, 2 - m, b + 32, m)
  {
    hide Output;
    OutputOfRegister(code.p0, b, 0, 1); OutputOfRegister(code.p0, b, 1, 0); OutputOfRegister(code.p0, b, 1, 1);
    OutputOfRegister(code.p1, b, 0, 1); OutputOfRegister(code.p1, b, 1, 0); OutputOfRegister(code.p1, b, 1, 1);
    assert 2 * b / 2 % 32 == b && (2 * b + 1) / 2 % 32 == b;
  }

  ghost function StageFor(code: Code, y: Symbol): Stage {
    (s: nat) => BranchInto(code, y, s)
  }

  ghost function Stages(code: Code, received: seq<Symbol>): (stages: seq<Stage>)
    ensures |stages| == |received|
  {
    if received == [] then [] else Stages(code, Front(received)) + [StageFor(code, Last(received))]
  }

  /** The metrics before the first symbol: a known start state has an advantage of 63. */
  ghost function Bias(start: nat): nat -> nat {
    s => if s == start then 0 else 63
  }

  lemma {:induction false} StagesAreOrdered(code: Code, received: seq<Symbol>)
    ensures Ordered(Stages(code, received), 64)
  {
    if received != [] { StagesAreOrdered(code, Front(received)); }
  }

  // ---------------------------------------------------------------- paths are messages

  function Inputs(p: seq<nat>): (u: seq<bit>)
    requires p != []
    ensures |u| == |p| - 1
  {
    if |p| == 1 then [] else Inputs(Front(p)) + [Last(p) % 2]
  }

  lemma NewestInput(state: nat, input: bit)
    ensures NextState(state, input) % 2 == input
  {
    var q := (2 * state + input) / 64;
    assert 2 * state + input == 64 * q + NextState(state, input);
  }

  lemma {:induction false} InputsOfVisited(start: nat, u: seq<bit>)
    ensures Inputs(Visited(start, u)) == u
    decreases |u|
  {
    hide NextState;
    if u != [] {
      NewestInput(StateAfter(start, Front(u)), Last(u));
      InputsOfVisited(start, Front(u));
      FrontOfAppend(Visited(start, Front(u)), StateAfter(start, u));
      FrontLast(u);
    }
  }

  lemma {:induction false} StateBelow(start: nat, u: seq<bit>)
    requires start < 64
    ensures StateAfter(start, u) < 64 && Last(Visited(start, u)) == StateAfter(start, u) && Visited(start, u)[0] == start
    decreases |u|
  {
    if u != [] { StateBelow(start, Front(u)); }
  }

  lemma NextStateIffBranch(code: Code, y: Symbol, src: nat, dst: nat)
    requires src < 64 && dst < 64
    ensures IsBranch(src, dst, StageFor(code, y)) <==> NextState(src, dst % 2) == dst
  {
    hide OutputOf, Miss;
    BranchArithmetic(src, dst);
  }

  lemma BranchArithmetic(src: nat, dst: nat)
    requires src < 64 && dst < 64
    ensures src == dst / 2 % 32 || src == dst / 2 % 32 + 32 <==> (2 * src + dst % 2) % 64 == dst
  {
    assert dst / 2 % 32 == dst / 2;
    if src < 32 { assert (2 * src + dst % 2) % 64 == 2 * src + dst % 2; }
    else { assert (2 * src + dst % 2) % 64 == 2 * src + dst % 2 - 64; }
  }

  lemma BranchCostIsMiss(code: Code, y: Symbol, src: nat, input: bit)
    requires src < 64
    ensures IsBranch(src, NextState(src, input), StageFor(code, y))
    ensures BranchCost(StageFor(code, y)(NextState(src, input)), src) == Miss(OutputOf(code, 2 * src + input), y)
  {
    hide OutputOf, Miss, NextState;
    StateParts(src, input);
  }

  lemma StateParts(src: nat, input: bit)
    requires src < 64
    ensures NextState(src, input) % 2 == input && NextState(src, input) / 2 == src % 32
  {
    if src < 32 { assert (2 * src + input) % 64 == 2 * src + input; }
    else { assert (2 * src + input) % 64 == 2 * src + input - 64; }
  }

  /** A message walks a path that costs its distance, plus the bias of its start. */
  lemma {:induction false} MessageIsPath(code: Code, start: nat, u: seq<bit>, received: seq<Symbol>, init: nat -> nat)
    requires |u| == |received| && start < 64
    ensures IsPath(Visited(start, u), Stages(code, received))
    ensures Cost(Visited(start, u), init, Stages(code, received)) == init(start) + Distance(code, start, u, received)
    decreases |u|
  {
    hide OutputOf, NextState, BranchInto, Miss, StageFor, BranchCost, IsBranch, IsPath, Cost;
    if u == [] {
      NoBranches(start, init);
    } else {
      MessageIsPath(code, start, Front(u), Front(received), init);
      StateBelow(start, Front(u));
      BranchCostIsMiss(code, Last(received), StateAfter(start, Front(u)), Last(u));
      OneMoreBranch(Visited(start, Front(u)), StateAfter(start, u), init, Stages(code, Front(received)),
                    StageFor(code, Last(received)));
    }
  }

  lemma NoBranches(s: nat, init: nat -> nat)
    ensures IsPath([s], []) && Cost([s], init, []) == init(s)
  {}

  lemma OneMoreBranch(p: seq<nat>, s: nat, init: nat -> nat, stages: seq<Stage>, stage: Stage)
    requires IsPath(p, stages) && |p| == |stages| + 1 && IsBranch(Last(p), s, stage)
    ensures IsPath(p + [s], stages + [stage])
    ensures Cost(p + [s], init, stages + [stage]) == Cost(p, init, stages) + BranchCost(stage(s), Last(p))
  {
    hide IsBranch, BranchCost;
    FrontOfAppend(p, s);
    FrontOfAppend(stages, stage);
  }

  /** Every path to one of the states is the walk of its inputs. */
  lemma {:induction false} PathIsMessage(code: Code, p: seq<nat>, received: seq<Symbol>)
    requires IsPath(p, Stages(code, received)) && Last(p) < 64
    ensures p[0] < 64 && Visited(p[0], Inputs(p)) == p
    decreases |received|
  {
    hide NextState;
    if received == [] {
      assert p == [p[0]];
    } else {
      var stage := StageFor(code, Last(received));
      FrontOfAppend(Stages(code, Front(received)), stage);
      assert stage(Last(p)).src1 < 64 && stage(Last(p)).src0 < 64;
      PathIsMessage(code, Front(p), Front(received));
      FrontOfAppend(Inputs(Front(p)), Last(p) % 2);
      StateBelow(p[0], Inputs(Front(p)));
      NextStateIffBranch(code, Last(received), Last(Front(p)), Last(p));
      FrontLast(p);
    }
  }

  lemma {:induction false} CostBound(code: Code, p: seq<nat>, received: seq<Symbol>, start: nat)
    requires IsPath(p, Stages(code, received))
    ensures Cost(p, Bias(start), Stages(code, received)) <= 63 + 2 * |received|
    decreases |received|
  {
    hide OutputOf;
    if received != [] {
      FrontOfAppend(Stages(code, Front(received)), StageFor(code, Last(received)));
      CostBound(code, Front(p), Front(received), start);
    }
  }

  lemma {:induction false} CostsAreBounded(code: Code, received: seq<Symbol>, start: nat, inf: nat)
    requires inf >= 64 + 2 * |received|
    ensures Bounded(Bias(start), Stages(code, received), 64, inf)
    decreases |received|
  {
    forall p | Contends(p, Bias(start), Stages(code, received), 64, inf)
      ensures Cost(p, Bias(start), Stages(code, received)) < inf
    {
      CostBound(code, p, received, start);
    }
    if received != [] {
      FrontOfAppend(Stages(code, Front(received)), StageFor(code, Last(received)));
      CostsAreBounded(code, Front(received), start, inf);
    }
  }

  // ---------------------------------------------------------------- metrics stay small

  /** The metric of state s. */
  ghost function PathMetric(code: Code, start: nat, received: seq<Symbol>, s: nat, inf: nat): nat {
    Metric(Bias(start), Stages(code, received), s, inf)
  }

  /** One step back, to either predecessor, costs at most two. */
  lemma StepBack(code: Code, start: nat, received: seq<Symbol>, s: nat, top: bit, inf: nat)
    requires received != [] && s < 64
    ensures PathMetric(code, start, received, s, inf)
            <= PathMetric(code, start, Front(received), s / 2 + 32 * top, inf) + 2
  {
    hide OutputOf, Bias, Miss;
    FrontOfAppend(Stages(code, Front(received)), StageFor(code, Last(received)));
    assert s / 2 % 32 == s / 2;
  }

  lemma {:induction false} EarlyMetric(code: Code, start: nat, received: seq<Symbol>, s: nat, inf: nat)
    requires s < 64
    ensures PathMetric(code, start, received, s, inf) <= 63 + 2 * |received|
    decreases |received|
  {
    hide PathMetric;
    if received == [] {
      assert PathMetric(code, start, received, s, inf) <= 63 by { NoStages(code, start, s, inf); }
    } else {
      StepBack(code, start, received, s, 0, inf);
      EarlyMetric(code, start, Front(received), s / 2, inf);
    }
  }

  lemma NoStages(code: Code, start: nat, s: nat, inf: nat)
    ensures PathMetric(code, start, [], s, inf) == if s == start then 0 else 63
  {}

  lemma Halve(a: nat, b: nat)
    ensures (a + 2 * b) / 2 == a / 2 + b
  {}

  lemma SplitAt(r: nat, c: nat, d: nat)
    requires c >= 1 && d == 2 * c
    ensures r % d == r % c + (if r / c % 2 == 1 then c else 0)
  {
    var q, bit := r / c / 2, r / c % 2;
    assert r / c * c == q * d + bit * c;
    DivModUnique(r, d, q, (if bit == 1 then c else 0) + r % c);
  }

  lemma SplitRemainder(r: nat)
    requires r < 64
    ensures r % 4 == r % 2 + 2 * (r / 2 % 2) && r % 8 == r % 4 + 4 * (r / 4 % 2) && r % 16 == r % 8 + 8 * (r / 8 % 2)
    ensures r % 32 == r % 16 + 16 * (r / 16 % 2) && r == r % 32 + 32 * (r / 32 % 2)
  {
    SplitAt(r, 2, 4); SplitAt(r, 4, 8); SplitAt(r, 8, 16); SplitAt(r, 16, 32); SplitAt(r, 32, 64);
  }

  /** Going back along the bits of r, lowest first, leads from any state to r. */
  lemma BackTo(s: nat, r: nat)
    requires s < 64 && r < 64
    ensures var s1, s2, s3, s4, s5 := s / 2 + 32 * (r % 2), s / 4 + 16 * (r % 4), s / 8 + 8 * (r % 8),
                                      s / 16 + 4 * (r % 16), s / 32 + 2 * (r % 32);
            && s1 < 64 && s2 < 64 && s3 < 64 && s4 < 64 && s5 < 64
            && s2 == s1 / 2 + 32 * (r / 2 % 2) && s3 == s2 / 2 + 32 * (r / 4 % 2) && s4 == s3 / 2 + 32 * (r / 8 % 2)
            && s5 == s4 / 2 + 32 * (r / 16 % 2) && r == s5 / 2 + 32 * (r / 32 % 2)
  {
    SplitRemainder(r);
    Halve(s / 2, 16 * (r % 2));
    Halve(s / 4, 8 * (r % 4));
    Halve(s / 8, 4 * (r % 8));
    Halve(s / 16, 2 * (r % 16));
    Halve(s / 32, r % 32);
  }

  /** After six steps every state can be reached from every other one, so metrics differ by at most twelve. */
  lemma Spread(code: Code, start: nat, received: seq<Symbol>, s: nat, r: nat, inf: nat)
    requires |received| >= 6 && s < 64 && r < 64
    ensures PathMetric(code, start, received, s, inf)
            <= PathMetric(code, start, received[..|received| - 6], r, inf) + 12
  {
    hide *;
    var n := |received|;
    var s1, s2, s3, s4, s5 := s / 2 + 32 * (r % 2), s / 4 + 16 * (r % 4), s / 8 + 8 * (r % 8),
                              s / 16 + 4 * (r % 16), s / 32 + 2 * (r % 32);
    BackTo(s, r);
    PrefixStepBack(code, start, received, n, s, r % 2, inf, s1);
    PrefixStepBack(code, start, received, n - 1, s1, r / 2 % 2, inf, s2);
    PrefixStepBack(code, start, received, n - 2, s2, r / 4 % 2, inf, s3);
    PrefixStepBack(code, start, received, n - 3, s3, r / 8 % 2, inf, s4);
    PrefixStepBack(code, start, received, n - 4, s4, r / 16 % 2, inf, s5);
    PrefixStepBack(code, start, received, n - 5, s5, r / 32 % 2, inf, r);
    assert received[..n] == received;
  }

  lemma PrefixStepBack(code: Code, start: nat, received: seq<Symbol>, i: nat, s: nat, top: bit, inf: nat, r: nat)
    requires 1 <= i <= |received| && s < 64 && r == s / 2 + 32 * top
    ensures PathMetric(code, start, received[..i], s, inf) <= PathMetric(code, start, received[..i - 1], r, inf) + 2
  {
    hide *;
    assert Front(received[..i]) == received[..i - 1] by { FrontOfPrefix(received, i - 1); }
    StepBack(code, start, received[..i], s, top, inf);
  }

  /** Some message from the start state is within the limit of what was received. */
  ghost predicate Close(code: Code, start: nat, received: seq<Symbol>, limit: nat) {
    exists u: seq<bit> :: |u| == |received| && Distance(code, start, u, received) <= limit
  }

  lemma {:induction false} PrefixIsCloser(code: Code, start: nat, u: seq<bit>, received: seq<Symbol>, i: nat)
    requires |u| == |received| && i <= |u|
    ensures Distance(code, start, u[..i], received[..i]) <= Distance(code, start, u, received)
    decreases |u|
  {
    hide OutputOf, Miss, StateAfter;
    if i == |u| {
      assert u[..i] == u && received[..i] == received;
    } else {
      PrefixIsCloser(code, start, Front(u), Front(received), i);
      assert Front(u)[..i] == u[..i] && Front(received)[..i] == received[..i];
    }
  }

  /** The metric of the state that a message leads to is at most the distance of the message. */
  lemma MetricBelowDistance(code: Code, start: nat, u: seq<bit>, received: seq<Symbol>, inf: nat)
    requires |u| == |received| && start < 64 && inf >= 64 + 2 * |received|
    ensures StateAfter(start, u) < 64
    ensures PathMetric(code, start, received, StateAfter(start, u), inf) <= Distance(code, start, u, received)
  {
    hide Distance, Stages, StateAfter, Cost, Metric, IsPath, Survivor, Bounded, Ordered;
    var q := Visited(start, u);
    StateBelow(start, u);
    MessageIsPath(code, start, u, received, Bias(start));
    StagesAreOrdered(code, received);
    CostsAreBounded(code, received, start, inf);
    SurvivorBest(Bias(start), Stages(code, received), q, 64, inf);
  }

  /** With a message within 241 of what was received, no metric ever exceeds 253, so two more fit into eight bits. */
  lemma MetricsFit(code: Code, start: nat, received: seq<Symbol>, i: nat, s: nat, inf: nat)
    requires start < 64 && inf >= 64 + 2 * |received| && Close(code, start, received, 241) && i <= |received| && s < 64
    ensures PathMetric(code, start, received[..i], s, inf) <= 253
  {
    hide Distance, PathMetric, StateAfter;
    var u: seq<bit> :| |u| == |received| && Distance(code, start, u, received) <= 241;
    if i < 6 {
      EarlyMetric(code, start, received[..i], s, inf);
    } else {
      var j := i - 6;
      PrefixIsCloser(code, start, u, received, j);
      MetricBelowDistance(code, start, u[..j], received[..j], inf);
      Spread(code, start, received[..i], s, StateAfter(start, u[..j]), inf);
      assert received[..i][..j] == received[..j];
    }
  }

  // ---------------------------------------------------------------- the survivor is the closest message

  ghost function Decoded(code: Code, start: nat, received: seq<Symbol>, end: nat, inf: nat): (u: seq<bit>)
    ensures |u| == |received|
  {
    Inputs(Survivor(Bias(start), Stages(code, received), end, inf))
  }

  /** The distance of a message that starts in state s, with the handicap of a start state that is not the known one. */
  function Handicapped(code: Code, start: nat, s: nat, u: seq<bit>, received: seq<Symbol>): nat {
    (if s == start then 0 else 63) + Distance(code, s, u, received)
  }

  /** Of all messages that lead to end, from whatever start state, u from state s is the closest one with handicap; of
      several closest ones it is the one whose last state that differs is smaller. */
  ghost predicate ChosenOfAll(code: Code, start: nat, end: nat, s: nat, u: seq<bit>, received: seq<Symbol>) {
    && |u| == |received| && s < 64 && StateAfter(s, u) == end
    && forall r: nat, v: seq<bit> :: r < 64 && |v| == |received| && StateAfter(r, v) == end ==>
         NotFarther(code, start, s, u, r, v, received)
  }

  ghost predicate NotFarther(code: Code, start: nat, s: nat, u: seq<bit>, r: nat, v: seq<bit>, received: seq<Symbol>) {
    Handicapped(code, start, s, u, received) < Handicapped(code, start, r, v, received) ||
    (Handicapped(code, start, s, u, received) == Handicapped(code, start, r, v, received)
     && |u| == |v| && NotAfter(Visited(s, u), Visited(r, v)))
  }

  /** Whatever was received, the survivor of end is the closest message with handicap, and the metric of end is its
      distance with handicap. */
  lemma SurvivorIsChosenOfAll(code: Code, start: nat, received: seq<Symbol>, end: nat, inf: nat) returns (s: nat)
    requires start < 64 && end < 64 && inf >= 64 + 2 * |received|
    ensures var u := Decoded(code, start, received, end, inf);
            ChosenOfAll(code, start, end, s, u, received)
            && PathMetric(code, start, received, end, inf) == Handicapped(code, start, s, u, received)
  {
    hide Distance, Stages, StateAfter, Cost, Metric, IsPath, Survivor, Bounded, Ordered, Inputs, Visited, NotAfter;
    var stages, p := Stages(code, received), Survivor(Bias(start), Stages(code, received), end, inf);
    var u := Inputs(p);
    EarlyMetric(code, start, received, end, inf);
    StagesAreOrdered(code, received);
    CostsAreBounded(code, received, start, inf);
    SurvivorCost(Bias(start), stages, end, 64, inf);
    PathIsMessage(code, p, received);
    s := p[0];
    MessageIsPath(code, s, u, received, Bias(start));
    StateBelow(s, u);
    forall r: nat, v: seq<bit> | r < 64 && |v| == |received| && StateAfter(r, v) == end
      ensures NotFarther(code, start, s, u, r, v, received)
    {
      StateBelow(r, v);
      MessageIsPath(code, r, v, received, Bias(start));
      SurvivorBest(Bias(start), stages, Visited(r, v), 64, inf);
    }
  }

  /** If some message that leads to end is within 62 of what was received, then the survivor of end is the chosen one
      and the metric of end is its distance. */
  lemma SurvivorIsChosen(code: Code, start: nat, received: seq<Symbol>, end: nat, inf: nat, v: seq<bit>)
    requires start < 64 && inf >= 64 + 2 * |received|
    requires |v| == |received| && StateAfter(start, v) == end && Distance(code, start, v, received) < 63
    ensures end < 64
    ensures var u := Decoded(code, start, received, end, inf);
            Chosen(code, start, end, u, received)
            && PathMetric(code, start, received, end, inf) == Distance(code, start, u, received)
  {
    hide Distance, Stages, StateAfter, Cost, Metric, IsPath, Survivor, Bounded, Ordered, Inputs, Visited, NotAfter;
    var stages, p := Stages(code, received), Survivor(Bias(start), Stages(code, received), end, inf);
    var u := Inputs(p);
    StateBelow(start, v);
    StagesAreOrdered(code, received);
    CostsAreBounded(code, received, start, inf);
    MetricBelowDistance(code, start, v, received, inf);
    SurvivorCost(Bias(start), stages, end, 64, inf);
    PathIsMessage(code, p, received);
    MessageIsPath(code, p[0], u, received, Bias(start));
    assert p[0] == start;
    StateBelow(start, u);
    forall w: seq<bit> | |w| == |received| && StateAfter(start, w) == end ensures Preferred(code, start, u, w, received) {
      StateBelow(start, w);
      MessageIsPath(code, start, w, received, Bias(start));
      SurvivorBest(Bias(start), stages, Visited(start, w), 64, inf);
    }
  }

  /** Conversely a metric below 63 is the distance of such a message. */
  lemma SmallMetricIsDistance(code: Code, start: nat, received: seq<Symbol>, end: nat, inf: nat)
    requires start < 64 && end < 64 && inf >= 64 + 2 * |received| && PathMetric(code, start, received, end, inf) < 63
    ensures var u := Decoded(code, start, received, end, inf);
            StateAfter(start, u) == end && Distance(code, start, u, received) < 63
  {
    hide Distance, Stages, StateAfter, Cost, Metric, IsPath, Survivor, Ordered, Inputs, Visited;
    var p := Survivor(Bias(start), Stages(code, received), end, inf);
    StagesAreOrdered(code, received);
    SurvivorCost(Bias(start), Stages(code, received), end, 64, inf);
    PathIsMessage(code, p, received);
    MessageIsPath(code, p[0], Inputs(p), received, Bias(start));
    StateBelow(p[0], Inputs(p));
  }

  lemma ChosenIsUnique(code: Code, start: nat, end: nat, u: seq<bit>, v: seq<bit>, received: seq<Symbol>)
    requires Chosen(code, start, end, u, received) && Chosen(code, start, end, v, received)
    ensures u == v
  {
    hide Distance, StateAfter, NotAfter;
    assert Preferred(code, start, u, v, received) && Preferred(code, start, v, u, received);
    NotAfterAntisymmetric(Visited(start, u), Visited(start, v));
    InputsOfVisited(start, u);
    InputsOfVisited(start, v);
  }

  // ---------------------------------------------------------------- tracing the survivor back

  function At(v: seq<bit>, n: nat): bit { if n < |v| then v[n] else 0 }

  /** Bits n to n + 5 as the state that they lead to. */
  function Spell(v: seq<bit>, n: nat): (s: nat)
    ensures s < 64
  {
    32 * At(v, n) + 16 * At(v, n + 1) + 8 * At(v, n + 2) + 4 * At(v, n + 3) + 2 * At(v, n + 4) + At(v, n + 5)
  }

  ghost function Trace(code: Code, start: nat, received: seq<Symbol>, end: nat, inf: nat): (p: seq<nat>)
    ensures |p| == |received| + 1 && Last(p) == end
  {
    Survivor(Bias(start), Stages(code, received), end, inf)
  }

  /** The survivor goes back from every state to the source that was selected for it. */
  lemma {:induction false} TraceStep(code: Code, start: nat, received: seq<Symbol>, end: nat, inf: nat, t: nat)
    requires end < 64 && t < |received|
    ensures var p := Trace(code, start, received, end, inf);
            p[t + 1] < 64 && p[t] < 64
            && p[t] == Source(Bias(start), Stages(code, received[..t]), BranchInto(code, received[t], p[t + 1]), inf)
    decreases |received|
  {
    hide Metric, Miss, OutputOf;
    var ss := Stages(code, Front(received));
    FrontOfAppend(ss, StageFor(code, Last(received)));
    var b := BranchInto(code, Last(received), end);
    assert b.src0 < 64 && b.src1 < 64;
    if t == |received| - 1 {
      assert received[..t] == Front(received);
    } else {
      TraceStep(code, start, Front(received), Source(Bias(start), ss, b, inf), inf, t);
      assert Front(received)[..t] == received[..t];
    }
  }

  lemma {:induction false} InputsAt(p: seq<nat>, t: nat)
    requires t + 1 < |p|
    ensures Inputs(p)[t] == p[t + 1] % 2
  {
    if t + 2 < |p| { InputsAt(Front(p), t); }
  }

  /** The next state of the survivor takes in the decoded bit. */
  lemma TraceWalks(code: Code, start: nat, received: seq<Symbol>, end: nat, inf: nat, t: nat)
    requires end < 64 && t < |received|
    ensures var p, u := Trace(code, start, received, end, inf), Decoded(code, start, received, end, inf);
            p[t + 1] < 64 && p[t] < 64 && p[t + 1] == NextState(p[t], u[t])
  {
    hide Metric, Miss, OutputOf, Survivor, Stages, Inputs;
    var p := Trace(code, start, received, end, inf);
    TraceStep(code, start, received, end, inf, t);
    InputsAt(p, t);
    BranchArithmetic(p[t], p[t + 1]);
  }

  /** The low bits of the next state. */
  lemma NextLow(s: nat, x: bit, m: nat, c: nat, r: nat)
    requires m >= 1 && s % m == r && c * (2 * m) == 64
    ensures NextState(s, x) % (2 * m) == 2 * r + x
  {
    hide *;
    var d, y := 2 * m, 2 * s + x;
    assert s == s / m * m + r;
    assert y == s / m * d + (2 * r + x);
    DivModUnique(y, d, s / m, 2 * r + x);
    ModOfMod(y, d, c);
    NextUnfolds(s, x);
  }

  lemma NextUnfolds(s: nat, x: bit)
    ensures NextState(s, x) == (2 * s + x) % 64
  {}

  lemma ModOfMod(y: nat, d: nat, c: nat)
    requires d >= 1 && c * d == 64
    ensures y % 64 % d == y % d
  {
    assert y == y % 64 + y / 64 * 64;
    assert y / 64 * 64 == y / 64 * c * d;
    AddMultiple(y % 64, y / 64 * c, d);
  }

  /** From the sixth step on the states of the survivor spell the last six decoded bits. */
  lemma TraceSpells(code: Code, start: nat, received: seq<Symbol>, end: nat, inf: nat, t: nat)
    requires end < 64 && t + 6 <= |received|
    ensures Trace(code, start, received, end, inf)[t + 6] == Spell(Decoded(code, start, received, end, inf), t)
  {
    hide NextState, Decoded, Trace;
    var p, u := Trace(code, start, received, end, inf), Decoded(code, start, received, end, inf);
    TraceWalks(code, start, received, end, inf, t);
    NextLow(p[t], u[t], 1, 32, 0);
    TraceWalks(code, start, received, end, inf, t + 1);
    NextLow(p[t + 1], u[t + 1], 2, 16, At(u, t));
    TraceWalks(code, start, received, end, inf, t + 2);
    NextLow(p[t + 2], u[t + 2], 4, 8, 2 * At(u, t) + At(u, t + 1));
    TraceWalks(code, start, received, end, inf, t + 3);
    NextLow(p[t + 3], u[t + 3], 8, 4, 4 * At(u, t) + 2 * At(u, t + 1) + At(u, t + 2));
    TraceWalks(code, start, received, end, inf, t + 4);
    NextLow(p[t + 4], u[t + 4], 16, 2, 8 * At(u, t) + 4 * At(u, t + 1) + 2 * At(u, t + 2) + At(u, t + 3));
    TraceWalks(code, start, received, end, inf, t + 5);
    NextLow(p[t + 5], u[t + 5], 32, 1, 16 * At(u, t) + 8 * At(u, t + 1) + 4 * At(u, t + 2) + 2 * At(u, t + 3) + At(u, t + 4));
  }
}
