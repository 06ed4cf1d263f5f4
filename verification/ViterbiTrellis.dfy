/** The trellis that ViterbiCodec searches: its paths from state 0 are exactly the messages, and what a path
    costs is the Hamming distance between the message's codeword and the received string. */
module ViterbiTrellis {
  import opened Bits
  import opened Sequences
  import opened Trellis
  import opened Viterbi

  /** The two branches into a state. Both predecessors shift to the state's low bits; its top bit is the input. */
  function BranchInto(code: Code, symbol: string, state: nat): Branch {
    var src, input := state % Half(code) * 2, state / Half(code);
    Branch(src, BranchMetric(code, symbol, src, input), src + 1, BranchMetric(code, symbol, src + 1, input))
  }

  function BranchMetric(code: Code, symbol: string, source: nat, input: nat): nat {
    HammingDistance(symbol, OutputOf(code, source + input * States(code)))
  }

  ghost function StageFor(code: Code, symbol: string): Stage {
    (s: nat) => BranchInto(code, symbol, s)
  }

  ghost function Stages(code: Code, received: seq<string>): (stages: seq<Stage>)
    ensures |stages| == |received|
  {
    if received == [] then [] else Stages(code, Front(received)) + [StageFor(code, Last(received))]
  }

  /** Only state 0 is reachable before the first symbol. */
  ghost function Start(): nat -> nat {
    s => if s == 0 then 0 else INT_MAX
  }

  lemma QuotientBelowTwo(x: nat, h: nat)
    requires x < 2 * h
    ensures x / h < 2
  {
    if x >= h { assert x / h == (x - h) / h + 1; }
  }

  function TopBit(code: Code, state: nat): bit
    requires state < States(code)
  {
    QuotientBelowTwo(state, Half(code));
    state / Half(code)
  }

  /** The sources of a state are the states that some input leads from to it. */
  lemma NextStateIffBranch(code: Code, symbol: string, src: nat, dst: nat)
    requires src < States(code) && dst < States(code)
    ensures IsBranch(src, dst, StageFor(code, symbol)) <==> NextState(code, src, TopBit(code, dst)) == dst
  {
    var h := Half(code);
    assert dst == dst / h * h + dst % h;
  }

  lemma InputIsTopBit(code: Code, src: nat, input: bit)
    requires src < States(code)
    ensures NextState(code, src, input) < States(code) && TopBit(code, NextState(code, src, input)) == input
  {}

  lemma {:induction false} StagesAreOrdered(code: Code, received: seq<string>)
    ensures Ordered(Stages(code, received), States(code))
  {
    if received != [] { StagesAreOrdered(code, Front(received)); }
  }

  /** The inputs along a path are the top bits of its states. */
  function Inputs(code: Code, p: seq<nat>): (u: seq<bit>)
    requires p != []
    ensures |u| == |p| - 1
  {
    if |p| == 1 then []
    else Inputs(code, Front(p)) + [if Last(p) < States(code) then TopBit(code, Last(p)) else 0]
  }

  /** The states that a message visits determine it. */
  lemma {:induction false} InputsOfVisited(code: Code, u: seq<bit>)
    ensures Inputs(code, Visited(code, u)) == u
    decreases |u|
  {
    if u != [] {
      InputsOfVisited(code, Front(u));
      StateBelow(code, Front(u));
      InputIsTopBit(code, StateAfter(code, Front(u)), Last(u));
      FrontOfAppend(Visited(code, Front(u)), StateAfter(code, u));
      FrontLast(u);
    }
  }

  // ---------------------------------------------------------------- distances

  lemma {:induction false} HammingAppend(x: string, y: string, s: string, t: string)
    requires |x| == |y| && |s| == |t|
    ensures HammingDistance(x + s, y + t) == HammingDistance(x, y) + HammingDistance(s, t)
    decreases |s|
  {
    if s == "" {
      assert x + s == x && y + t == y;
    } else {
      HammingAppend(x, y, Front(s), Front(t));
      assert Front(x + s) == x + Front(s) && Front(y + t) == y + Front(t);
    }
  }

  ghost predicate SymbolLengths(ss: seq<string>, n: nat) {
    ss == [] || (|Last(ss)| == n && SymbolLengths(Front(ss), n))
  }

  lemma {:induction false} CodewordLengths(code: Code, u: seq<bit>)
    ensures SymbolLengths(Codeword(code, u), |code.polynomials|)
    decreases |u|
  {
    if u != [] {
      CodewordLengths(code, Front(u));
      FrontOfAppend(Codeword(code, Front(u)), OutputOf(code, Register(code, StateAfter(code, Front(u)), Last(u))));
    }
  }

  /** In a string of symbols of n characters, character j of symbol t is at place n t + j. */
  lemma {:induction false} FlattenedAt(ss: seq<string>, n: nat, t: nat, j: nat)
    requires SymbolLengths(ss, n) && t < |ss| && j < n
    ensures |ss[t]| == n && 0 <= n * t + j < |Flatten(ss)| && Flatten(ss)[n * t + j] == ss[t][j]
    decreases |ss|
  {
    FlattenedLength(Front(ss), n);
    if t < |ss| - 1 { FlattenedAt(Front(ss), n, t, j); }
  }

  lemma {:induction false} FlattenedLength(ss: seq<string>, n: nat)
    requires SymbolLengths(ss, n)
    ensures |Flatten(ss)| == n * |ss|
    decreases |ss|
  {
    if ss != [] {
      FlattenedLength(Front(ss), n);
      assert n * |ss| == n * (|ss| - 1) + n;
    }
  }

  lemma LengthsOfParts(ss: seq<string>, n: nat)
    requires ss != [] && SymbolLengths(ss, n)
    ensures SymbolLengths(Front(ss), n) && |Last(ss)| == n
  {}

  /** Distances add up symbol by symbol. */
  lemma DistanceStep(code: Code, u: seq<bit>, received: seq<string>)
    requires |u| == |received| > 0 && SymbolLengths(received, |code.polynomials|)
    ensures Distance(code, u, received) == Distance(code, Front(u), Front(received))
              + BranchMetric(code, Last(received), StateAfter(code, Front(u)), Last(u))
  {
    hide HammingDistance, OutputOf, StateAfter, SymbolLengths, NextState;
    assert SymbolLengths(Front(received), |code.polynomials|) && |Last(received)| == |code.polynomials| by {
      LengthsOfParts(received, |code.polynomials|);
    }
    var c := Codeword(code, Front(u));
    var x := OutputOf(code, Register(code, StateAfter(code, Front(u)), Last(u)));
    CodewordLengths(code, Front(u));
    FlattenedLength(c, |code.polynomials|);
    FlattenedLength(Front(received), |code.polynomials|);
    FrontOfAppend(c, x);
    HammingAppend(Flatten(Front(received)), Flatten(c), Last(received), x);
  }

  /** A message walks a path from state 0 that costs its distance. */
  lemma {:induction false} MessageIsPath(code: Code, u: seq<bit>, received: seq<string>)
    requires |u| == |received| && SymbolLengths(received, |code.polynomials|)
    ensures var p := Visited(code, u);
            IsPath(p, Stages(code, received)) && p[0] == 0 && Last(p) == StateAfter(code, u) < States(code)
            && Cost(p, Start(), Stages(code, received)) == Distance(code, u, received)
    decreases |u|
  {
    hide OutputOf;
    StateBelow(code, u);
    if u != [] {
      MessageIsPath(code, Front(u), Front(received));
      var src, dst := StateAfter(code, Front(u)), StateAfter(code, u);
      StateBelow(code, Front(u));
      InputIsTopBit(code, src, Last(u));
      NextStateIffBranch(code, Last(received), src, dst);
      FrontOfAppend(Visited(code, Front(u)), dst);
      FrontOfAppend(Stages(code, Front(received)), StageFor(code, Last(received)));
      BranchCostIsMetric(code, Last(received), src, dst);
      DistanceStep(code, u, received);
    }
  }

  lemma BranchCostIsMetric(code: Code, symbol: string, src: nat, dst: nat)
    requires dst < States(code) && IsBranch(src, dst, StageFor(code, symbol))
    ensures BranchCost(StageFor(code, symbol)(dst), src) == BranchMetric(code, symbol, src, TopBit(code, dst))
  {}

  /** A path from state 0 to one of the states is the walk of its inputs. */
  lemma {:induction false} PathIsMessage(code: Code, p: seq<nat>, received: seq<string>)
    requires IsPath(p, Stages(code, received)) && p[0] == 0 && Last(p) < States(code)
    ensures Visited(code, Inputs(code, p)) == p
    decreases |received|
  {
    if received == [] {
      assert p == [0];
    } else {
      var stage := StageFor(code, Last(received));
      FrontOfAppend(Stages(code, Front(received)), stage);
      StagesAreOrdered(code, received);
      assert stage(Last(p)).src1 < States(code);
      PathIsMessage(code, Front(p), Front(received));
      var u := Inputs(code, p);
      FrontOfAppend(Inputs(code, Front(p)), TopBit(code, Last(p)));
      LastVisited(code, Front(u));
      NextStateIffBranch(code, Last(received), Last(Front(p)), Last(p));
      FrontLast(p);
    }
  }

  lemma LastVisited(code: Code, u: seq<bit>)
    ensures Last(Visited(code, u)) == StateAfter(code, u)
  {}

  /** No distance reaches INT_MAX, so INT_MAX can stand for unreachable. */
  lemma {:induction false} DistancesAreBounded(code: Code, received: seq<string>)
    requires SymbolLengths(received, |code.polynomials|) && |Flatten(received)| < INT_MAX
    ensures Bounded(Start(), Stages(code, received), States(code), INT_MAX)
    decreases |received|
  {
    var stages := Stages(code, received);
    forall p | Contends(p, Start(), stages, States(code), INT_MAX) ensures Cost(p, Start(), stages) < INT_MAX {
      PathIsMessage(code, p, received);
      MessageIsPath(code, Inputs(code, p), received);
    }
    if received != [] {
      DistancesAreBounded(code, Front(received));
      FrontOfAppend(Stages(code, Front(received)), StageFor(code, Last(received)));
    }
  }

  /** The best path spells the chosen message. */
  lemma BestIsChosen(code: Code, p: seq<nat>, received: seq<string>)
    requires SymbolLengths(received, |code.polynomials|)
    requires Best(p, Start(), Stages(code, received), States(code), INT_MAX)
    ensures Chosen(code, Inputs(code, p), received)
  {
    var u := Inputs(code, p);
    PathIsMessage(code, p, received);
    MessageIsPath(code, u, received);
    forall v: seq<bit> | |v| == |received| ensures Preferred(code, u, v, received) {
      MessageIsPath(code, v, received);
      assert NotWorse(p, Visited(code, v), Start(), Stages(code, received));
    }
  }

  /** There is only one chosen message. */
  lemma ChosenIsUnique(code: Code, u: seq<bit>, v: seq<bit>, received: seq<string>)
    requires Chosen(code, u, received) && Chosen(code, v, received)
    ensures u == v
  {
    assert Preferred(code, u, v, received) && Preferred(code, v, u, received);
    NotAfterAntisymmetric(Visited(code, u), Visited(code, v));
    InputsOfVisited(code, u);
    InputsOfVisited(code, v);
  }

  // ---------------------------------------------------------------- encoding is inverted

  lemma {:induction false} ZeroDistance(x: string, y: string)
    requires |x| == |y|
    ensures HammingDistance(x, y) == 0 <==> x == y
    decreases |x|
  {
    if x != "" {
      ZeroDistance(Front(x), Front(y));
      FrontLast(x);
      FrontLast(y);
    }
  }

  lemma {:induction false} FlattenIsInjective(x: seq<string>, y: seq<string>, n: nat)
    requires SymbolLengths(x, n) && SymbolLengths(y, n) && |x| == |y| && Flatten(x) == Flatten(y)
    ensures x == y
    decreases |x|
  {
    if x != [] {
      FlattenedLength(Front(x), n);
      FlattenedLength(Front(y), n);
      var f := Flatten(x);
      assert f[|f| - n..] == Last(x) == Last(y);
      assert f[..|f| - n] == Flatten(Front(x)) == Flatten(Front(y));
      FlattenIsInjective(Front(x), Front(y), n);
      FrontLast(x);
      FrontLast(y);
    }
  }

  /** The message part of decoded bits: all but the flushing bits. With fewer decoded bits than flushing bits
      the subtraction in the original wraps around and nothing is removed. */
  function DropFlush(code: Code, u: seq<bit>): seq<bit> {
    if |u| + 1 < code.constraint then u else u[..|u| + 1 - code.constraint]
  }

  /** Whatever message is chosen for an undisturbed encoding, its message part is what was encoded. */
  lemma EncodingIsInverted(code: Code, message: seq<bit>, u: seq<bit>)
    requires Chosen(code, u, Codeword(code, message + Zeros(code.constraint - 1)))
    ensures DropFlush(code, u) == message
  {
    hide HammingDistance, Codeword, Visited;
    var v := message + Zeros(code.constraint - 1);
    var sent, w, n := Codeword(code, v), Codeword(code, u), |code.polynomials|;
    CodewordLengths(code, u);
    CodewordLengths(code, v);
    FlattenedLength(w, n);
    FlattenedLength(sent, n);
    ZeroDistance(Flatten(sent), Flatten(sent));
    assert Preferred(code, u, v, sent);
    ZeroDistance(Flatten(sent), Flatten(w));
    FlattenIsInjective(w, sent, n);
    EncoderIsInjective(code, u, v, |message|);
  }
}
