/** The add-compare-select recursion over a trellis whose states all have two predecessors, as both Viterbi
    decoders run it, and the theorem that its survivors are the cheapest paths. */
module Trellis {
  import opened Sequences

  /** The two ways into a state: predecessor and cost of each. The first one wins ties. */
  datatype Branch = Branch(src0: nat, cost0: nat, src1: nat, cost1: nat)

  /** One time step: the branches into every state. */
  type Stage = nat -> Branch

  /** Metrics of inf stand for unreachable states and stay inf. */
  function Extend(metric: nat, cost: nat, inf: nat): nat {
    if metric < inf then metric + cost else metric
  }

  /** The metric that a state gets from the metrics of its two predecessors. */
  function Select(m0: nat, m1: nat, b: Branch, inf: nat): nat {
    if TakesFirst(m0, m1, b, inf) then Extend(m0, b.cost0, inf) else Extend(m1, b.cost1, inf)
  }

  predicate TakesFirst(m0: nat, m1: nat, b: Branch, inf: nat) {
    Extend(m0, b.cost0, inf) <= Extend(m1, b.cost1, inf)
  }

  /** The metric of state s after all the stages. */
  ghost function Metric(init: nat -> nat, stages: seq<Stage>, s: nat, inf: nat): nat
    decreases |stages|
  {
    if stages == [] then init(s)
    else
      var ss, b := Front(stages), Last(stages)(s);
      Select(Metric(init, ss, b.src0, inf), Metric(init, ss, b.src1, inf), b, inf)
  }

  ghost function Source(init: nat -> nat, stages: seq<Stage>, b: Branch, inf: nat): nat {
    if TakesFirst(Metric(init, stages, b.src0, inf), Metric(init, stages, b.src1, inf), b, inf) then b.src0 else b.src1
  }

  /** The states that traceback from state s visits, first one first. */
  ghost function Survivor(init: nat -> nat, stages: seq<Stage>, s: nat, inf: nat): (p: seq<nat>)
    ensures |p| == |stages| + 1 && Last(p) == s
    decreases |stages|
  {
    if stages == [] then [s]
    else Survivor(init, Front(stages), Source(init, Front(stages), Last(stages)(s), inf), inf) + [s]
  }

  ghost predicate IsBranch(src: nat, dst: nat, stage: Stage) {
    src == stage(dst).src0 || src == stage(dst).src1
  }

  /** A path visits one state before every stage and one after the last, along branches. */
  ghost predicate IsPath(p: seq<nat>, stages: seq<Stage>)
    decreases |stages|
  {
    && |p| == |stages| + 1
    && (stages != [] ==> IsPath(Front(p), Front(stages)) && IsBranch(Last(Front(p)), Last(p), Last(stages)))
  }

  ghost function BranchCost(b: Branch, src: nat): nat {
    if src == b.src0 then b.cost0 else b.cost1
  }

  /** What a path costs: the metric of its first state plus the costs of its branches. */
  ghost function Cost(p: seq<nat>, init: nat -> nat, stages: seq<Stage>): nat
    requires |p| == |stages| + 1
    decreases |stages|
  {
    if stages == [] then init(p[0])
    else Cost(Front(p), init, Front(stages)) + BranchCost(Last(stages)(Last(p)), Last(Front(p)))
  }

  /** p is q, or where they last differ p has the smaller state. */
  ghost predicate NotAfter(p: seq<nat>, q: seq<nat>)
    requires |p| == |q|
  {
    p == [] || Last(p) < Last(q) || (Last(p) == Last(q) && NotAfter(Front(p), Front(q)))
  }

  /** A path to compare with: it starts in a state with a finite metric and ends in one of the n states. */
  ghost predicate Contends(p: seq<nat>, init: nat -> nat, stages: seq<Stage>, n: nat, inf: nat) {
    IsPath(p, stages) && init(p[0]) < inf && Last(p) < n
  }

  ghost predicate NotWorse(p: seq<nat>, q: seq<nat>, init: nat -> nat, stages: seq<Stage>)
    requires |p| == |q| == |stages| + 1
  {
    Cost(p, init, stages) < Cost(q, init, stages) ||
    (Cost(p, init, stages) == Cost(q, init, stages) && NotAfter(p, q))
  }

  /** p is the cheapest contender, and of several cheapest ones it is the one not after any other. */
  ghost predicate Best(p: seq<nat>, init: nat -> nat, stages: seq<Stage>, n: nat, inf: nat) {
    && Contends(p, init, stages, n, inf)
    && forall q :: Contends(q, init, stages, n, inf) ==> NotWorse(p, q, init, stages)
  }

  /** Where two branches meet the first predecessor is the smaller state, and predecessors of the n states
      are among them. */
  ghost predicate Ordered(stages: seq<Stage>, n: nat) {
    forall t, s: nat :: 0 <= t < |stages| && s < n ==> stages[t](s).src0 < stages[t](s).src1 < n
  }

  /** No contender over a prefix of the stages costs inf or more. */
  ghost predicate Bounded(init: nat -> nat, stages: seq<Stage>, n: nat, inf: nat)
    decreases |stages|
  {
    && (forall p :: Contends(p, init, stages, n, inf) ==> Cost(p, init, stages) < inf)
    && (stages != [] ==> Bounded(init, Front(stages), n, inf))
  }

  /** The survivor of a state with a finite metric is a path that costs exactly that metric. */
  lemma {:induction false} SurvivorCost(init: nat -> nat, stages: seq<Stage>, s: nat, n: nat, inf: nat)
    requires Ordered(stages, n) && s < n && Metric(init, stages, s, inf) < inf
    ensures var p := Survivor(init, stages, s, inf);
            IsPath(p, stages) && init(p[0]) < inf && Cost(p, init, stages) == Metric(init, stages, s, inf)
    decreases |stages|
  {
    if stages != [] {
      var r := Source(init, Front(stages), Last(stages)(s), inf);
      assert Last(stages)(s).src0 < Last(stages)(s).src1 < n;
      SurvivorCost(init, Front(stages), r, n, inf);
      assert Front(Survivor(init, stages, s, inf)) == Survivor(init, Front(stages), r, inf);
    }
  }

  /** No path into s costs less than the metric of s, and none that costs the same comes before the survivor. */
  lemma {:induction false} SurvivorBest(init: nat -> nat, stages: seq<Stage>, q: seq<nat>, n: nat, inf: nat)
    requires Ordered(stages, n) && Bounded(init, stages, n, inf) && Contends(q, init, stages, n, inf)
    ensures Metric(init, stages, Last(q), inf) <= Cost(q, init, stages)
    ensures Metric(init, stages, Last(q), inf) == Cost(q, init, stages) ==>
              NotAfter(Survivor(init, stages, Last(q), inf), q)
    decreases |stages|
  {
    if stages == [] {
      assert Front(q) == [];
    } else {
      var ss, s := Front(stages), Last(q);
      assert Last(stages)(s).src1 < n;
      SurvivorBest(init, ss, Front(q), n, inf);
      assert Front(Survivor(init, stages, s, inf)) == Survivor(init, ss, Source(init, ss, Last(stages)(s), inf), inf);
    }
  }

  /** Tracing back from the first of the states with the least metric yields the best of all paths. */
  lemma TracebackIsBest(init: nat -> nat, stages: seq<Stage>, s: nat, n: nat, inf: nat)
    requires Ordered(stages, n) && Bounded(init, stages, n, inf) && s < n
    requires Metric(init, stages, s, inf) < inf
    requires forall i: nat :: i < n ==> Metric(init, stages, s, inf) <= Metric(init, stages, i, inf)
    requires forall i: nat :: i < s ==> Metric(init, stages, s, inf) < Metric(init, stages, i, inf)
    ensures Best(Survivor(init, stages, s, inf), init, stages, n, inf)
  {
    SurvivorCost(init, stages, s, n, inf);
    var p := Survivor(init, stages, s, inf);
    forall q: seq<nat> | Contends(q, init, stages, n, inf) ensures NotWorse(p, q, init, stages) {
      SurvivorBest(init, stages, q, n, inf);
      var e := Last(q);
      assert e < s || e == s || e > s;
    }
  }

  /** Extending a finite metric by the next stage stays below inf, so no addition overflows. */
  lemma ExtensionStaysBelow(init: nat -> nat, stages: seq<Stage>, stage: Stage, src: nat, s: nat, n: nat, inf: nat)
    requires Bounded(init, stages + [stage], n, inf) && s < n && IsBranch(src, s, stage)
    requires Ordered(stages, n) && src < n && Metric(init, stages, src, inf) < inf
    ensures Metric(init, stages, src, inf) + BranchCost(stage(s), src) < inf
  {
    SurvivorCost(init, stages, src, n, inf);
    var p := Survivor(init, stages, src, inf);
    assert Front(p + [s]) == p && Front(stages + [stage]) == stages;
    assert Contends(p + [s], init, stages + [stage], n, inf);
  }

  lemma {:induction false} NotAfterAntisymmetric(p: seq<nat>, q: seq<nat>)
    requires |p| == |q| && NotAfter(p, q) && NotAfter(q, p)
    ensures p == q
    decreases |p|
  {
    if p != [] {
      NotAfterAntisymmetric(Front(p), Front(q));
      assert p == Front(p) + [Last(p)] && q == Front(q) + [Last(q)];
    }
  }

  /** There is only one best path, so being best says everything about a decoder's choice. */
  lemma BestIsUnique(p: seq<nat>, q: seq<nat>, init: nat -> nat, stages: seq<Stage>, n: nat, inf: nat)
    requires Best(p, init, stages, n, inf) && Best(q, init, stages, n, inf)
    ensures p == q
  {
    assert NotWorse(p, q, init, stages) && NotWorse(q, p, init, stages);
    NotAfterAntisymmetric(p, q);
  }
}
