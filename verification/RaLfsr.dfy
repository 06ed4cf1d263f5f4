/** The linear feedback shift register of the repeat-accumulate code, which runs through the positions of a packet in a
    scrambled order by skipping the states that are too large. */
module RaLfsr {
  import opened Arithmetic
  import opened Bits
  import opened ExclusiveOr
  import opened Sequences

  /** The packet length in words, the position of the register's top bit, and the feedback mask. */
  datatype Register = Register(dataLength: nat, highbit: nat, mask: nat)

  ghost predicate Sound(l: Register) {
    && 1 <= l.dataLength < Pow2(l.highbit + 1) && l.highbit <= 14
    && Pow2(l.highbit) <= l.mask < Pow2(l.highbit + 1)
  }

  type Lfsr = l: Register | Sound(l) ghost witness Smallest()

  ghost function Smallest(): (l: Register)
    ensures Sound(l)
  {
    Register(1, 0, 1)
  }

  ghost predicate InRegister(l: Register, s: nat) { 0 < s < Pow2(l.highbit + 1) }

  predicate InPacket(l: Register, s: nat) { 0 < s <= l.dataLength }

  /** One raw step. */
  function Down(l: Register, s: nat): nat {
    if s % 2 == 1 then Xor(s / 2, l.mask) else s / 2
  }

  /** One raw step back. */
  function Up(l: Register, s: nat): nat {
    if High(s, l.highbit) == 1 then Xor(2 * s, 2 * l.mask + 1) else 2 * s
  }

  // ---------------------------------------------------------------- the raw steps are inverse to each other

  lemma DownInRegister(l: Lfsr, s: nat)
    requires InRegister(l, s)
    ensures InRegister(l, Down(l, s)) && (s % 2 == 1 <==> Down(l, s) >= Pow2(l.highbit))
  {
    hide Xor;
    if s % 2 == 1 { XorWithTop(s / 2, l.mask, l.highbit); }
  }

  /** A step back undoes a step. */
  lemma UpAfterDown(l: Lfsr, s: nat)
    requires InRegister(l, s)
    ensures Up(l, Down(l, s)) == s
  {
    hide Xor, High;
    DownInRegister(l, s);
    TopBitSet(Down(l, s), l.highbit);
    if s % 2 == 1 {
      XorOfParts(Xor(s / 2, l.mask), l.mask, 0, 1);
      XorCommutes(s / 2, l.mask);
      XorCommutes(Xor(l.mask, s / 2), l.mask);
      XorCancel(l.mask, s / 2);
    }
  }

  /** A step undoes a step back. */
  lemma DownAfterUp(l: Lfsr, s: nat)
    requires InRegister(l, s)
    ensures InRegister(l, Up(l, s)) && Down(l, Up(l, s)) == s
  {
    hide Xor, High;
    TopBitSet(s, l.highbit);
    if s >= Pow2(l.highbit) {
      XorBothTop(s, l.mask, l.highbit);
      XorOfParts(s, l.mask, 0, 1);
      XorCancel(l.mask, s);
    }
  }

  // ---------------------------------------------------------------- runs of raw steps

  function Steps(l: Register, s: nat, n: nat): nat {
    if n == 0 then s else Down(l, Steps(l, s, n - 1))
  }

  lemma {:induction false} StepsInRegister(l: Lfsr, s: nat, n: nat)
    requires InRegister(l, s)
    ensures InRegister(l, Steps(l, s, n))
    decreases n
  {
    hide Down, InRegister;
    if n > 0 {
      StepsInRegister(l, s, n - 1);
      DownInRegister(l, Steps(l, s, n - 1));
    }
  }

  lemma {:induction false} StepsAdd(l: Register, s: nat, m: nat, n: nat)
    ensures Steps(l, s, m + n) == Steps(l, Steps(l, s, m), n)
    decreases n
  {
    hide Down;
    if n > 0 { StepsAdd(l, s, m, n - 1); }
  }

  /** Equal states have had equal predecessors. */
  lemma {:induction false} StepsInjective(l: Lfsr, s: nat, t: nat, n: nat)
    requires InRegister(l, s) && InRegister(l, t) && Steps(l, s, n) == Steps(l, t, n)
    ensures s == t
    decreases n
  {
    hide Down, Up, InRegister;
    if n > 0 {
      StepsInRegister(l, s, n - 1);
      StepsInRegister(l, t, n - 1);
      UpAfterDown(l, Steps(l, s, n - 1));
      UpAfterDown(l, Steps(l, t, n - 1));
      StepsInjective(l, s, t, n - 1);
    }
  }

  ghost function Orbit(l: Register, s: nat, n: nat): (o: seq<nat>)
    ensures |o| == n
  {
    seq(n, i requires 0 <= i < n => Steps(l, s, i))
  }

  ghost function Range(n: nat): (r: seq<nat>)
    ensures |r| == n
  {
    seq(n, i => i + 1)
  }

  /** The register is finite and its step is one to one, so every state comes again. */
  lemma Returns(l: Lfsr, s: nat) returns (p: nat)
    requires InRegister(l, s)
    ensures 1 <= p < Pow2(l.highbit + 1) && Steps(l, s, p) == s
  {
    hide Steps, Down;
    var m := Pow2(l.highbit + 1);
    var o := Orbit(l, s, m);
    forall i | 0 <= i < m ensures o[i] in Range(m - 1) {
      StepsInRegister(l, s, i);
      assert Range(m - 1)[o[i] - 1] == o[i];
    }
    if forall i, j :: 0 <= i < j < m ==> o[i] != o[j] {
      DistinctInto(o, Range(m - 1));
    }
    var i: nat, j: nat :| i < j < m && o[i] == o[j];
    p := j - i;
    StepsAdd(l, s, p, i);
    StepsInRegister(l, s, p);
    StepsInjective(l, s, Steps(l, s, p), i);
  }

  // ---------------------------------------------------------------- skipping

  /** n is the number of raw steps to the next state within the packet length. */
  ghost predicate Skips(l: Register, s: nat, n: nat) {
    n >= 1 && InPacket(l, Steps(l, s, n)) && forall i :: 0 < i < n ==> !InPacket(l, Steps(l, s, i))
  }

  lemma FirstHit(l: Lfsr, s: nat) returns (n: nat)
    requires InPacket(l, s)
    ensures Skips(l, s, n)
  {
    hide Steps;
    var p := Returns(l, s);
    n := 1;
    while !InPacket(l, Steps(l, s, n))
      invariant 1 <= n <= p && forall i :: 0 < i < n ==> !InPacket(l, Steps(l, s, i))
      decreases p - n
    {
      n := n + 1;
    }
  }

  /** The next state within the packet length. */
  ghost function Next(l: Lfsr, s: nat): nat
    requires InPacket(l, s)
  {
    assert exists n :: Skips(l, s, n) by { var m := FirstHit(l, s); }
    var n: nat :| Skips(l, s, n);
    Steps(l, s, n)
  }

  lemma NextIs(l: Lfsr, s: nat, n: nat)
    requires InPacket(l, s) && Skips(l, s, n)
    ensures Next(l, s) == Steps(l, s, n) && InPacket(l, Next(l, s))
  {
    hide Steps;
    var m: nat :| Skips(l, s, m) && Next(l, s) == Steps(l, s, m);
    assert InPacket(l, Steps(l, s, m)) && InPacket(l, Steps(l, s, n));
    assert m == n;
  }

  lemma NextInPacket(l: Lfsr, s: nat)
    requires InPacket(l, s)
    ensures InPacket(l, Next(l, s))
  {
    hide Next, Steps;
    var n := FirstHit(l, s);
    NextIs(l, s, n);
  }

  function StepsUp(l: Register, s: nat, n: nat): nat {
    if n == 0 then s else Up(l, StepsUp(l, s, n - 1))
  }

  lemma PacketInRegister(l: Lfsr, s: nat)
    requires InPacket(l, s)
    ensures InRegister(l, s)
  {}

  /** Steps back from a later state run through the states in between. */
  lemma {:induction false} StepsBack(l: Lfsr, s: nat, n: nat, i: nat)
    requires InRegister(l, s) && i <= n
    ensures StepsUp(l, Steps(l, s, n), i) == Steps(l, s, n - i)
    decreases i
  {
    hide Up, Down, InRegister;
    if i > 0 {
      StepsBack(l, s, n, i - 1);
      StepsInRegister(l, s, n - i);
      UpAfterDown(l, Steps(l, s, n - i));
    }
  }

  /** The states after k skips each, without the first one. */
  ghost function States(l: Lfsr, s: nat, k: nat): (v: seq<nat>)
    requires InPacket(l, s)
    ensures |v| == k && forall i :: 0 <= i < k ==> InPacket(l, v[i])
    decreases k
  {
    if k == 0 then []
    else
      var v := States(l, s, k - 1);
      NextInPacket(l, if v == [] then s else Last(v));
      v + [Next(l, if v == [] then s else Last(v))]
  }

  /** Where the k-th skip starts from. */
  ghost function StateAt(l: Lfsr, s: nat, k: nat): (t: nat)
    requires InPacket(l, s)
    ensures InPacket(l, t)
  {
    if k == 0 then s else States(l, s, k)[k - 1]
  }

  lemma StatesStep(l: Lfsr, s: nat, k: nat)
    requires InPacket(l, s)
    ensures StateAt(l, s, k + 1) == Next(l, StateAt(l, s, k))
    ensures States(l, s, k + 1) == States(l, s, k) + [StateAt(l, s, k + 1)]
  {
    hide Next;
  }

  lemma {:induction false} StatesPrefix(l: Lfsr, s: nat, k: nat, n: nat)
    requires InPacket(l, s) && k <= n
    ensures States(l, s, n)[..k] == States(l, s, k)
    decreases n
  {
    hide Next;
    if k < n {
      StatesPrefix(l, s, k, n - 1);
      StatesStep(l, s, n - 1);
    }
  }

  // ---------------------------------------------------------------- coverage

  /** The raw step runs through all nonzero states in a single cycle. */
  ghost predicate SingleCycle(l: Lfsr) {
    forall s, t :: InRegister(l, s) && InRegister(l, t) ==> Reaches(l, s, t)
  }

  ghost predicate Reaches(l: Register, s: nat, t: nat) { exists n: nat :: Steps(l, s, n) == t }

  /** The states within the packet length among the first n raw steps. */
  ghost function Seen(l: Register, s: nat, n: nat): seq<nat>
    decreases n
  {
    if n == 0 then [] else Seen(l, s, n - 1) + if InPacket(l, Steps(l, s, n)) then [Steps(l, s, n)] else []
  }

  lemma {:induction false} SeenAreSteps(l: Register, s: nat, n: nat, k: nat) returns (i: nat)
    requires k < |Seen(l, s, n)|
    ensures 0 < i <= n && Steps(l, s, i) == Seen(l, s, n)[k] && InPacket(l, Steps(l, s, i))
    decreases n
  {
    hide Steps, InPacket;
    if k < |Seen(l, s, n - 1)| { i := SeenAreSteps(l, s, n - 1, k); } else { i := n; }
  }

  lemma {:induction false} StepsAreSeen(l: Register, s: nat, n: nat, i: nat)
    requires 0 < i <= n && InPacket(l, Steps(l, s, i))
    ensures Steps(l, s, i) in Seen(l, s, n)
    decreases n
  {
    hide Steps, InPacket;
    if i < n { StepsAreSeen(l, s, n - 1, i); }
  }

  ghost predicate NoRepeats(v: seq<nat>) { forall i, j :: 0 <= i < j < |v| ==> v[i] != v[j] }

  /** As long as the raw steps do not repeat, nothing is seen twice. */
  lemma {:induction false} SeenOnce(l: Register, s: nat, n: nat)
    requires forall i, j :: 0 < i < j <= n ==> Steps(l, s, i) != Steps(l, s, j)
    ensures NoRepeats(Seen(l, s, n))
    decreases n
  {
    hide Steps, InPacket;
    if n > 0 {
      SeenOnce(l, s, n - 1);
      var v, u := Seen(l, s, n), Seen(l, s, n - 1);
      forall i, j | 0 <= i < j < |v| ensures v[i] != v[j] {
        var a := SeenAreSteps(l, s, n - 1, i);
        if j < |u| { assert v[j] == u[j] && v[i] == u[i]; }
      }
    }
  }

  /** Skipping visits exactly what the raw steps see within the packet length. */
  lemma {:induction false} SkipsFollowSteps(l: Lfsr, s: nat, n: nat) returns (m: nat)
    requires InPacket(l, s)
    ensures States(l, s, |Seen(l, s, n)|) == Seen(l, s, n)
    ensures m <= n && StateAt(l, s, |Seen(l, s, n)|) == Steps(l, s, m)
    ensures forall i :: m < i <= n ==> !InPacket(l, Steps(l, s, i))
    decreases n
  {
    hide Next, InPacket, Down;
    if n == 0 {
      m := 0;
    } else {
      m := SkipsFollowSteps(l, s, n - 1);
      if InPacket(l, Steps(l, s, n)) {
        var t, k := Steps(l, s, m), n - m;
        forall i: nat ensures Steps(l, t, i) == Steps(l, s, m + i) { StepsAdd(l, s, m, i); }
        assert Skips(l, t, k);
        NextIs(l, t, k);
        StatesStep(l, s, |Seen(l, s, n - 1)|);
        m := n;
      }
    }
  }

  /** The first time a state comes again. */
  lemma Period(l: Lfsr, s: nat) returns (p: nat)
    requires InRegister(l, s)
    ensures p >= 1 && Steps(l, s, p) == s && forall i :: 0 < i < p ==> Steps(l, s, i) != s
  {
    hide Steps, InRegister;
    var q := Returns(l, s);
    p := 1;
    while Steps(l, s, p) != s
      invariant 1 <= p <= q && forall i :: 0 < i < p ==> Steps(l, s, i) != s
      decreases q - p
    {
      p := p + 1;
    }
  }

  lemma DifferentWithinPeriod(l: Lfsr, s: nat, p: nat)
    requires InRegister(l, s) && forall i :: 0 < i < p ==> Steps(l, s, i) != s
    ensures forall i, j :: 0 < i < j <= p ==> Steps(l, s, i) != Steps(l, s, j)
  {
    hide Steps, InRegister;
    forall i, j | 0 < i < j <= p ensures Steps(l, s, i) != Steps(l, s, j) {
      var k := j - i;
      StepsAdd(l, s, k, i);
      StepsInRegister(l, s, k);
      if Steps(l, s, i) == Steps(l, s, j) { StepsInjective(l, s, Steps(l, s, k), i); }
    }
  }

  lemma {:induction false} WithinPeriod(l: Lfsr, s: nat, p: nat, n: nat) returns (i: nat)
    requires p >= 1 && Steps(l, s, p) == s
    ensures 0 < i <= p && Steps(l, s, i) == Steps(l, s, n)
    decreases n
  {
    hide Steps;
    if n == 0 {
      i := p;
      assert Steps(l, s, 0) == s by { NoSteps(l, s); }
    } else if n <= p {
      i := n;
    } else {
      StepsAdd(l, s, p, n - p);
      i := WithinPeriod(l, s, p, n - p);
    }
  }

  lemma NoSteps(l: Register, s: nat)
    ensures Steps(l, s, 0) == s
  {}

  /** One round: every state within the packet length once, the start last. */
  ghost predicate OneRound(l: Register, v: seq<nat>, s: nat) {
    && |v| == l.dataLength >= 1 && Last(v) == s
    && NoRepeats(v)
    && (forall i :: 0 <= i < |v| ==> InPacket(l, v[i]))
    && forall t :: InPacket(l, t) ==> t in v
  }

  /** If the raw step is a single cycle, as many skips as the packet has words visit every state once and end where they
      began. */
  lemma Coverage(l: Lfsr, s: nat)
    requires InPacket(l, s) && SingleCycle(l)
    ensures OneRound(l, States(l, s, l.dataLength), s)
  {
    hide Steps, Next, States, InRegister, Reaches;
    PacketInRegister(l, s);
    var p := Period(l, s);
    DifferentWithinPeriod(l, s, p);
    SeenOnce(l, s, p);
    var v := Seen(l, s, p);
    forall t | InPacket(l, t) ensures t in v {
      PacketInRegister(l, t);
      assert Reaches(l, s, t);
      var n := ReachedIn(l, s, t);
      var i := WithinPeriod(l, s, p, n);
      StepsAreSeen(l, s, p, i);
    }
    forall i | 0 <= i < |v| ensures InPacket(l, v[i]) { var k := SeenAreSteps(l, s, p, i); }
    SameSize(l, v);
    LastSeen(l, s, p);
    var m := SkipsFollowSteps(l, s, p);
  }

  lemma ReachedIn(l: Register, s: nat, t: nat) returns (n: nat)
    requires Reaches(l, s, t)
    ensures Steps(l, s, n) == t
  {
    n :| Steps(l, s, n) == t;
  }

  lemma SameSize(l: Register, v: seq<nat>)
    requires NoRepeats(v)
    requires forall i :: 0 <= i < |v| ==> InPacket(l, v[i])
    requires forall t :: InPacket(l, t) ==> t in v
    ensures |v| == l.dataLength
  {
    var r := Range(l.dataLength);
    forall i | 0 <= i < |v| ensures v[i] in r { assert r[v[i] - 1] == v[i]; }
    DistinctInto(v, r);
    forall i | 0 <= i < |r| ensures r[i] in v { assert InPacket(l, r[i]); }
    DistinctInto(r, v);
  }

  lemma LastSeen(l: Register, s: nat, p: nat)
    requires p >= 1 && Steps(l, s, p) == s && InPacket(l, s)
    ensures Seen(l, s, p) != [] && Last(Seen(l, s, p)) == s
  {
    hide Steps;
  }

  // ---------------------------------------------------------------- positions

  /** The position that a state stands for: counted from the offset, cyclically. */
  function Position(l: Register, offset: nat, s: nat): int {
    if s - 1 < offset then s - 1 + l.dataLength - offset else s - 1 - offset
  }

  function Positions(l: Register, offset: nat, v: seq<nat>): (p: seq<int>)
    ensures |p| == |v|
  {
    seq(|v|, i requires 0 <= i < |v| => Position(l, offset, v[i]))
  }

  /** Every packet word once, the given one last. */
  ghost predicate EveryWordOnce(ps: seq<int>, n: nat, last: int) {
    && |ps| == n >= 1 && ps[n - 1] == last
    && (forall i :: 0 <= i < |ps| ==> 0 <= ps[i] < n)
    && (forall i, j :: 0 <= i < j < |ps| ==> ps[i] != ps[j])
    && forall w :: 0 <= w < n ==> w in ps
  }

  /** A round of states is a round of positions. */
  lemma RoundOfPositions(l: Register, offset: nat, v: seq<nat>, s: nat)
    requires OneRound(l, v, s) && offset < l.dataLength
    ensures EveryWordOnce(Positions(l, offset, v), l.dataLength, Position(l, offset, s))
  {
    var n, ps := l.dataLength, Positions(l, offset, v);
    forall i | 0 <= i < |ps| ensures 0 <= ps[i] < n { assert InPacket(l, v[i]); }
    forall i, j | 0 <= i < j < |ps| ensures ps[i] != ps[j] { assert v[i] != v[j] && InPacket(l, v[i]) && InPacket(l, v[j]); }
    forall w | 0 <= w < n ensures w in ps {
      var t := if w + offset < n then w + offset + 1 else w + offset - n + 1;
      assert InPacket(l, t);
      var i :| 0 <= i < |v| && v[i] == t;
      assert ps[i] == w;
    }
  }
}
