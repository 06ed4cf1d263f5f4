/** The repeat-accumulate encoder, and the order in which the decoder sweeps over a packet. */
module RaCodec {
  import opened Arithmetic
  import opened Bits
  import opened ExclusiveOr
  import opened RaLfsr
  import opened RaMasks
  import opened Sequences

  const PUNCTURE_RATE: nat := 3
  const MAX_DATA_LENGTH: nat := 2048

  // ---------------------------------------------------------------- what the encoder sends

  /** A 16-bit word rotated right by one. */
  function Rotate(w: nat): nat { w / 2 + w % 2 * 0x8000 }

  /** The word accumulated over the given positions of the packet. */
  function Accumulated(packet: seq<nat>, ps: seq<int>): nat {
    if ps == [] then 0
    else Xor(Rotate(Accumulated(packet, Front(ps))), if 0 <= Last(ps) < |packet| then packet[Last(ps)] else 0)
  }

  function Min(a: nat, b: nat): nat { if a < b then a else b }

  /** The words of one pass: one after every c positions, and one after the last position. */
  function PassWords(packet: seq<nat>, ps: seq<int>, c: nat, count: nat): (w: seq<nat>)
    ensures |w| == count
  {
    if count == 0 then []
    else PassWords(packet, ps, c, count - 1) + [Accumulated(packet, ps[..Min(c * count, |ps|)])]
  }

  function WordAt(packet: seq<nat>, pos: int): nat { if 0 <= pos < |packet| then packet[pos] else 0 }

  /** The sum, over the first m positions, of the bits that end up in bit i: the word at position k has been rotated
      |ps| - 1 - k times. */
  function BitSum(packet: seq<nat>, ps: seq<int>, i: nat, m: nat): nat
    requires m <= |ps|
  {
    if m == 0 then 0 else BitSum(packet, ps, i, m - 1) + Bit(WordAt(packet, ps[m - 1]), (i + |ps| - m) % 16)
  }

  /** Bit i of the word is the sum modulo 2, over all k, of bit (i + |ps| - 1 - k) % 16 of the word at the k-th position. */
  ghost predicate Transmits(word: nat, packet: seq<nat>, ps: seq<int>) {
    word < 0x10000 && forall i :: 0 <= i < 16 ==> Bit(word, i) == BitSum(packet, ps, i, |ps|) % 2
  }

  ghost predicate Words16(packet: seq<nat>) { forall k :: 0 <= k < |packet| ==> packet[k] < 0x10000 }

  lemma Power16()
    ensures Pow2(16) == 0x10000 && Pow2(15) == 0x8000
  {
    assert Pow2(4) == 16;
    assert Pow2(8) == 256;
    assert Pow2(12) == 4096;
    assert Pow2(15) == 0x8000;
  }

  /** Bit i of the rotated word is the bit above, and the lowest one for the top bit. */
  lemma RotatedBits(w: nat, i: nat)
    requires w < 0x10000 && i < 16
    ensures Rotate(w) < 0x10000 && Bit(Rotate(w), i) == Bit(w, (i + 1) % 16)
  {
    hide Pow2;
    Power16();
    BitAbove(w / 2, w % 2, 15, i);
  }

  lemma BelowPower(w: nat, v: nat)
    requires w < 0x10000 && v < 0x10000
    ensures Xor(w, v) < 0x10000
  {
    hide *;
    Power16();
    XorBound(w, v, 16);
  }

  lemma SameBit(i: nat, a: nat)
    requires i < 16
    ensures (i + 1 + a) % 16 == ((i + 1) % 16 + a) % 16
  {
    if i == 15 { AddMultiple(a, 1, 16); }
  }

  lemma {:induction false} BitSumOfFront(packet: seq<nat>, ps: seq<int>, i: nat, m: nat)
    requires m < |ps| && i < 16
    ensures BitSum(packet, ps, i, m) == BitSum(packet, Front(ps), (i + 1) % 16, m)
    decreases m
  {
    hide Bit;
    if m > 0 {
      BitSumOfFront(packet, ps, i, m - 1);
      SameBit(i, |ps| - 1 - m);
    }
  }

  lemma AccumulatedBit(packet: seq<nat>, ps: seq<int>, i: nat)
    requires ps != [] && i < 16
    requires var w := Accumulated(packet, Front(ps));
             w < 0x10000 && Bit(w, (i + 1) % 16) == BitSum(packet, Front(ps), (i + 1) % 16, |ps| - 1) % 2
    ensures Bit(Accumulated(packet, ps), i) == BitSum(packet, ps, i, |ps|) % 2
  {
    hide Xor, Rotate, Bit;
    var w, v := Accumulated(packet, Front(ps)), WordAt(packet, Last(ps));
    RotatedBits(w, i);
    BitOfXor(Rotate(w), v, i);
    BitSumOfFront(packet, ps, i, |ps| - 1);
    ParityAdds(BitSum(packet, ps, i, |ps| - 1), Bit(v, i));
  }

  /** What the accumulator holds after the positions ps. */
  lemma {:induction false} AccumulatedBits(packet: seq<nat>, ps: seq<int>)
    requires Words16(packet)
    ensures Transmits(Accumulated(packet, ps), packet, ps)
    decreases |ps|
  {
    hide Xor, Rotate, Bit, BitSum;
    if ps == [] {
      forall i | 0 <= i < 16 ensures Bit(0, i) == BitSum(packet, ps, i, 0) % 2 { BitOfZero(i); NothingSummed(packet, ps, i); }
    } else {
      AccumulatedBits(packet, Front(ps));
      RotatedBits(Accumulated(packet, Front(ps)), 0);
      BelowPower(Rotate(Accumulated(packet, Front(ps))), WordAt(packet, Last(ps)));
      forall i | 0 <= i < 16 ensures Bit(Accumulated(packet, ps), i) == BitSum(packet, ps, i, |ps|) % 2 {
        AccumulatedBit(packet, ps, i);
      }
    }
  }

  lemma NothingSummed(packet: seq<nat>, ps: seq<int>, i: nat)
    ensures BitSum(packet, ps, i, 0) == 0
  {}

  lemma {:induction false} PassWordIs(packet: seq<nat>, ps: seq<int>, c: nat, count: nat, t: nat)
    requires t < count
    ensures PassWords(packet, ps, c, count)[t] == Accumulated(packet, ps[..Min(c * (t + 1), |ps|)])
  {
    hide Accumulated;
    if t < count - 1 { PassWordIs(packet, ps, c, count - 1, t); }
  }

  /** The words of a pass, one after every c positions. */
  ghost predicate PassTransmits(words: seq<nat>, packet: seq<nat>, ps: seq<int>, c: nat) {
    forall t :: 0 <= t < |words| ==> Transmits(words[t], packet, ps[..Min(c * (t + 1), |ps|)])
  }

  lemma PassBits(packet: seq<nat>, ps: seq<int>, c: nat, count: nat)
    requires Words16(packet)
    ensures PassTransmits(PassWords(packet, ps, c, count), packet, ps, c)
  {
    hide Accumulated, Transmits, PassWords;
    var words := PassWords(packet, ps, c, count);
    forall t | 0 <= t < |words| ensures Transmits(words[t], packet, ps[..Min(c * (t + 1), |ps|)]) {
      PassWordIs(packet, ps, c, count, t);
      AccumulatedBits(packet, ps[..Min(c * (t + 1), |ps|)]);
    }
  }

  /** The start state of a pass. */
  function Offset(dataLength: nat, seqno: nat): nat { High(dataLength, 1 + seqno) }

  function Start(dataLength: nat, seqno: nat): nat { 1 + seqno + Offset(dataLength, seqno) }

  lemma StartInPacket(n: nat, seqno: nat)
    requires n >= 4 && seqno < 4
    ensures 0 < Start(n, seqno) <= n && Offset(n, seqno) < n
  {
    assert High(n, 1) == High(n / 2, 0) == n / 2;
    assert High(n, 2) == High(n / 2, 1) == n / 2 / 2;
    assert High(n, 3) == High(n / 2, 2) == High(n / 2 / 2, 1) == n / 2 / 2 / 2;
    assert High(n, 4) == High(n / 2, 3) == High(n / 2 / 2, 2) == High(n / 2 / 2 / 2, 1) == n / 2 / 2 / 2 / 2;
  }

  lemma OffsetIsQuotient(n: nat, seqno: nat)
    requires seqno < 4
    ensures Offset(n, seqno) == n / [2, 4, 8, 16][seqno]
  {
    HalvingStart(n); HalvingStep(n, 0); HalvingStep(n, 1); HalvingStep(n, 2); HalvingStep(n, 3);
  }

  // ---------------------------------------------------------------- skipping is one to one

  /** Different states are never followed by the same state. */
  lemma NextInjective(l: Lfsr, a: nat, b: nat)
    requires InPacket(l, a) && InPacket(l, b) && Next(l, a) == Next(l, b)
    ensures a == b
  {
    hide Steps, Next, InRegister;
    var m := FirstHit(l, a);
    var n := FirstHit(l, b);
    NextIs(l, a, m);
    NextIs(l, b, n);
    PacketInRegister(l, a);
    PacketInRegister(l, b);
    if m <= n { SameStart(l, a, b, m, n); } else { SameStart(l, b, a, n, m); }
  }

  lemma SameStart(l: Lfsr, a: nat, b: nat, m: nat, n: nat)
    requires InPacket(l, a) && Skips(l, b, n) && m >= 1 && m <= n && Steps(l, a, m) == Steps(l, b, n)
    requires InRegister(l, a) && InRegister(l, b)
    ensures a == b
  {
    hide Steps, InRegister;
    var k := n - m;
    StepsAdd(l, b, k, m);
    StepsInRegister(l, b, k);
    StepsInjective(l, a, Steps(l, b, k), m);
    NoSteps(l, b);
  }

  /** A run of backward steps that first meets the packet after n steps has undone one skip. */
  lemma UndoesSkip(l: Lfsr, s: nat, p: nat, n: nat)
    requires InPacket(l, s) && Steps(l, s, p) == s && 1 <= n <= p
    requires InPacket(l, StepsUp(l, s, n)) && forall i :: 0 < i < n ==> !InPacket(l, StepsUp(l, s, i))
    ensures Next(l, StepsUp(l, s, n)) == s
  {
    hide Steps, Next, StepsUp, InPacket, InRegister;
    PacketInRegister(l, s);
    var k := p - n;
    var r := Steps(l, s, k);
    StepsBack(l, s, p, n);
    forall i: nat | i <= n ensures Steps(l, r, i) == StepsUp(l, s, n - i) {
      StepsAdd(l, s, k, i);
      StepsBack(l, s, p, n - i);
    }
    assert Steps(l, r, n) == s by { StepsAdd(l, s, k, n); }
    assert Skips(l, r, n) by {
      forall i | 0 < i < n ensures !InPacket(l, Steps(l, r, i)) { assert Steps(l, r, i) == StepsUp(l, s, n - i); }
    }
    NextIs(l, r, n);
  }

  // ---------------------------------------------------------------- the order of a pass

  /** The positions of one pass in the order in which they are visited. */
  ghost function Order(l: Lfsr, seqno: nat): (ps: seq<int>)
    requires l.dataLength >= 4 && seqno < 4
    ensures |ps| == l.dataLength
  {
    StartInPacket(l.dataLength, seqno);
    Positions(l, Offset(l.dataLength, seqno), States(l, Start(l.dataLength, seqno), l.dataLength))
  }

  /** Every pass visits every packet word exactly once and ends on the word of its own number. */
  lemma OrderIsRound(l: Lfsr, seqno: nat)
    requires l.dataLength >= 4 && seqno < 4 && FromTable(l, seqno)
    ensures EveryWordOnce(Order(l, seqno), l.dataLength, seqno)
  {
    hide FromTable, SingleCycle, States, High, OneRound, EveryWordOnce;
    var n := l.dataLength;
    StartInPacket(n, seqno);
    TableIsSingleCycle(l, seqno);
    Coverage(l, Start(n, seqno));
    RoundOfPositions(l, Offset(n, seqno), States(l, Start(n, seqno), n), Start(n, seqno));
  }

  /** What the next skip of a pass yields. */
  lemma OrderStep(l: Lfsr, seqno: nat, j: nat)
    requires l.dataLength >= 4 && seqno < 4 && j < l.dataLength
    ensures InPacket(l, Start(l.dataLength, seqno))
    ensures var s := Start(l.dataLength, seqno);
            && StateAt(l, s, j + 1) == Next(l, StateAt(l, s, j))
            && Order(l, seqno)[j] == Position(l, Offset(l.dataLength, seqno), StateAt(l, s, j + 1))
  {
    hide Next, High;
    var s := Start(l.dataLength, seqno);
    StartInPacket(l.dataLength, seqno);
    StatesStep(l, s, j);
    StatesPrefix(l, s, j + 1, l.dataLength);
    assert States(l, s, l.dataLength)[..j + 1][j] == States(l, s, l.dataLength)[j];
  }

  lemma AccumulatedStep(packet: seq<nat>, ps: seq<int>, j: nat)
    requires j < |ps| && 0 <= ps[j] < |packet|
    ensures Accumulated(packet, ps[..j + 1]) == Xor(Rotate(Accumulated(packet, ps[..j])), packet[ps[j]])
  {
    hide Xor;
    FrontOfPrefix(ps, j);
  }

  /** A pass ends exactly at its last position. */
  lemma OnlyLast(ps: seq<int>, n: nat, last: nat, j: nat)
    requires EveryWordOnce(ps, n, last) && j < n
    ensures ps[j] == last <==> j == n - 1
    ensures 0 <= ps[j] < n
  {}

  /** The masks are those of the table's row for a register size. */
  ghost predicate IsRow(masks: seq<nat>, highbit: nat) { 4 <= highbit <= 12 && masks == MASKS[highbit - 4] }

  lemma RowIsFromTable(n: nat, h: nat, masks: seq<nat>, k: nat)
    requires IsRow(masks, h) && |masks| == 4 && k < 4
    ensures FromTable(Register(n, h, masks[k]), k)
  {}

  function Rate(passno: nat): nat { if passno == 0 then 1 else PUNCTURE_RATE }

  // ---------------------------------------------------------------- the context

  class RaContext {
    var dataLength: nat
    var codeLength: nat
    var chckLength: nat
    var lfsrMasks: seq<nat>
    var lfsrHighbit: nat
    var lfsrMask: nat
    var lfsrState: nat
    var lfsrOffset: nat
    var packet: seq<nat>
    var nextword: nat
    var passno: nat

    ghost predicate Sized()
      reads this
    {
      && 4 <= dataLength <= MAX_DATA_LENGTH && 4 <= lfsrHighbit <= 12 && |lfsrMasks| == 4
      && chckLength == (dataLength + PUNCTURE_RATE - 1) / PUNCTURE_RATE && codeLength == dataLength + chckLength * 3
      && IsRow(lfsrMasks, lfsrHighbit)
      && forall k :: 0 <= k < 4 ==> Sound(Register(dataLength, lfsrHighbit, lfsrMasks[k]))
    }

    /** The register that runs. */
    ghost function Running(): Register
      reads this
    {
      Register(dataLength, lfsrHighbit, lfsrMask)
    }

    ghost predicate RegisterValid()
      reads this
    {
      Sized() && Sound(Running()) && InPacket(Running(), lfsrState) && lfsrOffset < dataLength
    }

    constructor (dataLength: nat)
      requires 4 <= dataLength <= MAX_DATA_LENGTH
      ensures Sized() && this.dataLength == dataLength
    {
      new;
      LengthInit(dataLength);
    }

    /** ra_length_init: the greatest register is chosen that the packet fills at least half. */
    method LengthInit(length: nat)
      requires 4 <= length <= MAX_DATA_LENGTH
      modifies this
      ensures Sized() && dataLength == length
      ensures length < Pow2(lfsrHighbit + 1) && (lfsrHighbit == 4 || Pow2(lfsrHighbit) <= length)
      ensures chckLength == (length + 2) / 3 && codeLength == length + 3 * ((length + 2) / 3)
      ensures lfsrMasks == MasksFor(length)
    {
      hide Pow2, High, Low, MasksFor, Sound, IsRow;
      dataLength := length;
      chckLength := (length + PUNCTURE_RATE - 1) / PUNCTURE_RATE;
      codeLength := length + chckLength * 3;
      lfsrHighbit := 4;
      var d := length;
      HalvingStart(length);
      while d >= 32
        invariant lfsrHighbit >= 4 && d == High(length, lfsrHighbit - 4) && (lfsrHighbit == 4 || d >= 16)
        invariant dataLength == length && chckLength == (length + PUNCTURE_RATE - 1) / PUNCTURE_RATE
        invariant codeLength == length + chckLength * 3
      {
        HalvingStep(length, lfsrHighbit - 4);
        d := d / 2;
        lfsrHighbit := lfsrHighbit + 1;
      }
      HalvingEnd(length, lfsrHighbit);
      var row := MASKS[lfsrHighbit - 4];
      RowForLength(length, lfsrHighbit, row);
      lfsrMasks := [row[0], row[1], row[2], row[3]];
      assert lfsrMasks == row;
    }

    /** ra_lfsr_init. */
    method LfsrInit(seqno: nat)
      requires Sized() && seqno < 4
      modifies this`lfsrMask, this`lfsrState, this`lfsrOffset
      ensures RegisterValid() && lfsrMask == lfsrMasks[seqno] && lfsrOffset == Offset(dataLength, seqno)
      ensures lfsrState == Start(dataLength, seqno) == 1 + seqno + lfsrOffset
      ensures lfsrOffset == dataLength / [2, 4, 8, 16][seqno]
    {
      hide High;
      lfsrMask := lfsrMasks[seqno];
      lfsrOffset := High(dataLength, 1 + seqno);
      lfsrState := 1 + seqno + lfsrOffset;
      StartInPacket(dataLength, seqno);
      OffsetIsQuotient(dataLength, seqno);
    }

    /** ra_lfsr_next: the loop ends, on the next state that is not too large. */
    method LfsrNext() returns (pos: int)
      requires RegisterValid()
      modifies this`lfsrState
      ensures RegisterValid() && lfsrState == Next(Running(), old(lfsrState))
      ensures pos == Position(Running(), lfsrOffset, lfsrState) && 0 <= pos < dataLength
      ensures pos + lfsrOffset == lfsrState - 1 || pos + lfsrOffset == lfsrState - 1 + dataLength
    {
      hide Next, Steps, Xor, High, Pow2, IsRow;
      ghost var l: Lfsr, s := Running(), lfsrState;
      PacketInRegister(l, s);
      ghost var p := Returns(l, s);
      ghost var n := 0;
      assert Steps(l, s, 0) == s by { NoSteps(l, s); }
      var again := true;
      while again
        invariant 0 <= n <= p && (again <==> n == 0 || lfsrState > dataLength) && lfsrState == Steps(l, s, n) && InRegister(l, lfsrState)
        invariant forall i :: 0 < i < n ==> !InPacket(l, Steps(l, s, i))
        decreases p - n
      {
        StepDown(l, s, n);
        var b := lfsrState % 2;
        lfsrState := lfsrState / 2;
        XorZero(lfsrState);
        lfsrState := Xor(lfsrState, if b == 1 then lfsrMask else 0);
        n := n + 1;
        again := lfsrState > dataLength;
      }
      NextIs(l, s, n);
      var b := lfsrState - 1;
      if b < lfsrOffset {
        b := b + dataLength;
      }
      pos := b - lfsrOffset;
    }

    /** ra_lfsr_prev: the loop ends, and what it finds is the state that comes before. */
    method LfsrPrev() returns (pos: int)
      requires RegisterValid()
      modifies this`lfsrState
      ensures RegisterValid() && Next(Running(), lfsrState) == old(lfsrState)
      ensures pos == Position(Running(), lfsrOffset, lfsrState) && 0 <= pos < dataLength
      ensures pos + lfsrOffset == lfsrState - 1 || pos + lfsrOffset == lfsrState - 1 + dataLength
    {
      hide Next, Steps, StepsUp, Xor, High, Pow2, Or, IsRow;
      ghost var l: Lfsr, s := Running(), lfsrState;
      PacketInRegister(l, s);
      ghost var p := Returns(l, s);
      ghost var n := 0;
      assert StepsUp(l, s, 0) == s by { NoStepsUp(l, s); }
      var again := true;
      while again
        invariant 0 <= n <= p && (again <==> n == 0 || lfsrState > dataLength) && lfsrState == StepsUp(l, s, n) && InRegister(l, lfsrState)
        invariant forall i :: 0 < i < n ==> !InPacket(l, StepsUp(l, s, i))
        decreases p - n
      {
        if n == p { StepsBack(l, s, p, p); NoSteps(l, s); }
        StepUp(l, s, n);
        var b := High(lfsrState, lfsrHighbit);
        lfsrState := 2 * lfsrState;
        XorZero(lfsrState);
        OrOne(lfsrMask);
        lfsrState := Xor(lfsrState, if b == 1 then Or(1, 2 * lfsrMask) else 0);
        n := n + 1;
        again := lfsrState > dataLength;
      }
      UndoesSkip(l, s, p, n);
      var b := lfsrState - 1;
      if b < lfsrOffset {
        b := b + dataLength;
      }
      pos := b - lfsrOffset;
    }

    /** The encoder has visited done positions of the current pass. */
    ghost predicate Encoding(done: nat)
      reads this
    {
      && RegisterValid() && passno < 4 && lfsrMask == lfsrMasks[passno] && |packet| == dataLength && done < dataLength
      && InPacket(Running(), Start(dataLength, passno)) && lfsrOffset == Offset(dataLength, passno)
      && lfsrState == StateAt(Running(), Start(dataLength, passno), done)
      && nextword == Accumulated(packet, Order(Running(), passno)[..done])
    }

    /** A pass begins. */
    method BeginPass(k: nat)
      requires Sized() && k < 4 && |packet| == dataLength
      modifies this`nextword, this`passno, this`lfsrMask, this`lfsrState, this`lfsrOffset
      ensures Encoding(0) && passno == k
    {
      hide States, High, Next, IsRow;
      nextword := 0;
      passno := k;
      LfsrInit(k);
      assert Order(Running(), passno)[..0] == [];
    }

    /** ra_encoder_init. */
    method EncoderInit(p: seq<nat>)
      requires Sized() && |p| == dataLength
      modifies this`packet, this`nextword, this`passno, this`lfsrMask, this`lfsrState, this`lfsrOffset
      ensures Sized() && Encoding(0) && passno == 0 && packet == p
    {
      hide States, High, Next, Order, Accumulated, IsRow;
      packet := p;
      BeginPass(0);
    }

    /** One more position of the pass, accumulated. */
    method Accumulate(word: nat, ghost done: nat) returns (word': nat, pos: int)
      requires RegisterValid() && passno < 4 && lfsrMask == lfsrMasks[passno] && |packet| == dataLength && done < dataLength
      requires InPacket(Running(), Start(dataLength, passno)) && lfsrOffset == Offset(dataLength, passno)
      requires lfsrState == StateAt(Running(), Start(dataLength, passno), done)
      requires word == Accumulated(packet, Order(Running(), passno)[..done])
      modifies this`lfsrState
      ensures RegisterValid() && lfsrState == StateAt(Running(), Start(dataLength, passno), done + 1)
      ensures word' == Accumulated(packet, Order(Running(), passno)[..done + 1])
      ensures pos == Order(Running(), passno)[done]
    {
      hide States, High, Next, Xor, Accumulated, Order, Position, StateAt;
      OrderStep(Running(), passno, done);
      word' := Rotate(word);
      pos := LfsrNext();
      AccumulatedStep(packet, Order(Running(), passno), done);
      word' := Xor(word', packet[pos]);
    }

    /** ra_encoder_next: the word after the next position (first pass) or the next three, or fewer where the pass ends. */
    method EncoderNext(ghost done: nat) returns (word: nat, ghost done': nat)
      requires Encoding(done)
      modifies this`nextword, this`passno, this`lfsrMask, this`lfsrState, this`lfsrOffset
      ensures var now := Min(done + Rate(old(passno)), dataLength);
              && word == Accumulated(packet, Order(old(Running()), old(passno))[..now])
              && (if now == dataLength then passno == (old(passno) + 1) % 4 && done' == 0
                  else passno == old(passno) && done' == now)
              && (Words16(packet) ==> Transmits(word, packet, Order(old(Running()), old(passno))[..now]))
      ensures Sized() && Encoding(done')
    {
      hide States, High, Next, Xor, Accumulated, Order, Position;
      hide StateAt, EveryWordOnce, IsRow, FromTable, Sound, Start, Offset, Steps, Transmits, Words16;
      ghost var ps := Order(Running(), passno);
      RowIsFromTable(dataLength, lfsrHighbit, lfsrMasks, passno);
      OrderIsRound(Running(), passno);
      word := nextword;
      var count := if passno == 0 then 1 else PUNCTURE_RATE;
      ghost var c, j := count, done;
      var again := true;
      while again
        invariant RegisterValid() && done <= j <= dataLength && 0 <= count <= c
        invariant j == done + (c - count) + (if again || count == 0 then 0 else 1)
        invariant again ==> count > 0 && j < dataLength
        invariant InPacket(Running(), Start(dataLength, passno)) && lfsrState == StateAt(Running(), Start(dataLength, passno), j)
        invariant word == Accumulated(packet, ps[..j])
        invariant !again ==> (count != 0 <==> j == dataLength)
        modifies this`lfsrState
        decreases count, again
      {
        OnlyLast(ps, dataLength, passno, j);
        var pos;
        word, pos := Accumulate(word, j);
        j := j + 1;
        if pos == passno {
          again := false;
        } else {
          count := count - 1;
          again := count != 0;
        }
      }
      assert Words16(packet) ==> Transmits(word, packet, ps[..j]) by {
        if Words16(packet) { AccumulatedBits(packet, ps[..j]); }
      }
      if count != 0 {
        var next := (passno + 1) % 4;
        BeginPass(next);
        done' := 0;
      } else {
        nextword := word;
        done' := j;
      }
    }

    /** ra_encoder: the words of all four passes; after them the encoder stands where it began. */
    method Encoder(p: seq<nat>) returns (output: seq<nat>)
      requires Sized() && |p| == dataLength
      modifies this`packet, this`nextword, this`passno, this`lfsrMask, this`lfsrState, this`lfsrOffset
      ensures output == Code(p, dataLength, lfsrHighbit, lfsrMasks, 4) && |output| == codeLength
      ensures Words16(p) ==> AllPasses(output, p, dataLength, lfsrHighbit, lfsrMasks)
      ensures Encoding(0) && passno == 0
    {
      hide *;
      SizedParts(this);
      EncoderInit(p);
      output := [];
      ghost var n, h, masks := dataLength, lfsrHighbit, lfsrMasks;
      ghost var k: nat, m: nat, done: nat := 0, 0, 0;
      ProgressStart(p, n, h, masks);
      for i := 0 to codeLength
        invariant Sized() && Encoding(done) && packet == p && k <= 4 && passno == k % 4 && |output| == i
        invariant dataLength == n && lfsrHighbit == h && lfsrMasks == masks && codeLength == n + 3 * WordsIn(n, 1)
        invariant Progress(output, p, n, h, masks, k, m, done)
      {
        ProgressSize(output, p, n, h, masks, k, m, done);
        RunningNow(this, done, k);
        var word;
        ghost var next;
        word, next := EncoderNext(done);
        ProgressStep(output, p, n, h, masks, k, m, done, word);
        output := output + [word];
        if Min(done + Rate(k), n) == n {
          k, m := k + 1, 0;
        } else {
          m := m + 1;
        }
        done := next;
      }
      ProgressSize(output, p, n, h, masks, k, m, done);
      if Words16(p) { CodeBits(p, n, h, masks); }
    }

    /** The two sweeps of the decoder: forward over the positions of a pass, then backward. The backward sweep visits
        them in exactly the reverse order and leaves the register where it was. */
    method Sweep() returns (forward: seq<int>, backward: seq<int>)
      requires RegisterValid()
      modifies this`lfsrState
      ensures RegisterValid() && lfsrState == old(lfsrState)
      ensures |forward| == |backward| == dataLength
      ensures forall i :: 0 <= i < dataLength ==> backward[i] == forward[dataLength - 1 - i]
    {
      hide States, High, Next, Position, StateAt, IsRow;
      ghost var l, s := Running(), lfsrState;
      forward, backward := [], [];
      assert StateAt(l, s, 0) == s by { FirstState(l, s); }
      var pos := 0;
      for index := 0 to dataLength
        invariant RegisterValid() && Running() == l && lfsrState == StateAt(l, s, index) && |forward| == index
        invariant forall i :: 0 <= i < index ==> forward[i] == Position(l, lfsrOffset, StateAt(l, s, i + 1))
        invariant index > 0 ==> pos == forward[index - 1]
      {
        StatesStep(l, s, index);
        pos := LfsrNext();
        forward := forward + [pos];
      }
      var index := dataLength - 1;
      while index >= 0
        invariant -1 <= index < dataLength && RegisterValid() && Running() == l && lfsrState == StateAt(l, s, index + 1)
        invariant |backward| == dataLength - 1 - index && (index >= 0 ==> pos == forward[index])
        invariant forall i :: 0 <= i < |backward| ==> backward[i] == forward[dataLength - 1 - i]
      {
        backward := backward + [pos];
        StatesStep(l, s, index);
        ghost var before := lfsrState;
        pos := LfsrPrev();
        NextInjective(l, lfsrState, StateAt(l, s, index));
        index := index - 1;
      }
    }
  }

  lemma FirstState(l: Lfsr, s: nat)
    requires InPacket(l, s)
    ensures StateAt(l, s, 0) == s
  {}

  function WordsIn(n: nat, k: nat): nat { if k == 0 then n else (n + PUNCTURE_RATE - 1) / PUNCTURE_RATE }

  function PassRegister(n: nat, h: nat, masks: seq<nat>, k: nat): Register {
    Register(n, h, if k < |masks| then masks[k] else 0)
  }

  ghost predicate AllSound(n: nat, h: nat, masks: seq<nat>) {
    n >= 4 && |masks| == 4 && forall k :: 0 <= k < 4 ==> Sound(Register(n, h, masks[k]))
  }

  /** The words of the first k passes. */
  ghost function Code(packet: seq<nat>, n: nat, h: nat, masks: seq<nat>, k: nat): seq<nat>
    requires AllSound(n, h, masks) && k <= 4
  {
    if k == 0 then []
    else
      var l := PassRegister(n, h, masks, k - 1);
      Code(packet, n, h, masks, k - 1) + PassWords(packet, Order(l, k - 1), Rate(k - 1), WordsIn(n, k - 1))
  }

  lemma CodeLengths(packet: seq<nat>, n: nat, h: nat, masks: seq<nat>)
    requires AllSound(n, h, masks)
    ensures |Code(packet, n, h, masks, 0)| == 0 && |Code(packet, n, h, masks, 1)| == n
    ensures |Code(packet, n, h, masks, 2)| == n + WordsIn(n, 1) && |Code(packet, n, h, masks, 3)| == n + 2 * WordsIn(n, 1)
    ensures |Code(packet, n, h, masks, 4)| == n + 3 * WordsIn(n, 1)
  {
    hide Order;
    assert |Code(packet, n, h, masks, 1)| == n;
    assert |Code(packet, n, h, masks, 2)| == n + WordsIn(n, 1);
    assert |Code(packet, n, h, masks, 3)| == n + 2 * WordsIn(n, 1);
  }

  /** A word for every position of the first pass, and for every three positions of the other three. */
  ghost predicate AllPasses(output: seq<nat>, packet: seq<nat>, n: nat, h: nat, masks: seq<nat>) {
    AllSound(n, h, masks) && var c := (n + 2) / 3;
    && |output| == n + 3 * c
    && PassTransmits(output[..n], packet, Order(Register(n, h, masks[0]), 0), 1)
    && PassTransmits(output[n..n + c], packet, Order(Register(n, h, masks[1]), 1), 3)
    && PassTransmits(output[n + c..n + 2 * c], packet, Order(Register(n, h, masks[2]), 2), 3)
    && PassTransmits(output[n + 2 * c..], packet, Order(Register(n, h, masks[3]), 3), 3)
  }

  lemma CodeBits(packet: seq<nat>, n: nat, h: nat, masks: seq<nat>)
    requires AllSound(n, h, masks) && Words16(packet)
    ensures AllPasses(Code(packet, n, h, masks, 4), packet, n, h, masks)
  {
    hide Order, PassTransmits, Sound, PassWords, Words16, Code;
    var c := WordsIn(n, 1);
    var o0, o1 := Order(PassRegister(n, h, masks, 0), 0), Order(PassRegister(n, h, masks, 1), 1);
    var o2, o3 := Order(PassRegister(n, h, masks, 2), 2), Order(PassRegister(n, h, masks, 3), 3);
    PassBits(packet, o0, 1, n); PassBits(packet, o1, 3, c); PassBits(packet, o2, 3, c); PassBits(packet, o3, 3, c);
    FourPasses(packet, n, h, masks);
    FourParts(PassWords(packet, o0, 1, n), PassWords(packet, o1, 3, c), PassWords(packet, o2, 3, c), PassWords(packet, o3, 3, c));
  }

  lemma FourPasses(packet: seq<nat>, n: nat, h: nat, masks: seq<nat>)
    requires AllSound(n, h, masks)
    ensures Code(packet, n, h, masks, 4)
            == PassWords(packet, Order(PassRegister(n, h, masks, 0), 0), 1, n)
               + PassWords(packet, Order(PassRegister(n, h, masks, 1), 1), 3, WordsIn(n, 1))
               + PassWords(packet, Order(PassRegister(n, h, masks, 2), 2), 3, WordsIn(n, 1))
               + PassWords(packet, Order(PassRegister(n, h, masks, 3), 3), 3, WordsIn(n, 1))
  {
    hide Order, PassWords, Sound;
    OnePass(packet, n, h, masks, 1); OnePass(packet, n, h, masks, 2);
    OnePass(packet, n, h, masks, 3); OnePass(packet, n, h, masks, 4);
    assert Code(packet, n, h, masks, 0) == [];
    var first := PassWords(packet, Order(PassRegister(n, h, masks, 0), 0), 1, n);
    assert [] + first == first;
  }

  lemma OnePass(packet: seq<nat>, n: nat, h: nat, masks: seq<nat>, k: nat)
    requires AllSound(n, h, masks) && 1 <= k <= 4
    ensures Code(packet, n, h, masks, k) == Code(packet, n, h, masks, k - 1)
              + PassWords(packet, Order(PassRegister(n, h, masks, k - 1), k - 1), if k == 1 then 1 else 3,
                          if k == 1 then n else WordsIn(n, 1))
  {
    hide Order, PassWords, Sound;
  }

  lemma FourParts(a: seq<nat>, b: seq<nat>, c: seq<nat>, d: seq<nat>)
    ensures var s := a + b + c + d;
            && s[..|a|] == a && s[|a|..|a| + |b|] == b && s[|a| + |b|..|a| + |b| + |c|] == c && s[|a| + |b| + |c|..] == d
  {}

  /** The output of the encoder after k whole passes and m words of the next one. */
  ghost predicate Progress(output: seq<nat>, p: seq<nat>, n: nat, h: nat, masks: seq<nat>, k: nat, m: nat, done: nat) {
    AllSound(n, h, masks) && k <= 4 &&
    if k == 4 then done == 0 && output == Code(p, n, h, masks, 4)
    else
      && m < WordsIn(n, k) && done == m * Rate(k)
      && output == Code(p, n, h, masks, k) + PassWords(p, Order(PassRegister(n, h, masks, k), k), Rate(k), m)
  }

  lemma ProgressStart(p: seq<nat>, n: nat, h: nat, masks: seq<nat>)
    requires AllSound(n, h, masks)
    ensures Progress([], p, n, h, masks, 0, 0, 0)
  {
    hide Order;
  }

  lemma ProgressSize(output: seq<nat>, p: seq<nat>, n: nat, h: nat, masks: seq<nat>, k: nat, m: nat, done: nat)
    requires Progress(output, p, n, h, masks, k, m, done)
    ensures |output| <= n + 3 * WordsIn(n, 1) && (k == 4 <==> |output| == n + 3 * WordsIn(n, 1))
    ensures k == 4 ==> output == Code(p, n, h, masks, 4) && done == 0
  {
    hide Order, Accumulated, Sound;
    CodeLengths(p, n, h, masks);
  }

  lemma ProgressStep(output: seq<nat>, p: seq<nat>, n: nat, h: nat, masks: seq<nat>, k: nat, m: nat, done: nat, word: nat)
    requires Progress(output, p, n, h, masks, k, m, done) && k < 4
    requires word == Accumulated(p, Order(PassRegister(n, h, masks, k), k)[..Min(done + Rate(k), n)])
    ensures if Min(done + Rate(k), n) == n then Progress(output + [word], p, n, h, masks, k + 1, 0, 0)
            else Progress(output + [word], p, n, h, masks, k, m + 1, Min(done + Rate(k), n))
  {
    hide Order, Accumulated, Sound;
    LastWord(n, k, m);
    var l := PassRegister(n, h, masks, k);
    var c, w, v := Code(p, n, h, masks, k), PassWords(p, Order(l, k), Rate(k), m), PassWords(p, Order(l, k), Rate(k), m + 1);
    assert c + w + [word] == c + v;
    if m + 1 == WordsIn(n, k) { assert c + v == Code(p, n, h, masks, k + 1); }
  }

  lemma SizedParts(c: RaContext)
    requires c.Sized()
    ensures AllSound(c.dataLength, c.lfsrHighbit, c.lfsrMasks) && c.codeLength == c.dataLength + 3 * WordsIn(c.dataLength, 1)
  {}

  lemma RunningNow(c: RaContext, done: nat, k: nat)
    requires c.Sized() && c.Encoding(done) && k < 4 && c.passno == k % 4
    ensures c.passno == k && c.Running() == PassRegister(c.dataLength, c.lfsrHighbit, c.lfsrMasks, k) && Sound(c.Running())
  {
    hide States, High, Next, Order, Accumulated, StateAt;
  }

  lemma LastWord(n: nat, k: nat, m: nat)
    requires m < WordsIn(n, k)
    ensures Rate(k) * (m + 1) == m * Rate(k) + Rate(k)
    ensures m * Rate(k) + Rate(k) >= n <==> m + 1 == WordsIn(n, k)
  {}

  lemma StepDown(l: Lfsr, s: nat, n: nat)
    requires InRegister(l, Steps(l, s, n))
    ensures Steps(l, s, n + 1) == (var t := Steps(l, s, n); if t % 2 == 1 then Xor(t / 2, l.mask) else t / 2)
    ensures InRegister(l, Steps(l, s, n + 1))
  {
    hide Xor;
    DownInRegister(l, Steps(l, s, n));
  }

  lemma NoStepsUp(l: Register, s: nat)
    ensures StepsUp(l, s, 0) == s
  {}

  lemma StepUp(l: Lfsr, s: nat, n: nat)
    requires InRegister(l, StepsUp(l, s, n))
    ensures StepsUp(l, s, n + 1)
            == (var t := StepsUp(l, s, n); if High(t, l.highbit) == 1 then Xor(2 * t, 2 * l.mask + 1) else 2 * t)
    ensures InRegister(l, StepsUp(l, s, n + 1))
  {
    hide Xor, High;
    DownAfterUp(l, StepsUp(l, s, n));
  }

  lemma OrOne(m: nat)
    ensures Or(1, 2 * m) == 2 * m + 1
  {
    assert Or(0, m) == m by { OrZeroLeft(m); }
    assert 2 * m / 2 == m;
  }

  lemma {:induction false} OrZeroLeft(m: nat)
    ensures Or(0, m) == m
  {
    if m != 0 { OrZeroLeft(m / 2); }
  }

  /** The masks for a packet length, by the greatest length of each register. */
  function MasksFor(length: nat): seq<nat> {
    if length <= 31 then [0x12, 0x17, 0x1B, 0x1E]
    else if length <= 63 then [0x21, 0x2D, 0x30, 0x39]
    else if length <= 127 then [0x41, 0x53, 0x69, 0x7B]
    else if length <= 255 then [0x8E, 0xAF, 0xC3, 0xE7]
    else if length <= 511 then [0x108, 0x13B, 0x168, 0x1DC]
    else if length <= 1023 then [0x204, 0x2E3, 0x369, 0x3AA]
    else if length <= 2047 then [0x415, 0x4BF, 0x553, 0x62B]
    else if length <= 4095 then [0x83E, 0x939, 0xAF5, 0xD70]
    else [0x1013, 0x109D, 0x117D, 0x1271]
  }

  lemma RowForLength(length: nat, h: nat, row: seq<nat>)
    requires 4 <= length && 4 <= h <= 12 && length < Pow2(h + 1) && (h == 4 || Pow2(h) <= length) && row == MASKS[h - 4]
    ensures |row| == 4 && IsRow(row, h) && row == MasksFor(length)
    ensures forall k :: 0 <= k < 4 ==> Sound(Register(length, h, row[k]))
  {
    RowByLength(length, h);
    forall k | 0 <= k < 4 ensures Sound(Register(length, h, row[k])) { MasksHaveTopBit(h - 4, k); }
  }

  lemma RowByLength(length: nat, h: nat)
    requires 4 <= h <= 12 && length < Pow2(h + 1) && (h == 4 || Pow2(h) <= length)
    ensures MASKS[h - 4] == MasksFor(length)
  {
    assert Pow2(5) == 32 && Pow2(6) == 64 && Pow2(7) == 128 && Pow2(8) == 256;
    assert Pow2(9) == 512 && Pow2(10) == 1024 && Pow2(11) == 2048 && Pow2(12) == 4096 && Pow2(13) == 8192;
  }

  lemma HalvingStart(x: nat)
    ensures High(x, 0) == x
  {}

  lemma {:induction false} HalvingStep(x: nat, k: nat)
    ensures High(x, k + 1) == High(x, k) / 2
    decreases k
  {
    if k > 0 { HalvingStep(x / 2, k - 1); }
  }

  lemma HalvingEnd(x: nat, h: nat)
    requires h >= 4 && x <= 2048 && High(x, h - 4) < 32 && (h == 4 || High(x, h - 4) >= 16)
    ensures h <= 12 && x < Pow2(h + 1) && (h == 4 || Pow2(h) <= x)
  {
    hide *;
    var k, d := h - 4, High(x, h - 4);
    SplitBits(x, k);
    LowBound(x, k);
    PowFour(k);
    Between(x, d, Pow2(k), Low(x, k));
    if h > 12 { BigPower(h); }
  }

  lemma Between(x: nat, d: nat, p: nat, lo: nat)
    requires x == d * p + lo && lo < p
    ensures d < 32 ==> x < 32 * p
    ensures d >= 16 ==> 16 * p <= x
  {
    var a, b := 32 - d, d - 16;
    MulAtLeast(a, p);
    assert a * p == 32 * p - d * p;
    if b >= 0 { assert b * p == d * p - 16 * p && b * p >= 0; }
  }

  lemma PowFour(k: nat)
    ensures Pow2(k + 4) == 16 * Pow2(k) && Pow2(k + 5) == 32 * Pow2(k)
  {
    assert Pow2(k + 2) == 4 * Pow2(k);
    assert Pow2(k + 4) == 4 * Pow2(k + 2);
    assert Pow2(k + 5) == 2 * Pow2(k + 4);
  }

  lemma {:induction false} BigPower(h: nat)
    requires h >= 12
    ensures Pow2(h) >= 4096
  {
    if h == 12 { assert Pow2(6) == 64 && Pow2(12) == 4096 by { assert Pow2(9) == 512; } } else { BigPower(h - 1); }
  }
}
