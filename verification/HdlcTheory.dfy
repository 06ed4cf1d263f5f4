/** HDLC framing as two bit machines: stuffing on one side, flag detection and destuffing on the other. */
module HdlcTheory {
  import opened Bits
  import opened Crc
  import opened CrcTheory
  import opened ExclusiveOr
  import opened Sequences

  /** The frame check sequence: CRC-16 as in X.25. */
  const X25: Parameters := Parameters(16, 0x1021, 0xFFFF, 0xFFFF, true, true)

  const FLAG: seq<bit> := [0, 1, 1, 1, 1, 1, 1, 0]

  function Flags(n: nat): seq<bit> { if n == 0 then [] else Flags(n - 1) + FLAG }

  // ---------------------------------------------------------------- stuffing

  /** Ones since the last zero, sent or stuffed. */
  function Ones(bits: seq<bit>): (n: nat)
    ensures n <= 4
  {
    if bits == [] || Last(bits) == 0 || Ones(Front(bits)) == 4 then 0 else Ones(Front(bits)) + 1
  }

  /** A zero after every five ones. */
  function Stuffed(bits: seq<bit>): seq<bit> {
    if bits == [] then []
    else Stuffed(Front(bits)) + [Last(bits)] + if Last(bits) == 1 && Ones(Front(bits)) == 4 then [0] else []
  }

  lemma OneMore(bits: seq<bit>, x: bit)
    ensures Stuffed(bits + [x]) == Stuffed(bits) + (if x == 1 && Ones(bits) == 4 then [x, 0] else [x])
    ensures Ones(bits + [x]) == if x == 0 || Ones(bits) == 4 then 0 else Ones(bits) + 1
  {
    FrontOfAppend(bits, x);
  }

  /** How many ones a sequence ends with. */
  function TrailingOnes(s: seq<bit>): nat {
    if s == [] || Last(s) == 0 then 0 else TrailingOnes(Front(s)) + 1
  }

  /** No six ones in a row anywhere. */
  ghost predicate NoSixOnes(s: seq<bit>) {
    s == [] || (TrailingOnes(s) <= 5 && NoSixOnes(Front(s)))
  }

  /** Stuffed data never look like a flag. */
  lemma {:induction false} StuffedHasNoSixOnes(bits: seq<bit>)
    ensures NoSixOnes(Stuffed(bits)) && TrailingOnes(Stuffed(bits)) == Ones(bits)
  {
    if bits != [] {
      var s, x := Stuffed(Front(bits)), Last(bits);
      StuffedHasNoSixOnes(Front(bits));
      FrontOfAppend(s, x);
      if x == 1 && Ones(Front(bits)) == 4 { FrontOfAppend(s + [x], 0); } else { assert Stuffed(bits) == s + [x]; }
    }
  }

  // ---------------------------------------------------------------- the deframer as a machine

  datatype State = State(bits: seq<bit>, ones: nat)

  const RESET: State := State([], 0)

  /** append on a deque with a maximum length: the oldest element makes room. */
  function Append(bits: seq<bit>, x: bit, maxLen: nat): (b: seq<bit>)
    ensures |bits| <= maxLen ==> |b| <= maxLen
  {
    if |bits| < maxLen then bits + [x] else if maxLen == 0 then [] else bits[1..] + [x]
  }

  /** The bits before a flag: the seven flag bits that have been collected are taken off. */
  function Unflagged(bits: seq<bit>): seq<bit> {
    if |bits| < 7 then [] else bits[..|bits| - 7]
  }

  function PaddedLeft(bits: seq<bit>): (b: seq<bit>)
    ensures |b| % 8 == 0
  {
    if |bits| % 8 == 0 then bits else Zeros(8 - |bits| % 8) + bits
  }

  /** Bits to a number, least significant one first. */
  function LsbValue(bits: seq<bit>): nat {
    if bits == [] then 0 else bits[0] + 2 * LsbValue(bits[1..])
  }

  function Pack(bits: seq<bit>): (d: seq<nat>)
    ensures |d| == |bits| / 8
  {
    if |bits| < 8 then [] else Pack(bits[..|bits| - 8]) + [LsbValue(bits[|bits| - 8..])]
  }

  /** A frame is accepted if its last two bytes are the checksum of the others, low byte first. */
  predicate FcsOk(frame: seq<nat>) {
    |frame| > 2 &&
    var out := Checksum(X25, frame[..|frame| - 2]);
    frame[|frame| - 2] == Low(out, 8) && frame[|frame| - 1] == Low(High(out, 8), 8)
  }

  function Trimmed(frame: seq<nat>): seq<nat> {
    if |frame| < 2 then [] else frame[..|frame| - 2]
  }

  function FrameOf(bits: seq<bit>): seq<nat> { Pack(PaddedLeft(Unflagged(bits))) }

  function Next(maxLen: nat, s: State, x: bit): State {
    if x == 1 then State(Append(s.bits, x, maxLen), s.ones + 1)
    else if s.ones == 5 then State(s.bits, 0)
    else if s.ones > 5 then RESET
    else State(Append(s.bits, x, maxLen), 0)
  }

  /** What is published when bit x arrives: nothing or one payload. */
  function Emitted(check: bool, s: State, x: bit): seq<seq<nat>> {
    var frame := FrameOf(s.bits);
    if x == 0 && s.ones > 5 && frame != [] && (!check || FcsOk(frame)) then [Trimmed(frame)] else []
  }

  function After(maxLen: nat, s: State, input: seq<bit>): State {
    if input == [] then s else Next(maxLen, After(maxLen, s, Front(input)), Last(input))
  }

  function Published(maxLen: nat, check: bool, s: State, input: seq<bit>): seq<seq<nat>> {
    if input == [] then []
    else Published(maxLen, check, s, Front(input)) + Emitted(check, After(maxLen, s, Front(input)), Last(input))
  }

  /** Cutting the input into pieces changes nothing. */
  lemma {:induction false} Chunks(maxLen: nat, check: bool, s: State, a: seq<bit>, b: seq<bit>)
    ensures After(maxLen, s, a + b) == After(maxLen, After(maxLen, s, a), b)
    ensures Published(maxLen, check, s, a + b) == Published(maxLen, check, s, a) + Published(maxLen, check, After(maxLen, s, a), b)
    decreases |b|
  {
    hide Next, Emitted;
    if b == [] {
      assert a + b == a;
    } else {
      Chunks(maxLen, check, s, a, Front(b));
      assert Front(a + b) == a + Front(b) && Last(a + b) == Last(b);
    }
  }

  // ---------------------------------------------------------------- one frame through the deframer

  lemma NothingIn(maxLen: nat, check: bool, s: State)
    ensures After(maxLen, s, []) == s && Published(maxLen, check, s, []) == []
  {}

  lemma OneBit(maxLen: nat, check: bool, s: State, x: bit)
    ensures After(maxLen, s, [x]) == Next(maxLen, s, x) && Published(maxLen, check, s, [x]) == Emitted(check, s, x)
  {
    hide Next, Emitted;
    assert Front([x]) == [];
  }

  /** The deframer takes the stuffing out again and publishes nothing meanwhile. */
  lemma {:induction false} Destuffing(maxLen: nat, check: bool, bits: seq<bit>)
    requires |bits| <= maxLen
    ensures After(maxLen, RESET, Stuffed(bits)) == State(bits, Ones(bits))
    ensures Published(maxLen, check, RESET, Stuffed(bits)) == []
  {
    hide FrameOf, FcsOk, After, Published;
    if bits == [] {
      NothingIn(maxLen, check, RESET);
    } else {
      var f, x := Front(bits), Last(bits);
      Destuffing(maxLen, check, f);
      FrontLast(bits);
      Chunks(maxLen, check, RESET, Stuffed(f), [x]);
      OneBit(maxLen, check, State(f, Ones(f)), x);
      if x == 1 && Ones(f) == 4 {
        Chunks(maxLen, check, RESET, Stuffed(f) + [x], [0]);
        OneBit(maxLen, check, State(bits, 5), 0);
      } else {
        assert Stuffed(bits) == Stuffed(f) + [x];
      }
    }
  }

  /** A flag closes the frame: whatever was collected before it is judged, and the deframer is reset. */
  lemma FlagCloses(maxLen: nat, check: bool, s: State)
    requires |s.bits| + 7 <= maxLen && s.ones <= 4
    ensures After(maxLen, s, FLAG) == RESET
    ensures var frame := Pack(PaddedLeft(s.bits));
            Published(maxLen, check, s, FLAG)
            == if frame == [] || (check && !FcsOk(frame)) then [] else [if |frame| < 2 then [] else frame[..|frame| - 2]]
  {
    hide Pack, PaddedLeft, FcsOk, After, Published;
    var b := s.bits;
    var c := b + [0] + [1] + [1] + [1] + [1] + [1] + [1];
    assert FLAG == [0] + [1] + [1] + [1] + [1] + [1] + [1] + [0];
    Chunks(maxLen, check, s, [0], [1]);
    OneBit(maxLen, check, s, 0);
    OneBit(maxLen, check, State(b + [0], 0), 1);
    Chunks(maxLen, check, s, [0] + [1], [1]);
    OneBit(maxLen, check, State(b + [0] + [1], 1), 1);
    Chunks(maxLen, check, s, [0] + [1] + [1], [1]);
    OneBit(maxLen, check, State(b + [0] + [1] + [1], 2), 1);
    Chunks(maxLen, check, s, [0] + [1] + [1] + [1], [1]);
    OneBit(maxLen, check, State(b + [0] + [1] + [1] + [1], 3), 1);
    Chunks(maxLen, check, s, [0] + [1] + [1] + [1] + [1], [1]);
    OneBit(maxLen, check, State(b + [0] + [1] + [1] + [1] + [1], 4), 1);
    Chunks(maxLen, check, s, [0] + [1] + [1] + [1] + [1] + [1], [1]);
    OneBit(maxLen, check, State(b + [0] + [1] + [1] + [1] + [1] + [1], 5), 1);
    Chunks(maxLen, check, s, [0] + [1] + [1] + [1] + [1] + [1] + [1], [0]);
    OneBit(maxLen, check, State(c, 6), 0);
    assert Unflagged(c) == b;
  }

  /** One flag resets the deframer from any state whatever. */
  lemma FlagResets(maxLen: nat, check: bool, s: State)
    ensures After(maxLen, s, FLAG) == RESET
  {
    hide Append, FrameOf, FcsOk, Emitted, Published, After;
    assert FLAG == [0] + [1] + [1] + [1] + [1] + [1] + [1] + [0];
    var t := Next(maxLen, s, 0);
    OneBit(maxLen, check, s, 0);
    assert t.ones == 0;
    Chunks(maxLen, check, s, [0], [1]); OneBit(maxLen, check, t, 1);
    var t1 := Next(maxLen, t, 1);
    Chunks(maxLen, check, s, [0] + [1], [1]); OneBit(maxLen, check, t1, 1);
    var t2 := Next(maxLen, t1, 1);
    Chunks(maxLen, check, s, [0] + [1] + [1], [1]); OneBit(maxLen, check, t2, 1);
    var t3 := Next(maxLen, t2, 1);
    Chunks(maxLen, check, s, [0] + [1] + [1] + [1], [1]); OneBit(maxLen, check, t3, 1);
    var t4 := Next(maxLen, t3, 1);
    Chunks(maxLen, check, s, [0] + [1] + [1] + [1] + [1], [1]); OneBit(maxLen, check, t4, 1);
    var t5 := Next(maxLen, t4, 1);
    Chunks(maxLen, check, s, [0] + [1] + [1] + [1] + [1] + [1], [1]); OneBit(maxLen, check, t5, 1);
    var t6 := Next(maxLen, t5, 1);
    Chunks(maxLen, check, s, [0] + [1] + [1] + [1] + [1] + [1] + [1], [0]); OneBit(maxLen, check, t6, 0);
  }

  // ---------------------------------------------------------------- payloads

  /** The frame check sequence of a payload, low byte first. */
  function Fcs(payload: seq<nat>): seq<nat> {
    var out := Checksum(X25, payload);
    [Low(out, 8), Low(High(out, 8), 8)]
  }

  /** What the framer sends for a payload. */
  function Sent(payload: seq<nat>, preamble: nat, postamble: nat): seq<bit> {
    Flags(preamble) + Stuffed(DataBits(payload + Fcs(payload), true)) + Flags(postamble)
  }

  /** The deque holds a frame of the greatest length and the seven flag bits that are still to be taken off. */
  function MaxBits(maxLength: nat): nat { (maxLength + 2) * 8 + 7 }

  lemma {:induction false} LsbOfByte(x: nat, k: nat)
    ensures LsbValue(ByteBits(x, k, true)) == Low(x, k)
    decreases k
  {
    hide Bit;
    if k > 0 {
      var b := ByteBits(x, k, true);
      assert b[1..] == ByteBits(x / 2, k - 1, true) by {
        forall i | 0 <= i < k - 1 ensures b[1..][i] == ByteBits(x / 2, k - 1, true)[i] { BitOfHalf(x, i); }
      }
      LsbOfByte(x / 2, k - 1);
      BitOfHalf(x, 0);
    }
  }

  /** Packing undoes the transmission order. */
  lemma {:induction false} PackOfData(data: seq<nat>)
    requires Bytes(data)
    ensures Pack(DataBits(data, true)) == data
  {
    hide ByteBits, LsbValue, Low;
    if data != [] {
      PackOfData(Front(data));
      var d, b := DataBits(Front(data), true), ByteBits(Last(data), 8, true);
      assert (d + b)[..|d|] == d && (d + b)[|d|..] == b;
      LsbOfByte(Last(data), 8);
      BytePower();
      LowOfSmall(Last(data), 8);
      FrontLast(data);
    }
  }

  lemma FcsIsBytes(payload: seq<nat>)
    ensures Bytes(Fcs(payload)) && |Fcs(payload)| == 2
  {
    hide Checksum;
    BytePower();
    LowBound(Checksum(X25, payload), 8);
    LowBound(High(Checksum(X25, payload), 8), 8);
  }

  lemma FrameIsOk(payload: seq<nat>)
    requires payload != []
    ensures FcsOk(payload + Fcs(payload)) && Trimmed(payload + Fcs(payload)) == payload
  {
    hide Checksum, Low, High;
    var frame := payload + Fcs(payload);
    assert frame[..|frame| - 2] == payload;
  }

  lemma {:induction false} IdleFlags(maxLength: nat, check: bool, n: nat)
    ensures After(MaxBits(maxLength), RESET, Flags(n)) == RESET
    ensures Published(MaxBits(maxLength), check, RESET, Flags(n)) == []
  {
    hide FcsOk, Trimmed, After, Published;
    if n == 0 {
      NothingIn(MaxBits(maxLength), check, RESET);
    } else {
      IdleFlags(maxLength, check, n - 1);
      Chunks(MaxBits(maxLength), check, RESET, Flags(n - 1), FLAG);
      FlagCloses(MaxBits(maxLength), check, RESET);
      assert Pack(PaddedLeft([])) == [];
    }
  }

  lemma {:induction false} FlagFirst(n: nat)
    requires n > 0
    ensures Flags(n) == FLAG + Flags(n - 1)
  {
    if n > 1 {
      FlagFirst(n - 1);
      assert FLAG + Flags(n - 2) + FLAG == FLAG + (Flags(n - 2) + FLAG);
    } else {
      assert [] + FLAG == FLAG + [];
    }
  }

  /** One payload comes through, and the deframer is ready for the next one. */
  lemma OneFrame(maxLength: nat, check: bool, payload: seq<nat>, preamble: nat, postamble: nat)
    requires Bytes(payload) && 1 <= |payload| <= maxLength && postamble >= 1
    ensures After(MaxBits(maxLength), RESET, Sent(payload, preamble, postamble)) == RESET
    ensures Published(MaxBits(maxLength), check, RESET, Sent(payload, preamble, postamble)) == [payload]
  {
    hide FcsOk, Trimmed, After, Published, Stuffed, Flags, Fcs, Pack, Ones;
    var m, frame := MaxBits(maxLength), payload + Fcs(payload);
    var bits := DataBits(frame, true);
    FcsIsBytes(payload);
    PackOfData(frame);
    FrameIsOk(payload);
    IdleFlags(maxLength, check, preamble);
    Destuffing(m, check, bits);
    FlagCloses(m, check, State(bits, Ones(bits)));
    FlagFirst(postamble);
    IdleFlags(maxLength, check, postamble - 1);
    Chunks(m, check, RESET, Flags(preamble), Stuffed(bits));
    Chunks(m, check, RESET, Flags(preamble) + Stuffed(bits), Flags(postamble));
    Chunks(m, check, State(bits, Ones(bits)), FLAG, Flags(postamble - 1));
  }

  function SentAll(payloads: seq<seq<nat>>, preamble: nat, postamble: nat): seq<bit> {
    if payloads == [] then []
    else SentAll(Front(payloads), preamble, postamble) + Sent(Last(payloads), preamble, postamble)
  }

  ghost predicate Sendable(payloads: seq<seq<nat>>, maxLength: nat) {
    forall i :: 0 <= i < |payloads| ==> Bytes(payloads[i]) && 1 <= |payloads[i]| <= maxLength
  }

  /** All payloads come through, in order, each one once. */
  lemma {:induction false} AllFrames(maxLength: nat, check: bool, payloads: seq<seq<nat>>, preamble: nat, postamble: nat)
    requires Sendable(payloads, maxLength) && postamble >= 1
    ensures After(MaxBits(maxLength), RESET, SentAll(payloads, preamble, postamble)) == RESET
    ensures Published(MaxBits(maxLength), check, RESET, SentAll(payloads, preamble, postamble)) == payloads
  {
    hide After, Published, Sent, Bytes;
    if payloads == [] {
      NothingIn(MaxBits(maxLength), check, RESET);
    } else {
      AllFrames(maxLength, check, Front(payloads), preamble, postamble);
      OneFrame(maxLength, check, Last(payloads), preamble, postamble);
      Chunks(MaxBits(maxLength), check, RESET, SentAll(Front(payloads), preamble, postamble), Sent(Last(payloads), preamble, postamble));
      FrontLast(payloads);
    }
  }

  lemma {:induction false} StartsWithFlag(payloads: seq<seq<nat>>, preamble: nat, postamble: nat) returns (rest: seq<bit>)
    requires payloads != [] && preamble >= 1
    ensures SentAll(payloads, preamble, postamble) == FLAG + rest
  {
    hide Stuffed, DataBits, Fcs;
    if |payloads| == 1 {
      FlagFirst(preamble);
      var p := payloads[0];
      var tail := Stuffed(DataBits(p + Fcs(p), true)) + Flags(postamble);
      rest := Flags(preamble - 1) + tail;
      assert SentAll(Front(payloads), preamble, postamble) == [];
      assert Sent(p, preamble, postamble) == FLAG + rest;
    } else {
      var r := StartsWithFlag(Front(payloads), preamble, postamble);
      rest := r + Sent(Last(payloads), preamble, postamble);
      assert FLAG + r + Sent(Last(payloads), preamble, postamble) == FLAG + rest;
    }
  }

  /** Whatever the deframer has seen before, after the first flag it publishes exactly the payloads. */
  lemma FramesFromAnyState(maxLength: nat, check: bool, s: State, payloads: seq<seq<nat>>, preamble: nat, postamble: nat)
    requires Sendable(payloads, maxLength) && payloads != [] && preamble >= 1 && postamble >= 1
    ensures Published(MaxBits(maxLength), check, s, SentAll(payloads, preamble, postamble))
            == Published(MaxBits(maxLength), check, s, FLAG) + payloads
    ensures After(MaxBits(maxLength), s, SentAll(payloads, preamble, postamble)) == RESET
  {
    hide After, Published, SentAll, Sendable;
    var m := MaxBits(maxLength);
    var rest := StartsWithFlag(payloads, preamble, postamble);
    FlagResets(m, check, s);
    FlagResets(m, check, RESET);
    IdleFlags(maxLength, check, 1);
    assert Flags(1) == FLAG by { assert Flags(0) + FLAG == FLAG; }
    Chunks(m, check, s, FLAG, rest);
    Chunks(m, check, RESET, FLAG, rest);
    AllFrames(maxLength, check, payloads, preamble, postamble);
    assert Published(m, check, RESET, rest) == payloads;
  }

  /** The bounded deque never drops a bit of a frame that is not too long. */
  lemma NothingIsDropped(maxLength: nat, check: bool, data: seq<nat>)
    requires |data| <= maxLength + 2
    ensures After(MaxBits(maxLength), RESET, Stuffed(DataBits(data, true))).bits == DataBits(data, true)
  {
    hide After, Stuffed;
    Destuffing(MaxBits(maxLength), check, DataBits(data, true));
  }
}
