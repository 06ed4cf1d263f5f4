/** The HDLC framer and deframer blocks. */
module Hdlc {
  import opened Bits
  import opened Crc
  import opened CrcTheory
  import opened ExclusiveOr
  import opened HdlcTheory
  import opened Sequences

  class Framer {
    const crcCalc: Calculator
    const preambleBytes: nat
    const postambleBytes: nat

    ghost predicate Valid()
      reads crcCalc.table
    {
      crcCalc.Valid() && crcCalc.parameters == X25
    }

    constructor (preambleBytes: nat, postambleBytes: nat)
      ensures Valid() && this.preambleBytes == preambleBytes && this.postambleBytes == postambleBytes
      ensures fresh(crcCalc.table)
    {
      var calculator := new Calculator(X25);
      crcCalc := calculator;
      this.preambleBytes, this.postambleBytes := preambleBytes, postambleBytes;
    }

    /** handle_msg: flags, the stuffed bits of payload and checksum with least significant bits first, flags. */
    method HandleMsg(msg: seq<nat>) returns (buff: seq<bit>)
      requires Valid() && Bytes(msg)
      ensures buff == Sent(msg, preambleBytes, postambleBytes)
    {
      hide Checksum, ByteBits, Stuffed, Ones, Low, High, Bit;
      var crcVal := crcCalc.Compute(msg);
      var data := msg + [Low(crcVal, 8)];
      data := data + [Low(High(crcVal, 8), 8)];
      assert data == msg + Fcs(msg);
      buff := FlagBits(preambleBytes);
      ghost var head := buff;
      var ones := 0;
      assert Stuffed([]) == [] && Ones([]) == 0 by { NothingStuffed(); }
      assert data[..0] == [];
      for i := 0 to |data|
        invariant buff == head + Stuffed(DataBits(data[..i], true)) && ones == Ones(DataBits(data[..i], true))
      {
        FrontOfPrefix(data, i);
        buff, ones := StuffByte(buff, ones, data[i], head, DataBits(data[..i], true));
      }
      assert data[..|data|] == data;
      var tail := FlagBits(postambleBytes);
      buff := buff + tail;
    }

    /** The eight bits of one byte, stuffed. */
    method StuffByte(buff: seq<bit>, ones: nat, byte: nat, ghost head: seq<bit>, ghost before: seq<bit>)
      returns (buff': seq<bit>, ones': nat)
      requires buff == head + Stuffed(before) && ones == Ones(before)
      ensures buff' == head + Stuffed(before + ByteBits(byte, 8, true)) && ones' == Ones(before + ByteBits(byte, 8, true))
    {
      hide Stuffed, Ones, Bit, High;
      buff', ones' := buff, ones;
      var rest := byte;
      assert High(byte, 0) == byte by { NoBits(byte); }
      assert before + ByteBits(byte, 0, true) == before;
      for k := 0 to 8
        invariant rest == High(byte, k)
        invariant buff' == head + Stuffed(before + ByteBits(byte, k, true)) && ones' == Ones(before + ByteBits(byte, k, true))
      {
        ghost var bits := before + ByteBits(byte, k, true);
        var x: bit := rest % 2;
        assert x == Bit(byte, k) by { BitIsParity(byte, k); }
        assert before + ByteBits(byte, k + 1, true) == bits + [x];
        OneMore(bits, x);
        buff' := buff' + [x];
        if x == 1 {
          ones' := ones' + 1;
        } else {
          ones' := 0;
        }
        if ones' == 5 {
          buff' := buff' + [0];
          ones' := 0;
        }
        HighStep(byte, k);
        rest := rest / 2;
      }
    }
  }

  lemma NothingStuffed()
    ensures Stuffed([]) == [] && Ones([]) == 0
  {}

  lemma BitIsParity(x: nat, k: nat)
    ensures Bit(x, k) == High(x, k) % 2
  {
    if k > 0 { HighStep(x, k - 1); } else { BitOfHalf(x, 0); NoBits(x); }
  }

  method FlagBits(n: nat) returns (flags: seq<bit>)
    ensures flags == Flags(n)
  {
    flags := [];
    for i := 0 to n
      invariant flags == Flags(i)
    {
      flags := flags + FLAG;
    }
  }

  lemma LsbFrom(s: seq<bit>, lo: nat, hi: nat)
    requires lo < hi <= |s|
    ensures LsbValue(s[lo..hi]) == s[lo] + 2 * LsbValue(s[lo + 1..hi])
  {
    hide LsbValue;
    LsbStep(s[lo..hi]);
    assert s[lo..hi][1..] == s[lo + 1..hi];
  }

  method PackOne(s: seq<bit>, i: nat) returns (x: nat)
    requires i + 8 <= |s|
    ensures x == LsbValue(s[i..i + 8])
  {
    hide LsbValue;
    x := 0;
    NoValue(s[i + 8..i + 8]);
    var j := 8;
    while j > 0
      invariant 0 <= j <= 8 && x == LsbValue(s[i + j..i + 8])
    {
      j := j - 1;
      LsbFrom(s, i + j, i + 8);
      x := 2 * x;
      x := x + s[i + j];
    }
  }

  /** pack: eight bits to a byte, least significant bit first. */
  method PackBits(s: seq<bit>) returns (d: seq<nat>)
    requires |s| % 8 == 0
    ensures d == Pack(s)
  {
    hide LsbValue;
    d := [];
    var i := 0;
    assert s[..0] == [];
    while i < |s|
      invariant 0 <= i <= |s| && i % 8 == 0 && d == Pack(s[..i])
    {
      var x := PackOne(s, i);
      assert s[..i + 8][..i] == s[..i] && s[..i + 8][i..] == s[i..i + 8];
      d := d + [x];
      i := i + 8;
    }
    assert s[..|s|] == s;
  }

  lemma NoValue(b: seq<bit>)
    requires b == []
    ensures LsbValue(b) == 0
  {}

  lemma LsbStep(b: seq<bit>)
    requires b != []
    ensures LsbValue(b) == b[0] + 2 * LsbValue(b[1..])
  {}

  class Deframer {
    const crcCheck: Calculator
    const check: bool
    const maxLength: nat
    var bits: seq<bit>
    var ones: nat

    ghost predicate Valid()
      reads this, crcCheck.table
    {
      crcCheck.Valid() && crcCheck.parameters == X25 && |bits| <= MaxBits(maxLength)
    }

    ghost function Current(): State
      reads this
    {
      State(bits, ones)
    }

    constructor (check: bool, maxLength: nat)
      ensures Valid() && this.check == check && this.maxLength == maxLength && Current() == RESET
      ensures fresh(crcCheck.table)
    {
      var calculator := new Calculator(X25);
      crcCheck := calculator;
      this.check, this.maxLength := check, maxLength;
      bits, ones := [], 0;
    }

    /** hdlc_crc_check.fcs_ok. */
    method FcsIsOk(frame: seq<nat>) returns (ok: bool)
      requires crcCheck.Valid() && crcCheck.parameters == X25 && Bytes(frame)
      ensures ok == FcsOk(frame)
    {
      hide Checksum;
      if |frame| <= 2 {
        return false;
      }
      var out := crcCheck.Compute(frame[..|frame| - 2]);
      ok := frame[|frame| - 2] == Low(out, 8) && frame[|frame| - 1] == Low(High(out, 8), 8);
    }

    /** The collected flag bits come off, and zeros on the left fill up to whole bytes. */
    method StripFlag()
      requires Valid()
      modifies this`bits
      ensures Valid() && bits == PaddedLeft(Unflagged(old(bits)))
    {
      for k := 0 to if |bits| < 7 then |bits| else 7
        invariant k <= |old(bits)| && bits == old(bits)[..|old(bits)| - k]
      {
        bits := bits[..|bits| - 1];
      }
      assert bits == Unflagged(old(bits));
      if |bits| % 8 != 0 {
        bits := Zeros(8 - |bits| % 8) + bits;
      }
    }

    /** The end of a frame: flag off, pack, check, publish. */
    method CloseFrame() returns (published: seq<seq<nat>>)
      requires Valid() && ones > 5
      modifies this`bits
      ensures Valid() && bits == [] && published == Emitted(check, old(Current()), 0)
    {
      hide Pack, FcsOk, PaddedLeft, Unflagged;
      StripFlag();
      var frame := PackBits(bits);
      PackIsBytes(bits);
      bits := [];
      published := [];
      if frame != [] {
        var ok := !check;
        if check {
          ok := FcsIsOk(frame);
        }
        if ok {
          published := [if |frame| < 2 then [] else frame[..|frame| - 2]];
        }
      }
    }

    /** work: bit by bit; state and publications are those of the machine. */
    method Work(input: seq<bit>) returns (published: seq<seq<nat>>)
      requires Valid()
      modifies this`bits, this`ones
      ensures Valid() && Current() == After(MaxBits(maxLength), old(Current()), input)
      ensures published == HdlcTheory.Published(MaxBits(maxLength), check, old(Current()), input)
    {
      hide FrameOf, FcsOk, Trimmed;
      published := [];
      ghost var s := Current();
      assert input[..0] == [];
      for i := 0 to |input|
        invariant Valid() && Current() == After(MaxBits(maxLength), s, input[..i])
        invariant published == HdlcTheory.Published(MaxBits(maxLength), check, s, input[..i])
      {
        FrontOfPrefix(input, i);
        var x := input[i];
        if x == 1 {
          ones := ones + 1;
          bits := Append(bits, x, MaxBits(maxLength));
        } else {
          if ones == 5 {
          } else if ones > 5 {
            var more := CloseFrame();
            published := published + more;
          } else {
            bits := Append(bits, x, MaxBits(maxLength));
          }
          ones := 0;
        }
      }
      assert input[..|input|] == input;
    }
  }

  lemma {:induction false} LsbBelow(b: seq<bit>)
    ensures LsbValue(b) < Pow2(|b|)
  {
    if b != [] { LsbBelow(b[1..]); }
  }

  lemma {:induction false} PackIsBytes(b: seq<bit>)
    ensures Bytes(Pack(b))
    decreases |b|
  {
    hide LsbValue, Pow2;
    if |b| >= 8 {
      PackIsBytes(b[..|b| - 8]);
      LsbBelow(b[|b| - 8..]);
      BytePower();
    }
  }

  /** Frames of all payloads into a deframer in any state: from the first flag on it publishes exactly the payloads, in
      order, with or without checking. */
  method Loopback(framer: Framer, deframer: Deframer, payloads: seq<seq<nat>>) returns (published: seq<seq<nat>>)
    requires framer.Valid() && deframer.Valid() && Sendable(payloads, deframer.maxLength) && payloads != []
    requires framer.preambleBytes >= 1 && framer.postambleBytes >= 1
    modifies deframer`bits, deframer`ones
    ensures |published| >= |payloads| && published[|published| - |payloads|..] == payloads
    ensures old(deframer.Current()) == RESET ==> published == payloads
    ensures deframer.Valid() && deframer.Current() == RESET
  {
    hide Sent, After, HdlcTheory.Published, Bytes;
    ghost var s, m, a, b := deframer.Current(), MaxBits(deframer.maxLength), framer.preambleBytes, framer.postambleBytes;
    published := [];
    assert payloads[..0] == [];
    NothingIn(m, deframer.check, s);
    for i := 0 to |payloads|
      invariant deframer.Valid() && deframer.Current() == After(m, s, SentAll(payloads[..i], a, b))
      invariant published == HdlcTheory.Published(m, deframer.check, s, SentAll(payloads[..i], a, b))
    {
      FrontOfPrefix(payloads, i);
      Chunks(m, deframer.check, s, SentAll(payloads[..i], a, b), Sent(payloads[i], a, b));
      var frame := framer.HandleMsg(payloads[i]);
      var more := deframer.Work(frame);
      published := published + more;
    }
    assert payloads[..|payloads|] == payloads;
    FramesFromAnyState(deframer.maxLength, deframer.check, s, payloads, a, b);
    if s == RESET { AllFrames(deframer.maxLength, deframer.check, payloads, a, b); }
  }
}
