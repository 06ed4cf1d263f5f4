/** The frame check sequence of HDLC by its polynomial x^16 + x^12 + x^5 + 1 and by the residue that a good frame
    leaves. */
module HdlcLaws {
  import opened Bits
  import opened Crc
  import opened CrcBlocks
  import opened CrcLaws
  import opened CrcTheory
  import opened ExclusiveOr
  import opened HdlcTheory
  import opened PolynomialDivision
  import opened Sequences
  import Periods

  lemma Powers()
    ensures Pow2(16) == 65536 && Pow2(15) == 32768
  {
    hide Pow2;
    BytePower();
    PowAdd(8, 8);
    PowAdd(8, 7);
  }

  lemma MirrorOneMore(x: nat, n: nat, p: nat, m: nat)
    requires n > 0 && Pow2(n - 1) == p && Mirror(x / 2, n - 1) == m
    ensures Pow2(n) == 2 * p && Mirror(x, n) == (if x % 2 == 1 then p + m else m)
  {}

  lemma {:induction false} MirrorOfOnes(n: nat)
    ensures Mirror(Pow2(n) - 1, n) == Pow2(n) - 1
  {
    hide Mirror, Pow2;
    if n == 0 {
      BytePower();
      NoBits(0);
    } else {
      var p := Pow2(n - 1);
      MirrorOfOnes(n - 1);
      assert Pow2(n) == 2 * p by { NextPower(n); }
      assert (2 * p - 1) / 2 == p - 1 && (2 * p - 1) % 2 == 1;
      MirrorOneMore(2 * p - 1, n, p, p - 1);
    }
  }

  lemma NextPower(n: nat)
    requires n > 0
    ensures Pow2(n) == 2 * Pow2(n - 1)
  {}

  lemma Words()
    ensures Mirror(0xFFFF, 16) == 0xFFFF && Low(0xFFFF, 16) == 0xFFFF && Low(0x1021, 16) == 0x1021
  {
    hide Low, Mirror, Pow2;
    Powers();
    MirrorOfOnes(16);
    LowOfSmall(0xFFFF, 16);
    LowOfSmall(0x1021, 16);
  }

  /** The frame check sequence is the complement of the remainder of the data, least significant bits first, with its
      first sixteen bits complemented, on division by x^16 + x^12 + x^5 + 1. */
  lemma FcsIsRemainder(payload: seq<nat>)
    ensures Remainder(Dividend(16, 0xFFFF, DataBits(payload, true)), 0x11021, 16, Mirror(Xor(Checksum(X25, payload), 0xFFFF), 16))
  {
    hide Low, Mirror, Pow2, Checksum, Xor, DataBits, Dividend, Remainder;
    Words();
    Powers();
    ChecksumIsRemainder(X25, payload);
  }

  // ---------------------------------------------------------------- the residue

  lemma MirrorOfResidue()
    ensures Mirror(0x1D0F, 16) == 0xF0B8
  {
    hide Mirror, Pow2;
    BytePower();
    NoBits(0);
    MirrorOneMore(0x0, 1, 1, 0); MirrorOneMore(0x0, 2, 2, 0); MirrorOneMore(0x0, 3, 4, 0); MirrorOneMore(0x1, 4, 8, 0);
    MirrorOneMore(0x3, 5, 16, 8); MirrorOneMore(0x7, 6, 32, 24); MirrorOneMore(0xE, 7, 64, 56); MirrorOneMore(0x1D, 8, 128, 56);
    MirrorOneMore(0x3A, 9, 256, 184); MirrorOneMore(0x74, 10, 512, 184); MirrorOneMore(0xE8, 11, 1024, 184);
    MirrorOneMore(0x1D0, 12, 2048, 184); MirrorOneMore(0x3A1, 13, 4096, 184); MirrorOneMore(0x743, 14, 8192, 4280);
    MirrorOneMore(0xE87, 15, 16384, 12472); MirrorOneMore(0x1D0F, 16, 32768, 28856);
  }

  lemma LowStep(x: nat)
    requires x < 0x8000
    ensures Shift(16, 0x1021, x) == 2 * x
  {
    hide Shift, Pow2;
    Powers();
    ShiftDoubles(16, 0x1021, x);
  }

  lemma HighStep(x: nat, w: bv16, r: bv16)
    requires 0x8000 <= x < 0x10000 && Periods.Value(w) == 2 * x - 0x10000 && r == Periods.Add(w, 0x1021)
    ensures Shift(16, 0x1021, x) == Periods.Value(r)
  {
    hide *;
    Powers();
    TakeTop(x, 16);
    ShiftCases(16, 0x1021, x);
    Words();
    WordOfPoly();
    WordBelow(w);
    Periods.SumOfWords(w, 0x1021, 16);
  }

  lemma WordOfPoly()
    ensures Periods.Value(0x1021) == 0x1021
  {}

  lemma WordBelow(w: bv16)
    ensures Periods.Value(w) < 65536
  {}

  lemma FourSteps(x0: nat, x1: nat, x2: nat, x3: nat, x4: nat, k: nat)
    requires Shifts(16, 0x1021, 0xFFFF, k) == x0
    requires Shift(16, 0x1021, x0) == x1 && Shift(16, 0x1021, x1) == x2 && Shift(16, 0x1021, x2) == x3 && Shift(16, 0x1021, x3) == x4
    ensures Shifts(16, 0x1021, 0xFFFF, k + 4) == x4
  {
    hide Shift, Shifts;
    ShiftsNext(16, 0x1021, 0xFFFF, k); ShiftsNext(16, 0x1021, 0xFFFF, k + 1); ShiftsNext(16, 0x1021, 0xFFFF, k + 2);
    ShiftsNext(16, 0x1021, 0xFFFF, k + 3);
  }

  lemma SixteenSteps()
    ensures Shifts(16, 0x1021, 0xFFFF, 16) == 0x1D0F
  {
    hide Shift, Shifts;
    ShiftsNext(16, 0x1021, 0xFFFF, 0);
    HighStep(0xFFFF, 0xFFFE, 0xEFDF); HighStep(0xEFDF, 0xDFBE, 0xCF9F); HighStep(0xCF9F, 0x9F3E, 0x8F1F);
    HighStep(0x8F1F, 0x1E3E, 0x0E1F);
    FourSteps(0xFFFF, 0xEFDF, 0xCF9F, 0x8F1F, 0x0E1F, 0);
    LowStep(0x0E1F); LowStep(0x1C3E); LowStep(0x387C); LowStep(0x70F8);
    FourSteps(0x0E1F, 0x1C3E, 0x387C, 0x70F8, 0xE1F0, 4);
    HighStep(0xE1F0, 0xC3E0, 0xD3C1); HighStep(0xD3C1, 0xA782, 0xB7A3); HighStep(0xB7A3, 0x6F46, 0x7F67); LowStep(0x7F67);
    FourSteps(0xE1F0, 0xD3C1, 0xB7A3, 0x7F67, 0xFECE, 8);
    HighStep(0xFECE, 0xFD9C, 0xEDBD); HighStep(0xEDBD, 0xDB7A, 0xCB5B); HighStep(0xCB5B, 0x96B6, 0x8697);
    HighStep(0x8697, 0x0D2E, 0x1D0F);
    FourSteps(0xFECE, 0xEDBD, 0xCB5B, 0x8697, 0x1D0F, 12);
  }

  lemma Complement()
    ensures Xor(0xF0B8, 0xFFFF) == 0x0F47 && Xor(0, 0xFFFF) == 0xFFFF
  {
    hide Xor;
    Powers();
    WordSum();
    Periods.SumOfWords(0xF0B8, 0xFFFF, 16);
    XorZero(0xFFFF);
  }

  lemma WordSum()
    ensures Periods.Add(0xF0B8, 0xFFFF) == 0x0F47
    ensures Periods.Value(0xF0B8) == 0xF0B8 && Periods.Value(0xFFFF) == 0xFFFF && Periods.Value(0x0F47) == 0x0F47
  {}

  /** The checksum of a message with its own checksum behind it, low byte first. */
  lemma Residue(data: seq<nat>)
    ensures Checksum(X25, Followed(X25, data, Checksum(X25, data))) == 0x0F47
  {
    hide Low, Mirror, Pow2, Checksum, Xor, Followed, Shifts;
    Powers();
    ChecksumBound(X25, data);
    ResidueOf(X25, data, Checksum(X25, data));
    XorSelf(Checksum(X25, data));
    Complement();
    Words();
    SixteenSteps();
    MirrorOfResidue();
  }

  lemma TwoBytes(frame: seq<nat>, y: nat)
    requires |frame| >= 2 && Bytes(frame) && y == frame[|frame| - 2] + 256 * frame[|frame| - 1]
    ensures frame == Followed(X25, frame[..|frame| - 2], y) && y < 65536
  {
    var n := |frame| - 2;
    assert NumberBytes(y, 2, true) == [frame[n], frame[n + 1]] by {
      assert y % 256 == frame[n] && y / 256 == frame[n + 1];
      assert NumberBytes(y / 256, 1, true) == [frame[n + 1]];
    }
    assert frame == frame[..n] + [frame[n], frame[n + 1]];
  }

  lemma OkIffOwn(frame: seq<nat>, y: nat)
    requires |frame| > 2 && Bytes(frame) && y == frame[|frame| - 2] + 256 * frame[|frame| - 1]
    ensures FcsOk(frame) <==> y == Checksum(X25, frame[..|frame| - 2])
  {
    hide Low, High, Checksum, Pow2;
    var out := Checksum(X25, frame[..|frame| - 2]);
    Powers();
    ChecksumBound(X25, frame[..|frame| - 2]);
    LowByte(out);
    LowByte(High(out, 8));
  }

  /** The deframer accepts a frame if and only if it has more than two bytes and leaves this residue. */
  lemma OkIffResidue(frame: seq<nat>)
    requires Bytes(frame)
    ensures FcsOk(frame) <==> |frame| > 2 && Checksum(X25, frame) == 0x0F47
  {
    hide Checksum, FcsOk, Followed, Pow2;
    if |frame| > 2 {
      var data := frame[..|frame| - 2];
      var y := frame[|frame| - 2] + 256 * frame[|frame| - 1];
      TwoBytes(frame, y);
      OkIffOwn(frame, y);
      Residue(data);
      Residue([]);
      Powers();
      if Checksum(X25, frame) == 0x0F47 { OnlyOwnChecksum(X25, data, y); }
    } else {
      TooShort(frame);
    }
  }

  lemma TooShort(frame: seq<nat>)
    requires |frame| <= 2
    ensures !FcsOk(frame)
  {}

  // ---------------------------------------------------------------- stuffing, and the bounded deque

  /** The ones counted are the last bits of the data. */
  lemma {:induction false} OnesAreLast(bits: seq<bit>)
    ensures Ones(bits) <= |bits| && forall i :: |bits| - Ones(bits) <= i < |bits| ==> bits[i] == 1
  {
    if bits != [] { OnesAreLast(Front(bits)); }
  }

  ghost predicate FiveOnesAt(bits: seq<bit>, i: nat) {
    i + 5 <= |bits| && forall k :: i <= k < i + 5 ==> bits[k] == 1
  }

  /** Data without five ones in a row are sent as they are. */
  lemma {:induction false} ShortRunsAreUnchanged(bits: seq<bit>)
    requires forall i: nat :: !FiveOnesAt(bits, i)
    ensures Stuffed(bits) == bits
  {
    if bits != [] {
      var f := Front(bits);
      assert forall i: nat :: FiveOnesAt(f, i) ==> FiveOnesAt(bits, i);
      ShortRunsAreUnchanged(f);
      OnesAreLast(f);
      assert Last(bits) == 1 && Ones(f) == 4 ==> FiveOnesAt(bits, |bits| - 5);
      FrontLast(bits);
    }
  }

  /** After a zero, or after a run that has been stuffed, five ones are followed by a zero. */
  lemma FiveOnesAreStuffed(bits: seq<bit>)
    requires Ones(bits) == 0
    ensures Stuffed(bits + [1, 1, 1, 1, 1]) == Stuffed(bits) + [1, 1, 1, 1, 1, 0] && Ones(bits + [1, 1, 1, 1, 1]) == 0
  {
    hide Stuffed, Ones;
    var b1 := bits + [1];
    var b2 := b1 + [1];
    var b3 := b2 + [1];
    var b4 := b3 + [1];
    OneMore(bits, 1); OneMore(b1, 1); OneMore(b2, 1); OneMore(b3, 1); OneMore(b4, 1);
    assert bits + [1, 1, 1, 1, 1] == b4 + [1];
    assert Stuffed(b4 + [1]) == Stuffed(bits) + [1, 1, 1, 1, 1, 0];
  }

  /** The last n elements, or all if there are fewer. */
  function LastOf(bits: seq<bit>, n: nat): (s: seq<bit>)
    ensures |s| <= n && |s| <= |bits|
  {
    if |bits| <= n then bits else bits[|bits| - n..]
  }

  lemma AppendKeepsLast(bits: seq<bit>, x: bit, n: nat)
    ensures Append(LastOf(bits, n), x, n) == LastOf(bits + [x], n)
  {}

  lemma {:induction false} Kept(maxLen: nat, bits: seq<bit>)
    ensures After(maxLen, RESET, Stuffed(bits)) == State(LastOf(bits, maxLen), Ones(bits))
  {
    hide FrameOf, FcsOk, After, Published, Append, LastOf;
    if bits == [] {
      NothingIn(maxLen, true, RESET);
      assert LastOf([], maxLen) == [];
    } else {
      var f, x := Front(bits), Last(bits);
      Kept(maxLen, f);
      FrontLast(bits);
      AppendKeepsLast(f, x, maxLen);
      Chunks(maxLen, true, RESET, Stuffed(f), [x]);
      OneBit(maxLen, true, State(LastOf(f, maxLen), Ones(f)), x);
      if x == 1 && Ones(f) == 4 {
        Chunks(maxLen, true, RESET, Stuffed(f) + [x], [0]);
        OneBit(maxLen, true, State(LastOf(bits, maxLen), 5), 0);
      } else {
        assert Stuffed(bits) == Stuffed(f) + [x];
      }
    }
  }

  /** However long the data, the deframer remembers exactly the last 8 (maxLength + 2) + 7 bits. */
  lemma DequeKeepsLast(maxLength: nat, bits: seq<bit>)
    ensures After(MaxBits(maxLength), RESET, Stuffed(bits)).bits
            == if |bits| <= 8 * maxLength + 23 then bits else bits[|bits| - (8 * maxLength + 23)..]
  {
    hide After, Stuffed;
    Kept(MaxBits(maxLength), bits);
  }

  /** Bits that do not fill whole bytes are filled up with fewer than eight zeros in front. */
  lemma PaddedInFront(bits: seq<bit>) returns (k: nat)
    ensures k < 8 && PaddedLeft(bits) == seq(k, _ => 0) + bits && (k + |bits|) % 8 == 0
  {
    k := if |bits| % 8 == 0 then 0 else 8 - |bits| % 8;
    assert PaddedLeft(bits) == seq(k, _ => 0) + bits;
  }

  lemma {:induction false} OnesAreCounted(maxLen: nat, s: State, n: nat)
    ensures After(maxLen, s, seq(n, _ => 1)).ones == s.ones + n
  {
    hide Append, FrameOf;
    if n > 0 {
      OnesAreCounted(maxLen, s, n - 1);
      assert Front(seq(n, _ => 1)) == seq(n - 1, _ => 1);
    }
  }

  /** Not only a flag but every run of more than five ones ends the frame and resets the deframer. */
  lemma LongRunsReset(maxLen: nat, s: State, n: nat)
    requires n > 5
    ensures After(maxLen, s, seq(n, _ => 1) + [0]) == RESET
  {
    hide After, Append;
    OnesAreCounted(maxLen, s, n);
    Chunks(maxLen, true, s, seq(n, _ => 1), [0]);
    OneBit(maxLen, true, After(maxLen, s, seq(n, _ => 1)), 0);
  }

  /** With no more than the seven flag bits collected there is no frame. */
  lemma NoFrameBeforeFlag(check: bool, s: State)
    requires |s.bits| <= 7
    ensures Emitted(check, s, 0) == []
  {
    hide FcsOk, Trimmed;
    assert Unflagged(s.bits) == [];
    assert PaddedLeft([]) == [];
  }
}
