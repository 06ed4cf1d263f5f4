/** The table-driven CRC calculator: its tables, its byte-wise loop, and the proof that it computes what the bit-serial
    register computes. */
module Crc {
  import opened Arithmetic
  import opened Bits
  import opened CrcTheory
  import opened ExclusiveOr
  import opened Options
  import opened Sequences

  datatype Parameters = Parameters(numBits: nat, poly: nat, initialValue: nat, finalXor: nat,
                                   inputReflected: bool, resultReflected: bool)

  predicate Bytes(data: seq<nat>) { forall i :: 0 <= i < |data| ==> data[i] < 256 }

  /** The data as the register sees them. */
  function DataBits(data: seq<nat>, reflected: bool): (b: seq<bit>)
    ensures |b| == 8 * |data|
  {
    if data == [] then [] else DataBits(Front(data), reflected) + ByteBits(Last(data), 8, reflected)
  }

  /** The register before the first bit. A reflected calculator takes the initial value as its mirrored register. */
  function Initial(p: Parameters): nat {
    if p.inputReflected then Mirror(p.initialValue, p.numBits) else Low(p.initialValue, p.numBits)
  }

  /** What the parameters prescribe: bit-serial division, the result mirrored if asked for. */
  function Checksum(p: Parameters, data: seq<nat>): nat {
    var register := Register(p.numBits, p.poly, Initial(p), DataBits(data, p.inputReflected));
    Xor(if p.resultReflected then Mirror(register, p.numBits) else register, Low(p.finalXor, p.numBits))
  }

  /** Truncation to 64 bits. */
  function Word(x: nat): nat { Low(x, 64) }

  // ---------------------------------------------------------------- table entries

  lemma PowBelow(n: nat, k: nat)
    requires k <= n
    ensures Pow2(n) == Pow2(n - k) * Pow2(k) && Pow2(k) <= Pow2(n)
  {
    PowAdd(n - k, k);
    MulAtLeast(Pow2(n - k), Pow2(k));
  }

  lemma BytePower()
    ensures Pow2(8) == 256 && Pow2(7) == 128 && Pow2(0) == 1
  {
    assert Pow2(4) == 16;
    assert Pow2(7) == 128;
  }

  /** Truncating first does not matter to the register. */
  lemma {:induction false} LowOfLow(x: nat, m: nat, n: nat)
    requires n <= m
    ensures Low(Low(x, m), n) == Low(x, n)
    decreases n
  {
    if n > 0 { LowOfLow(x / 2, m - 1, n - 1); }
  }

  lemma {:induction false} BitOfLow(x: nat, n: nat, i: nat)
    requires i < n
    ensures Bit(Low(x, n), i) == Bit(x, i)
    decreases n
  {
    if i > 0 { BitOfLow(x / 2, n - 1, i - 1); }
  }

  lemma LowDoubles(x: nat, n: nat)
    requires n > 0
    ensures Low(2 * x, n) == 2 * Low(x, n - 1)
  {
    hide *;
    LowParts(2 * x, n);
    assert 2 * x / 2 == x;
  }

  lemma LowParts(x: nat, n: nat)
    requires n > 0
    ensures Low(x, n) == 2 * Low(x / 2, n - 1) + x % 2
  {}

  /** The constructor's step keeps the bits above the register; the register does not see them. */
  lemma UnmaskedStep(n: nat, poly: nat, crc: nat)
    requires 1 <= n <= 64
    ensures Low(if Bit(crc, n - 1) == 1 then Xor(Word(2 * crc), poly) else Word(2 * crc), n) == Shift(n, poly, Low(crc, n))
  {
    hide Bit, Xor, Low;
    var x := Low(crc, n);
    LowOfLow(2 * crc, 64, n);
    XorLow(Word(2 * crc), poly, n);
    ShiftCases(n, poly, x);
    LowDoubles(crc, n);
    LowDoubles(x, n);
    LowOfLow(crc, n, n - 1);
    BitOfHalf(2 * x, n - 1);
    BitOfLow(crc, n, n - 1);
    assert 2 * x / 2 == x;
  }

  /** Entry b of the table for most significant bit first. */
  function Entry(n: nat, poly: nat, b: nat): nat {
    Shifts(n, poly, if n >= 8 then b * Pow2(n - 8) else 0, 8)
  }

  lemma {:induction false} XorScaled(a: nat, b: nat, k: nat)
    ensures Xor(a * Pow2(k), b * Pow2(k)) == Xor(a, b) * Pow2(k)
  {
    hide Xor;
    if k > 0 {
      XorScaled(a, b, k - 1);
      var x, y, z := a * Pow2(k - 1), b * Pow2(k - 1), Xor(a, b) * Pow2(k - 1);
      assert a * Pow2(k) == 2 * x && b * Pow2(k) == 2 * y && Xor(a, b) * Pow2(k) == 2 * z;
      XorDoubles(x, y);
    }
  }

  /** Entries of sums are sums of entries. */
  lemma EntryIsLinear(n: nat, poly: nat, a: nat, b: nat)
    requires n >= 8
    ensures Entry(n, poly, Xor(a, b)) == Xor(Entry(n, poly, a), Entry(n, poly, b))
  {
    hide Xor, Shifts;
    XorScaled(a, b, n - 8);
    ShiftsAreLinear(n, poly, a * Pow2(n - 8), b * Pow2(n - 8), 8);
  }

  /** The entry for a single bit comes out of the register that started with its top bit. */
  lemma EntryOfPower(n: nat, poly: nat, k: nat)
    requires n >= 8 && k < 8
    ensures Shifts(n, poly, Pow2(n - 1), k + 1) == Entry(n, poly, Pow2(k))
  {
    hide Shifts, Xor;
    var x := Pow2(k) * Pow2(n - 8);
    PowAdd(k, n - 8);
    PowAdd(k + (n - 8), 7 - k);
    ShiftUp(n, poly, x, 7 - k);
    ShiftsAdd(n, poly, x, 7 - k, k + 1);
  }

  lemma EntryBelow(n: nat, poly: nat, b: nat)
    ensures Entry(n, poly, b) < Pow2(n)
  {
    hide Shift;
    ShiftsNext(n, poly, if n >= 8 then b * Pow2(n - 8) else 0, 7);
    ShiftBound(n, poly, Shifts(n, poly, if n >= 8 then b * Pow2(n - 8) else 0, 7));
  }

  /** Entry b of the table for least significant bit first. */
  function MirrorEntry(n: nat, poly: nat, b: nat): nat { MirrorShifts(n, poly, b, 8) }

  lemma MirrorEntryOfPower(n: nat, poly: nat, k: nat)
    requires k < 8
    ensures MirrorShifts(n, poly, 1, 8 - k) == MirrorEntry(n, poly, Pow2(k))
  {
    hide MirrorShifts;
    MirrorShiftDown(n, poly, 1, k);
    MirrorShiftsAdd(n, poly, Pow2(k), k, 8 - k);
  }

  // ---------------------------------------------------------------- one byte

  lemma EntryZero(n: nat, poly: nat)
    ensures Entry(n, poly, 0) == 0 && MirrorEntry(n, poly, 0) == 0
  {
    hide Xor, Shifts, MirrorShifts;
    XorZero(0);
    XorSelf(Entry(n, poly, 0));
    ShiftsAreLinear(n, poly, 0, 0, 8);
    XorSelf(Shifts(n, poly, 0, 8));
    MirrorShiftsAreLinear(n, poly, 0, 0, 8);
    XorSelf(MirrorShifts(n, poly, 0, 8));
    assert (if n >= 8 then 0 * Pow2(n - 8) else 0) == 0;
  }

  /** A register split into its top byte and the rest. */
  lemma SplitStep(n: nat, poly: nat, rem: nat, hi: nat, lo: nat, byte: nat)
    requires n >= 8 && rem == hi * Pow2(n - 8) + lo && lo < Pow2(n - 8)
    ensures Shifts(n, poly, Xor(rem, byte * Pow2(n - 8)), 8) == Xor(Entry(n, poly, Xor(hi, byte)), lo * 256)
  {
    hide Xor, Shifts, Low, High, Pow2;
    var m := n - 8;
    var a, b := hi * Pow2(m), byte * Pow2(m);
    BytePower();
    AddDisjoint(lo, a, m, hi);
    XorAssociates(a, lo, b);
    XorCommutes(lo, b);
    XorAssociates(a, b, lo);
    XorScaled(hi, byte, m);
    ShiftsAreLinear(n, poly, Xor(a, b), lo, 8);
    PowAdd(m, 8);
    ShiftUp(n, poly, lo, 8);
  }

  lemma ShiftedRest(n: nat, rem: nat, hi: nat, lo: nat)
    requires 8 <= n <= 64 && rem == hi * Pow2(n - 8) + lo && lo < Pow2(n - 8)
    ensures Low(Word(rem * 256), n) == lo * 256
  {
    hide Low, High, Pow2;
    BytePower();
    PowAdd(n - 8, 8);
    LowOfLow(rem * 256, 64, n);
    assert rem * 256 == hi * Pow2(n) + lo * 256 by { assert hi * Pow2(n) == hi * Pow2(n - 8) * 256; }
    LowOfSum(hi, lo * 256, n);
  }

  /** The byte-wise step of the loop is eight steps of the register. */
  lemma ByteStep(n: nat, poly: nat, rem: nat, byte: nat)
    requires 8 <= n <= 64 && rem < Pow2(n) && byte < 256
    ensures var idx := Low(Xor(High(rem, n - 8), byte), 8);
            && idx < 256
            && Low(Xor(Entry(n, poly, idx), Word(rem * 256)), n) == Register(n, poly, rem, ByteBits(byte, 8, false))
  {
    hide *;
    var hi, lo, m := High(rem, n - 8), Low(rem, n - 8), n - 8;
    BytePower();
    SplitBits(rem, m);
    LowBound(rem, m);
    HighBelow(rem, n);
    XorBound(hi, byte, 8);
    LowOfSmall(Xor(hi, byte), 8);
    LowOfSmall(byte, 8);
    ValueOfByte(byte, 8, false);
    FeedAtOnce(n, poly, rem, ByteBits(byte, 8, false));
    SplitStep(n, poly, rem, hi, lo, byte);
    ShiftedRest(n, rem, hi, lo);
    XorLow(Entry(n, poly, Xor(hi, byte)), Word(rem * 256), n);
    EntryBelow(n, poly, Xor(hi, byte));
    LowOfSmall(Entry(n, poly, Xor(hi, byte)), n);
  }

  lemma HighBelow(rem: nat, n: nat)
    requires n >= 8 && rem < Pow2(n)
    ensures High(rem, n - 8) < 256
  {
    hide High, Low, Pow2;
    BytePower();
    SplitBits(rem, n - 8);
    PowAdd(8, n - 8);
    var d := High(rem, n - 8) - 256;
    MulAtLeast(d, Pow2(n - 8));
    assert d * Pow2(n - 8) == High(rem, n - 8) * Pow2(n - 8) - 256 * Pow2(n - 8);
  }

  /** The mirrored byte-wise step does the same to the mirror image. */
  lemma MirrorByteStep(n: nat, poly: nat, rem: nat, byte: nat)
    requires n >= 8 && rem < Pow2(n) && byte < 256
    ensures var idx := Low(Xor(rem, byte), 8); var next := Xor(MirrorEntry(n, poly, idx), High(rem, 8));
            && idx < 256 && next < Pow2(n)
            && Mirror(next, n) == Register(n, poly, Mirror(rem, n), ByteBits(byte, 8, true))
  {
    hide *;
    var y := Xor(rem, byte);
    BytePower();
    PowBelow(n, 8);
    XorBound(rem, byte, n);
    LowBound(y, 8);
    MirrorSplit(n, poly, rem, byte);
    EntryIsMirrorShifts(n, poly, y);
    MirrorsShifts(n, poly, y, 8);
    MirrorIsLinear(rem, byte, n);
    MirrorOfByte(n, byte);
    ValueOfByte(byte, 8, true);
    FeedAtOnce(n, poly, Mirror(rem, n), ByteBits(byte, 8, true));
  }

  lemma EntryIsMirrorShifts(n: nat, poly: nat, y: nat)
    ensures MirrorEntry(n, poly, y) == MirrorShifts(n, poly, y, 8)
  {}

  /** The low byte goes through the table, the rest just moves down. */
  lemma MirrorSplit(n: nat, poly: nat, rem: nat, byte: nat)
    requires byte < 256
    ensures MirrorEntry(n, poly, Xor(rem, byte)) == Xor(MirrorEntry(n, poly, Low(Xor(rem, byte), 8)), High(rem, 8))
  {
    hide Xor, MirrorShifts, Low, High, Pow2;
    var y := Xor(rem, byte);
    BytePower();
    SplitBits(y, 8);
    LowBound(y, 8);
    AddDisjoint(Low(y, 8), High(y, 8) * Pow2(8), 8, High(y, 8));
    XorCommutes(High(y, 8) * Pow2(8), Low(y, 8));
    MirrorShiftsAreLinear(n, poly, Low(y, 8), High(y, 8) * Pow2(8), 8);
    MirrorShiftDown(n, poly, High(y, 8), 8);
    HighOfXor(rem, byte, 8);
    LowOfSmall(byte, 8);
    XorZero(High(rem, 8));
  }

  lemma {:induction false} HighOfXor(a: nat, b: nat, n: nat)
    ensures High(Xor(a, b), n) == Xor(High(a, n), High(b, n))
    decreases n
  {
    hide Xor;
    if n > 0 {
      XorHalves(a, b);
      HighOfXor(a / 2, b / 2, n - 1);
    }
  }

  /** The mirror image of a byte sits at the top of the register. */
  lemma MirrorOfByte(n: nat, byte: nat)
    requires n >= 8 && byte < 256
    ensures Mirror(byte, n) == Mirror(byte, 8) * Pow2(n - 8)
  {
    hide Mirror, Pow2;
    BytePower();
    MirrorGrows(byte, 8, n - 8);
  }

  lemma {:induction false} MirrorGrows(x: nat, k: nat, m: nat)
    requires x < Pow2(k)
    ensures Mirror(x, k + m) == Mirror(x, k) * Pow2(m)
    decreases m
  {
    hide Mirror, Bit;
    if m > 0 {
      MirrorGrows(x, k, m - 1);
      PowAdd(k, m - 1);
      MulAtLeast(Pow2(m - 1), Pow2(k));
      MirrorStep(x, k + m - 1);
      BitOfSmall(x, k + m - 1);
      assert Mirror(x, k) * Pow2(m) == 2 * (Mirror(x, k) * Pow2(m - 1));
    }
  }

  // ---------------------------------------------------------------- the calculator

  class Calculator {
    const numBits: nat
    const initialValue: nat
    const finalXor: nat
    const inputReflected: bool
    const resultReflected: bool
    const table: array<nat>
    ghost const parameters: Parameters

    ghost predicate Valid()
      reads table
    {
      var p := parameters;
      && 8 <= numBits <= 64 && p.numBits == numBits && p.inputReflected == inputReflected
      && p.resultReflected == resultReflected && initialValue == Low(p.initialValue, numBits)
      && finalXor == Low(p.finalXor, numBits) && table.Length == 256
      && forall b :: 0 <= b < 256 ==>
           table[b] == if inputReflected then MirrorEntry(numBits, p.poly, b) else Entry(numBits, p.poly, b)
    }

    /** The number of bits is checked here instead of thrown on. */
    constructor (p: Parameters)
      requires 8 <= p.numBits <= 64
      ensures Valid() && parameters == p && fresh(table)
    {
      hide Low, Mirror, MirrorEntry, Entry;
      numBits, inputReflected, resultReflected, parameters := p.numBits, p.inputReflected, p.resultReflected, p;
      initialValue, finalXor := Low(p.initialValue, p.numBits), Low(p.finalXor, p.numBits);
      var t := new nat[256];
      t[0] := 0;
      EntryZero(p.numBits, p.poly);
      if p.inputReflected {
        FillReflected(t, p.numBits, p.poly);
      } else {
        Fill(t, p.numBits, p.poly);
      }
      table := t;
    }

    /** compute: the byte-wise loop yields the bit-serial checksum. */
    method Compute(data: seq<nat>) returns (crc: nat)
      requires Valid() && Bytes(data)
      ensures crc == Checksum(parameters, data)
    {
      hide Register, Mirror, MirrorEntry, Entry, Low, High, Xor, ByteBits, Bit, Pow2;
      ghost var p, start := parameters, Initial(parameters);
      var n := numBits;
      var rem: nat := initialValue;
      RegisterStart(p);
      assert data[..0] == [] && data[..|data|] == data;
      if inputReflected {
        for i := 0 to |data|
          invariant rem < Pow2(n) && Mirror(rem, n) == Register(n, p.poly, start, DataBits(data[..i], true))
        {
          FrontOfPrefix(data, i);
          var byte := data[i];
          var idx := Low(Xor(rem, byte), 8);
          MirrorByteStep(n, p.poly, rem, byte);
          RegisterConcat(n, p.poly, start, DataBits(data[..i], true), ByteBits(byte, 8, true));
          rem := Xor(table[idx], High(rem, 8));
        }
        MirrorTwice(rem, n);
        LowOfSmall(rem, n);
      } else {
        for i := 0 to |data|
          invariant rem < Pow2(n) && rem == Register(n, p.poly, start, DataBits(data[..i], false))
        {
          FrontOfPrefix(data, i);
          var byte := data[i];
          var idx := Low(Xor(High(rem, n - 8), byte), 8);
          ByteStep(n, p.poly, rem, byte);
          RegisterConcat(n, p.poly, start, DataBits(data[..i], false), ByteBits(byte, 8, false));
          rem := Low(Xor(table[idx], Word(rem * 256)), n);
          RegisterBound(n, p.poly, start, DataBits(data[..i + 1], false));
        }
      }
      if inputReflected != resultReflected {
        rem := Reflect(rem, n);
      }
      crc := Xor(rem, finalXor);
    }
  }

  lemma RegisterStart(p: Parameters)
    ensures var start := Initial(p);
            && start < Pow2(p.numBits) && Low(p.initialValue, p.numBits) < Pow2(p.numBits)
            && (p.inputReflected ==> start == Mirror(Low(p.initialValue, p.numBits), p.numBits))
            && Register(p.numBits, p.poly, start, []) == start
  {
    hide Mirror, Low;
    LowBound(p.initialValue, p.numBits);
    MirrorBound(p.initialValue, p.numBits);
    MirrorTwice(p.initialValue, p.numBits);
    MirrorTwice(Mirror(p.initialValue, p.numBits), p.numBits);
    LowOfSmall(Mirror(p.initialValue, p.numBits), p.numBits);
  }

  /** The doubling loop, most significant bit first. */
  method Fill(t: array<nat>, n: nat, poly: nat)
    requires t.Length == 256 && 8 <= n <= 64 && t[0] == Entry(n, poly, 0)
    modifies t
    ensures forall b :: 0 <= b < 256 ==> t[b] == Entry(n, poly, b)
  {
    hide *;
    BytePower();
    var crc := Pow2(n - 1);
    var i: nat := 1;
    ghost var k := 0;
    FillStart(n, poly);
    while i < 256
      invariant k <= 8 && i == Pow2(k) && Low(crc, n) == Shifts(n, poly, Pow2(n - 1), k)
      invariant i <= 256 && forall b :: 0 <= b < i ==> t[b] == Entry(n, poly, b)
      decreases 256 - i
    {
      SmallerPower(k);
      UnmaskedStep(n, poly, crc);
      ShiftsNext(n, poly, Pow2(n - 1), k);
      EntryOfPower(n, poly, k);
      if Bit(crc, n - 1) == 1 {
        crc := Xor(Word(2 * crc), poly);
      } else {
        crc := Word(2 * crc);
      }
      for j := 0 to i
        invariant forall b :: 0 <= b < i + j ==> t[b] == Entry(n, poly, b)
      {
        EntryOfSum(n, poly, crc, i, j, k);
        t[i + j] := Low(Xor(crc, t[j]), n);
      }
      i := 2 * i;
      k := k + 1;
    }
  }

  lemma FillStart(n: nat, poly: nat)
    requires n >= 1
    ensures Low(Pow2(n - 1), n) == Shifts(n, poly, Pow2(n - 1), 0)
  {
    hide Low, Shift;
    LowOfSmall(Pow2(n - 1), n);
  }

  lemma SmallerPower(k: nat)
    ensures Pow2(k + 1) == 2 * Pow2(k)
    ensures k <= 8 && Pow2(k) < 256 ==> k < 8 && Pow2(k) <= 128
  {
    if k == 8 { BytePower(); } else if k < 8 { BytePower(); PowBelow(7, k); }
  }

  lemma EntryOfSum(n: nat, poly: nat, crc: nat, i: nat, j: nat, k: nat)
    requires n >= 8 && i == Pow2(k) && j < i && Low(crc, n) == Entry(n, poly, i)
    ensures Low(Xor(crc, Entry(n, poly, j)), n) == Entry(n, poly, i + j)
  {
    hide *;
    XorLow(crc, Entry(n, poly, j), n);
    EntryBelow(n, poly, j);
    LowOfSmall(Entry(n, poly, j), n);
    AddDisjoint(j, i, k, 1);
    EntryIsLinear(n, poly, i, j);
  }

  /** Reversing the bits of a word. */
  method Reflect(word: nat, n: nat) returns (ret: nat)
    requires 1 <= n <= 64
    ensures ret == Mirror(word, n)
  {
    hide Mirror, Bit;
    ret := word % 2;
    MirrorStep(word, 0);
    NoBits(word);
    assert Bit(word, 0) == word % 2 by { BitOfHalf(word, 0); }
    assert High(word, 0) == word;
    var w := word;
    for i := 1 to n
      invariant ret == Mirror(word, i) && w == High(word, i - 1)
    {
      HighStep(word, i - 1);
      MirrorStep(word, i);
      w := w / 2;
      ret := 2 * ret + w % 2;
    }
  }

  lemma {:induction false} HighStep(x: nat, i: nat)
    ensures High(x, i + 1) == High(x, i) / 2 && High(x, i + 1) % 2 == Bit(x, i + 1)
    decreases i
  {
    if i > 0 { HighStep(x / 2, i - 1); }
  }

  /** Between two multiples of 2 i there is one more multiple of i. */
  lemma Multiples(b: nat, j: nat, i: nat)
    requires i >= 1 && j % (2 * i) == 0 && j <= b < j + 2 * i
    ensures b % i == 0 <==> b == j || b == j + i
    ensures b % (2 * i) == 0 <==> b == j
  {
    var m := j / (2 * i);
    assert j == m * (2 * i) == 2 * m * i;
    DivModUnique(b, 2 * i, m, b - j);
    if b < j + i {
      DivModUnique(b, i, 2 * m, b - j);
    } else {
      assert (2 * m + 1) * i == j + i;
      DivModUnique(b, i, 2 * m + 1, b - j - i);
    }
  }

  lemma NextFactor(m: nat, c: nat, sp: nat)
    requires m * sp < c * sp
    ensures m * sp + sp <= c * sp
  {
    var d, e := m - c, c - m - 1;
    assert d * sp == m * sp - c * sp;
    MulAtLeast(d, sp);
    assert e * sp == c * sp - m * sp - sp;
    MulAtLeast(e, sp);
  }

  lemma WholeRows(j: nat, sp: nat)
    requires sp >= 1 && j % sp == 0
    ensures j == j / sp * sp
  {}

  lemma NextMultiple(j: nat, sp: nat, k: nat)
    requires sp == Pow2(k) && k <= 8 && j % sp == 0 && j < 256
    ensures j + sp <= 256 && (j + sp) % sp == 0
  {
    BytePower();
    PowBelow(8, k);
    hide Pow2;
    var c, m := Pow2(8 - k), j / sp;
    WholeRows(j, sp);
    assert 256 == c * sp;
    NextFactor(m, c, sp);
    AddMultiple(j, 1, sp);
  }

  ghost predicate FilledEvery(t: seq<nat>, sp: nat, n: nat, poly: nat) {
    |t| == 256 && sp >= 1 && forall b :: 0 <= b < 256 && b % sp == 0 ==> t[b] == MirrorEntry(n, poly, b)
  }

  ghost predicate FilledBelow(t: seq<nat>, j: nat, i: nat, n: nat, poly: nat) {
    |t| == 256 && i >= 1 && forall b :: 0 <= b < 256 && b < j && b % i == 0 ==> t[b] == MirrorEntry(n, poly, b)
  }

  /** The doubling loop, least significant bit first. */
  method FillReflected(t: array<nat>, n: nat, polynomial: nat)
    requires t.Length == 256 && 8 <= n <= 64 && t[0] == MirrorEntry(n, polynomial, 0)
    modifies t
    ensures forall b :: 0 <= b < 256 ==> t[b] == MirrorEntry(n, polynomial, b)
  {
    hide *;
    BytePower();
    var poly := Reflect(polynomial, n);
    var crc: nat := 1;
    var i: nat := 128;
    ghost var k: nat, sp: nat := 8, 256;
    FirstFilled(t[..], n, polynomial);
    while i > 0
      invariant k <= 8 && sp == Pow2(k) && (if k == 0 then i == 0 else i == Pow2(k - 1) && sp == 2 * i)
      invariant crc == MirrorShifts(n, polynomial, 1, 8 - k) && FilledEvery(t[..], sp, n, polynomial)
      decreases k
    {
      k := k - 1;
      MirrorNext(n, polynomial, 1, 7 - k);
      MirrorEntryOfPower(n, polynomial, k);
      if crc % 2 == 1 {
        crc := Xor(crc / 2, poly);
      } else {
        crc := crc / 2;
      }
      FillMultiples(t, n, polynomial, crc, i, k);
      sp := i;
      i := i / 2;
      assert k > 0 ==> Pow2(k) == 2 * Pow2(k - 1) by { if k > 0 { SmallerPower(k - 1); } }
    }
    AllFilled(t[..], n, polynomial);
  }

  method FillMultiples(t: array<nat>, n: nat, poly: nat, crc: nat, i: nat, ghost k: nat)
    requires t.Length == 256 && 8 <= n <= 64 && k < 8 && i == Pow2(k)
    requires crc == MirrorEntry(n, poly, i) && FilledEvery(t[..], 2 * i, n, poly)
    modifies t
    ensures FilledEvery(t[..], i, n, poly)
  {
    hide *;
    var j := 0;
    ghost var sp := 2 * i;
    SmallerPower(k);
    assert FilledBelow(t[..], 0, i, n, poly) by { NothingBelow(t[..], i, n, poly); }
    ZeroMultiple(sp);
    while j < 256
      invariant j <= 256 && j % sp == 0 && FilledEvery(t[..], sp, n, poly) && FilledBelow(t[..], j, i, n, poly)
      decreases 256 - j
    {
      NextMultiple(j, sp, k + 1);
      ghost var before := t[..];
      t[i + j] := Low(Xor(crc, t[j]), n);
      FillOne(before, t[..], n, poly, crc, i, j, k);
      j := j + 2 * i;
    }
    EveryFromBelow(t[..], i, n, poly);
  }

  lemma ZeroMultiple(sp: nat)
    requires sp >= 1
    ensures 0 % sp == 0
  {
    DivModUnique(0, sp, 0, 0);
  }

  lemma NothingBelow(t: seq<nat>, i: nat, n: nat, poly: nat)
    requires |t| == 256 && i >= 1
    ensures FilledBelow(t, 0, i, n, poly)
  {}

  lemma EveryFromBelow(t: seq<nat>, i: nat, n: nat, poly: nat)
    requires FilledBelow(t, 256, i, n, poly)
    ensures FilledEvery(t, i, n, poly)
  {}

  lemma FirstFilled(t: seq<nat>, n: nat, poly: nat)
    requires |t| == 256 && t[0] == MirrorEntry(n, poly, 0)
    ensures FilledEvery(t, 256, n, poly) && MirrorShifts(n, poly, 1, 0) == 1
  {
    hide MirrorEntry;
  }

  lemma AllFilled(t: seq<nat>, n: nat, poly: nat)
    requires FilledEvery(t, 1, n, poly)
    ensures forall b :: 0 <= b < 256 ==> t[b] == MirrorEntry(n, poly, b)
  {
    hide MirrorEntry;
  }

  lemma MirrorNext(n: nat, poly: nat, x: nat, k: nat)
    ensures MirrorShifts(n, poly, x, k + 1)
            == var y := MirrorShifts(n, poly, x, k); if y % 2 == 1 then Xor(y / 2, Mirror(poly, n)) else y / 2
  {
    hide Xor, Mirror;
  }

  lemma MirrorEntryBelow(n: nat, poly: nat, b: nat)
    requires n >= 8 && b < 256
    ensures MirrorEntry(n, poly, b) < Pow2(n)
  {
    hide MirrorShifts, Pow2;
    BytePower();
    PowBelow(n, 8);
    MirrorsShifts(n, poly, b, 8);
  }

  lemma MirrorEntryOfSum(n: nat, poly: nat, i: nat, j: nat, k: nat)
    requires n >= 8 && i == Pow2(k) && i + j < 256 && Xor(i, j) == i + j
    ensures Low(Xor(MirrorEntry(n, poly, i), MirrorEntry(n, poly, j)), n) == MirrorEntry(n, poly, i + j)
  {
    hide Xor, Low, MirrorShifts, Pow2;
    MirrorShiftsAreLinear(n, poly, i, j, 8);
    MirrorEntryBelow(n, poly, i + j);
    LowOfSmall(MirrorEntry(n, poly, i + j), n);
  }

  lemma FillOne(before: seq<nat>, t: seq<nat>, n: nat, poly: nat, crc: nat, i: nat, j: nat, k: nat)
    requires |before| == 256 && 8 <= n && k < 8 && i == Pow2(k) && i + j < j + 2 * i <= 256 && j % (2 * i) == 0
    requires crc == MirrorEntry(n, poly, i)
    requires FilledEvery(before, 2 * i, n, poly) && FilledBelow(before, j, i, n, poly)
    requires t == before[i + j := Low(Xor(crc, before[j]), n)]
    ensures FilledEvery(t, 2 * i, n, poly) && FilledBelow(t, j + 2 * i, i, n, poly)
  {
    hide MirrorEntry, Xor, Low, Pow2;
    var m := j / (2 * i);
    assert j == m * (2 * i);
    assert Xor(i, j) == i + j by {
      assert 2 * i == Pow2(k + 1) by { SmallerPower(k); }
      AddDisjoint(i, j, k + 1, m);
      XorCommutes(i, j);
    }
    MirrorEntryOfSum(n, poly, i, j, k);
    Multiples(i + j, j, i);
    forall b | 0 <= b < 256 && b < j + 2 * i && b % i == 0 ensures t[b] == MirrorEntry(n, poly, b) {
      if b >= j { Multiples(b, j, i); }
    }
  }

  // ---------------------------------------------------------------- errors that change the checksum

  lemma ChecksumIsFaithful(p: Parameters, x: nat, y: nat)
    requires x < Pow2(p.numBits) && y < Pow2(p.numBits)
    requires Xor(if p.resultReflected then Mirror(x, p.numBits) else x, Low(p.finalXor, p.numBits))
             == Xor(if p.resultReflected then Mirror(y, p.numBits) else y, Low(p.finalXor, p.numBits))
    ensures x == y
  {
    hide Mirror, Low, Xor;
    var n := p.numBits;
    XorCancel(Low(p.finalXor, n), if p.resultReflected then Mirror(x, n) else x);
    XorCancel(Low(p.finalXor, n), if p.resultReflected then Mirror(y, n) else y);
    MirrorTwice(x, n); MirrorTwice(y, n);
    LowOfSmall(x, n); LowOfSmall(y, n);
  }

  /** With an odd polynomial the checksum sees every burst of errors that is no longer than itself. */
  lemma BurstIsDetected(p: Parameters, a: seq<nat>, b: seq<nat>, i: nat, j: nat)
    requires 8 <= p.numBits && p.poly % 2 == 1 && |a| == |b|
    requires Burst(Difference(DataBits(a, p.inputReflected), DataBits(b, p.inputReflected)), i, j) && j - i <= p.numBits
    ensures Checksum(p, a) != Checksum(p, b)
  {
    hide Register, Mirror, Low, Xor, Burst, Difference, DataBits;
    var n, start := p.numBits, Initial(p);
    var u, v := DataBits(a, p.inputReflected), DataBits(b, p.inputReflected);
    RegisterStart(p);
    BurstIsSeen(n, p.poly, Difference(u, v), i, j);
    RegisterIsLinear(n, p.poly, start, start, u, v);
    XorSelf(start);
    RegisterBound(n, p.poly, start, u);
    RegisterBound(n, p.poly, start, v);
    if Checksum(p, a) == Checksum(p, b) {
      ChecksumIsFaithful(p, Register(n, p.poly, start, u), Register(n, p.poly, start, v));
      XorSelf(Register(n, p.poly, start, u));
    }
  }

  lemma ChecksumBound(p: Parameters, data: seq<nat>)
    ensures Checksum(p, data) < Pow2(p.numBits)
  {
    hide Register, Mirror, Low, Xor, DataBits, Initial;
    var n := p.numBits;
    var r := Register(n, p.poly, Initial(p), DataBits(data, p.inputReflected));
    RegisterStart(p);
    RegisterBound(n, p.poly, Initial(p), DataBits(data, p.inputReflected));
    MirrorBound(r, n);
    LowBound(p.finalXor, n);
    XorBound(if p.resultReflected then Mirror(r, n) else r, Low(p.finalXor, n), n);
  }
}
