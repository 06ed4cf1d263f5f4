/** The bit-serial shift register that a CRC stands for, its mirror image, and which errors it cannot miss. */
module CrcTheory {
  import opened Arithmetic
  import opened Bits
  import opened ExclusiveOr
  import opened GaloisField
  import opened Sequences

  /** One input bit: it is added to the top bit, then the register of n bits is shifted. */
  function Feed(n: nat, poly: nat, r: nat, b: bit): nat {
    Shift(n, poly, Xor(r, if b == 1 && n > 0 then Pow2(n - 1) else 0))
  }

  /** The register after all bits. */
  function Register(n: nat, poly: nat, r: nat, bits: seq<bit>): nat {
    if bits == [] then r else Feed(n, poly, Register(n, poly, r, Front(bits)), Last(bits))
  }

  /** k shifts without input. */
  function Shifts(n: nat, poly: nat, r: nat, k: nat): nat { ShiftBy(FieldParams(n, poly), r, k) }

  lemma {:induction false} RegisterConcat(n: nat, poly: nat, r: nat, a: seq<bit>, b: seq<bit>)
    ensures Register(n, poly, r, a + b) == Register(n, poly, Register(n, poly, r, a), b)
    decreases |b|
  {
    hide Feed;
    if b == [] {
      assert a + b == a;
    } else {
      RegisterConcat(n, poly, r, a, Front(b));
      assert Front(a + b) == a + Front(b);
    }
  }

  lemma {:induction false} RegisterBound(n: nat, poly: nat, r: nat, bits: seq<bit>)
    requires r < Pow2(n)
    ensures Register(n, poly, r, bits) < Pow2(n)
    decreases |bits|
  {
    hide Shift, Xor;
    if bits != [] {
      RegisterBound(n, poly, r, Front(bits));
      var q := Register(n, poly, r, Front(bits));
      ShiftBound(n, poly, Xor(q, if Last(bits) == 1 && n > 0 then Pow2(n - 1) else 0));
    }
  }

  // ---------------------------------------------------------------- linearity

  function Differ(x: bit, y: bit): bit { if x == y then 0 else 1 }

  function Difference(a: seq<bit>, b: seq<bit>): (d: seq<bit>)
    requires |a| == |b|
    ensures |d| == |a|
  {
    if a == [] then [] else Difference(Front(a), Front(b)) + [Differ(Last(a), Last(b))]
  }

  lemma FeedIsLinear(n: nat, poly: nat, r: nat, s: nat, x: bit, y: bit)
    ensures Feed(n, poly, Xor(r, s), Differ(x, y)) == Xor(Feed(n, poly, r, x), Feed(n, poly, s, y))
  {
    hide Shift, Xor;
    var top := if n > 0 then Pow2(n - 1) else 0;
    var a, b := if x == 1 then top else 0, if y == 1 then top else 0;
    ShiftLinear(n, poly, Xor(r, a), Xor(s, b));
    XorShuffle(r, a, s, b);
    XorSelf(top);
    XorZero(top);
    XorZero(0);
  }

  /** The difference of two registers is the register of the difference of the inputs. */
  lemma {:induction false} RegisterIsLinear(n: nat, poly: nat, r: nat, s: nat, a: seq<bit>, b: seq<bit>)
    requires |a| == |b|
    ensures Register(n, poly, Xor(r, s), Difference(a, b)) == Xor(Register(n, poly, r, a), Register(n, poly, s, b))
    decreases |a|
  {
    hide Feed, Xor;
    if a != [] {
      RegisterIsLinear(n, poly, r, s, Front(a), Front(b));
      FrontOfAppend(Difference(Front(a), Front(b)), Differ(Last(a), Last(b)));
      FeedIsLinear(n, poly, Register(n, poly, r, Front(a)), Register(n, poly, s, Front(b)), Last(a), Last(b));
    }
  }

  // ---------------------------------------------------------------- bursts

  lemma TopBit(n: nat, x: nat)
    requires n > 0 && x < Pow2(n)
    ensures Bit(2 * x, n) == (if x >= Pow2(n - 1) then 1 else 0)
  {
    if x >= Pow2(n - 1) {
      BitAbove(2 * x - Pow2(n), 1, n, n);
    } else {
      BitAbove(2 * x, 0, n, n);
    }
  }

  /** Without feedback a shift doubles. */
  lemma ShiftDoubles(n: nat, poly: nat, x: nat)
    requires 2 * x < Pow2(n)
    ensures Shift(n, poly, x) == 2 * x
  {
    BitAbove(2 * x, 0, n, n);
    LowOfSmall(2 * x, n);
  }

  lemma LowParity(x: nat, n: nat)
    requires n > 0
    ensures Low(x, n) % 2 == x % 2
  {}

  /** With an odd polynomial a shift whose result is even was one without feedback. */
  lemma EvenShift(n: nat, poly: nat, x: nat)
    requires n > 0 && poly % 2 == 1 && x < Pow2(n) && Shift(n, poly, x) % 2 == 0
    ensures x < Pow2(n - 1) && Shift(n, poly, x) == 2 * x
  {
    hide Xor, Low, Bit;
    TopBit(n, x);
    if x >= Pow2(n - 1) {
      LowParity(Xor(x * 2, poly), n);
      XorHalves(x * 2, poly);
    } else {
      ShiftDoubles(n, poly, x);
    }
  }

  /** The bits written into the top of the register, first one on top. */
  function TopBits(n: nat, bits: seq<bit>): nat
    decreases |bits|
  {
    if bits == [] || n == 0 then 0 else bits[0] * Pow2(n - 1) + TopBits(n - 1, bits[1..])
  }

  lemma {:induction false} TopBitsBound(n: nat, bits: seq<bit>)
    ensures TopBits(n, bits) < Pow2(n)
    decreases |bits|
  {
    if bits != [] && n > 0 { TopBitsBound(n - 1, bits[1..]); }
  }

  /** One place higher up. */
  lemma {:induction false} TopBitsDouble(n: nat, bits: seq<bit>)
    requires |bits| <= n
    ensures TopBits(n + 1, bits) == 2 * TopBits(n, bits)
    decreases |bits|
  {
    if bits != [] { TopBitsDouble(n - 1, bits[1..]); }
  }

  lemma {:induction false} RegisterFirst(n: nat, poly: nat, r: nat, bits: seq<bit>)
    requires bits != []
    ensures Register(n, poly, r, bits) == Register(n, poly, Feed(n, poly, r, bits[0]), bits[1..])
  {
    hide Feed;
    RegisterConcat(n, poly, r, bits[..1], bits[1..]);
    assert bits == bits[..1] + bits[1..] && bits[..1] == [bits[0]];
    assert Register(n, poly, r, [bits[0]]) == Feed(n, poly, r, bits[0]) by { assert Front([bits[0]]) == []; }
  }

  lemma XorTop(n: nat, r: nat, b: bit, x: nat)
    requires n > 0 && r < Pow2(n) && x < Pow2(n - 1) && Xor(r, if b == 1 then Pow2(n - 1) else 0) == x
    ensures r == x + b * Pow2(n - 1)
  {
    hide Xor;
    var t := if b == 1 then Pow2(n - 1) else 0;
    XorCancel(t, r);
    XorCommutes(x, t);
    AddDisjoint(x, t, n - 1, b);
  }

  /** Numbers without common bits. */
  lemma {:induction false} AddDisjoint(x: nat, t: nat, k: nat, q: nat)
    requires x < Pow2(k) && t == q * Pow2(k)
    ensures Xor(t, x) == x + t
  {
    hide Xor;
    if k == 0 {
      XorZero(t);
    } else {
      assert t == 2 * (q * Pow2(k - 1));
      AddDisjoint(x / 2, t / 2, k - 1, q);
      XorHalves(t, x);
      SameHalves(Xor(t, x), x + t);
    }
  }

  /** With an odd polynomial, at most n bits can bring the register to zero only if it held just these bits. */
  lemma {:induction false} ClearedByItself(n: nat, poly: nat, r: nat, bits: seq<bit>)
    requires n > 0 && poly % 2 == 1 && r < Pow2(n) && |bits| <= n && Register(n, poly, r, bits) == 0
    ensures r == TopBits(n, bits)
    decreases |bits|
  {
    hide Shift, Xor, Bit, Low;
    if bits != [] {
      var b, rest := bits[0], bits[1..];
      var x := Xor(r, if b == 1 then Pow2(n - 1) else 0);
      RegisterFirst(n, poly, r, bits);
      XorBound(r, if b == 1 then Pow2(n - 1) else 0, n);
      ShiftBound(n, poly, x);
      ClearedByItself(n, poly, Shift(n, poly, x), rest);
      TopBitsDouble(n - 1, rest);
      EvenShift(n, poly, x);
      XorTop(n, r, b, x);
    }
  }

  ghost predicate AllZero(bits: seq<bit>) { forall i :: 0 <= i < |bits| ==> bits[i] == 0 }

  lemma {:induction false} TopBitsZero(n: nat, bits: seq<bit>)
    requires |bits| <= n && TopBits(n, bits) == 0
    ensures AllZero(bits)
    decreases |bits|
  {
    if bits != [] {
      TopBitsZero(n - 1, bits[1..]);
      assert forall i :: 1 <= i < |bits| ==> bits[i] == bits[1..][i - 1];
    }
  }

  lemma {:induction false} ZerosKeepZero(n: nat, poly: nat, bits: seq<bit>)
    requires AllZero(bits)
    ensures Register(n, poly, 0, bits) == 0
  {
    hide Shift, Xor;
    if bits != [] {
      ZerosKeepZero(n, poly, Front(bits));
      XorZero(0);
      ShiftZero(n, poly);
    }
  }

  /** With an odd polynomial, zeros never clear the register. */
  lemma {:induction false} ZerosKeepNonzero(n: nat, poly: nat, r: nat, bits: seq<bit>)
    requires n > 0 && poly % 2 == 1 && 0 < r < Pow2(n) && AllZero(bits)
    ensures Register(n, poly, r, bits) != 0
    decreases |bits|
  {
    hide Shift, Xor;
    if bits != [] {
      ZerosKeepNonzero(n, poly, r, Front(bits));
      var q := Register(n, poly, r, Front(bits));
      RegisterBound(n, poly, r, Front(bits));
      XorZero(q);
      if Shift(n, poly, q) == 0 { EvenShift(n, poly, q); }
    }
  }

  /** A burst: the difference is confined to the places from i up to j. */
  ghost predicate Burst(d: seq<bit>, i: nat, j: nat) {
    i <= j <= |d| && AllZero(d[..i]) && AllZero(d[j..]) && !AllZero(d[i..j])
  }

  /** With an odd polynomial a burst no longer than the register changes the register. */
  lemma BurstIsSeen(n: nat, poly: nat, d: seq<bit>, i: nat, j: nat)
    requires n > 0 && poly % 2 == 1 && Burst(d, i, j) && j - i <= n
    ensures Register(n, poly, 0, d) != 0
  {
    hide Register, AllZero;
    assert d == d[..i] + d[i..j] + d[j..];
    RegisterConcat(n, poly, 0, d[..i] + d[i..j], d[j..]);
    RegisterConcat(n, poly, 0, d[..i], d[i..j]);
    ZerosKeepZero(n, poly, d[..i]);
    RegisterBound(n, poly, 0, d[i..j]);
    if Register(n, poly, 0, d[i..j]) == 0 {
      ClearedByItself(n, poly, 0, d[i..j]);
      TopBitsZero(n, d[i..j]);
    }
    ZerosKeepNonzero(n, poly, Register(n, poly, 0, d[i..j]), d[j..]);
  }

  // ---------------------------------------------------------------- the mirror image

  /** The n lowest bits in reverse order. */
  function Mirror(x: nat, n: nat): nat
    decreases n
  {
    if n == 0 then 0 else x % 2 * Pow2(n - 1) + Mirror(x / 2, n - 1)
  }

  lemma {:induction false} MirrorBound(x: nat, n: nat)
    ensures Mirror(x, n) < Pow2(n)
    decreases n
  {
    if n > 0 { MirrorBound(x / 2, n - 1); }
  }

  lemma {:induction false} MirrorStep(x: nat, n: nat)
    ensures Mirror(x, n + 1) == 2 * Mirror(x, n) + Bit(x, n)
    decreases n
  {
    if n == 0 {
      assert Mirror(x / 2, 0) == 0;
    } else {
      MirrorStep(x / 2, n - 1);
      assert x % 2 * Pow2(n) == 2 * (x % 2 * Pow2(n - 1));
    }
  }

  lemma {:induction false} LowTop(x: nat, n: nat)
    ensures Low(x, n + 1) == Low(x, n) + Bit(x, n) * Pow2(n)
    decreases n
  {
    if n > 0 {
      LowTop(x / 2, n - 1);
      DoubleProduct(Bit(x / 2, n - 1), Pow2(n - 1));
      assert Low(x, n + 1) == 2 * Low(x / 2, n) + x % 2;
    }
  }

  lemma DoubleProduct(b: nat, p: nat)
    ensures b * (2 * p) == 2 * (b * p)
  {}

  /** Mirroring twice leaves the n lowest bits. */
  lemma {:induction false} MirrorTwice(x: nat, n: nat)
    ensures Mirror(Mirror(x, n), n) == Low(x, n)
    decreases n
  {
    hide Bit, Low;
    if n == 0 {
      assert Low(x, 0) == 0 by { NoBits(x); }
    } else {
      var m := n - 1;
      MirrorTwice(x, m);
      MirrorStep(x, m);
      LowTop(x, m);
      assert Mirror(x, n) / 2 == Mirror(x, m) && Mirror(x, n) % 2 == Bit(x, m);
    }
  }

  lemma NoBits(x: nat)
    ensures Low(x, 0) == 0 && High(x, 0) == x && Mirror(x, 0) == 0
  {}

  lemma {:induction false} MirrorIsLinear(a: nat, b: nat, n: nat)
    ensures Mirror(Xor(a, b), n) == Xor(Mirror(a, n), Mirror(b, n))
    decreases n
  {
    hide Bit, Mirror, Xor;
    if n == 0 {
      NoBits(a); NoBits(b); NoBits(Xor(a, b));
      XorZero(0);
    } else {
      var m := n - 1;
      MirrorIsLinear(a, b, m);
      MirrorStep(a, m); MirrorStep(b, m); MirrorStep(Xor(a, b), m);
      BitOfXor(a, b, m);
      XorOfParts(Mirror(a, m), Mirror(b, m), Bit(a, m), Bit(b, m));
    }
  }

  lemma LowIsMod(x: nat, n: nat)
    ensures Low(x, n) == x % Pow2(n) && High(x, n) == x / Pow2(n)
  {
    hide Low, High, Pow2;
    SplitBits(x, n);
    LowBound(x, n);
    DivModUnique(x, Pow2(n), High(x, n), Low(x, n));
  }

  lemma LowOfSum(q: nat, x: nat, n: nat)
    requires x < Pow2(n)
    ensures Low(q * Pow2(n) + x, n) == x && High(q * Pow2(n) + x, n) == q
  {
    hide Low, High, Pow2;
    LowIsMod(q * Pow2(n) + x, n);
    DivModUnique(q * Pow2(n) + x, Pow2(n), q, x);
  }

  lemma BitOfSmall(x: nat, n: nat)
    requires x < Pow2(n)
    ensures Bit(x, n) == 0
  {
    BitAbove(x, 0, n, n);
  }

  /** One step of the mirrored register: down instead of up. */
  function MirrorShift(n: nat, poly: nat, x: nat): nat {
    if x % 2 == 1 then Xor(x / 2, Mirror(poly, n)) else x / 2
  }

  lemma MirrorParts(x: nat, n: nat)
    requires n > 0
    ensures Mirror(x, n) == (if x % 2 == 1 then Pow2(n - 1) else 0) + Mirror(x / 2, n - 1) < Pow2(n) == 2 * Pow2(n - 1)
    ensures Mirror(x / 2, n - 1) < Pow2(n - 1)
  {
    MirrorBound(x / 2, n - 1);
  }

  lemma MirrorOfHalf(x: nat, n: nat)
    requires n > 0 && x < Pow2(n)
    ensures Mirror(x / 2, n) == 2 * Mirror(x / 2, n - 1)
  {
    hide Mirror, Bit;
    MirrorStep(x / 2, n - 1);
    BitOfSmall(x / 2, n - 1);
  }

  /** The bit at the bottom is the top bit of the mirror image; doubling the mirror image drops it. */
  lemma MirrorDouble(n: nat, x: nat)
    requires n > 0 && x < Pow2(n)
    ensures Bit(2 * Mirror(x, n), n) == x % 2 && Low(2 * Mirror(x, n), n) == Mirror(x / 2, n)
  {
    hide *;
    var y, m := Mirror(x, n), Mirror(x / 2, n - 1);
    MirrorParts(x, n);
    TopBit(n, y);
    MirrorOfHalf(x, n);
    if x % 2 == 1 { LowOfSum(1, 2 * m, n); } else { LowOfSum(0, 2 * m, n); }
  }

  lemma ShiftCases(n: nat, poly: nat, y: nat)
    ensures Shift(n, poly, y) == if Bit(2 * y, n) == 1 then Xor(Low(2 * y, n), Low(poly, n)) else Low(2 * y, n)
  {
    hide Bit, Xor, Low;
    XorLow(2 * y, poly, n);
  }

  /** The mirrored step does to the mirror image what the step does. */
  lemma MirrorsShift(n: nat, poly: nat, x: nat)
    requires n > 0 && x < Pow2(n)
    ensures MirrorShift(n, poly, x) < Pow2(n)
    ensures Mirror(MirrorShift(n, poly, x), n) == Shift(n, poly, Mirror(x, n))
  {
    hide Xor, Low, High, Bit, Shift, Mirror, Pow2;
    MirrorBound(poly, n);
    XorBound(x / 2, Mirror(poly, n), n);
    MirrorDouble(n, x);
    ShiftCases(n, poly, Mirror(x, n));
    MirrorIsLinear(x / 2, Mirror(poly, n), n);
    MirrorTwice(poly, n);
  }

  function MirrorShifts(n: nat, poly: nat, x: nat, k: nat): nat {
    if k == 0 then x else MirrorShift(n, poly, MirrorShifts(n, poly, x, k - 1))
  }

  lemma {:induction false} MirrorsShifts(n: nat, poly: nat, x: nat, k: nat)
    requires n > 0 && x < Pow2(n)
    ensures MirrorShifts(n, poly, x, k) < Pow2(n)
    ensures Mirror(MirrorShifts(n, poly, x, k), n) == Shifts(n, poly, Mirror(x, n), k)
  {
    hide MirrorShift, Mirror, Shift;
    if k > 0 {
      MirrorsShifts(n, poly, x, k - 1);
      MirrorsShift(n, poly, MirrorShifts(n, poly, x, k - 1));
    }
  }

  lemma MirrorShiftForm(n: nat, poly: nat, x: nat)
    ensures MirrorShift(n, poly, x) == Xor(x / 2, Times(x % 2, Mirror(poly, n)))
  {
    XorZero(x / 2);
  }

  lemma MirrorShiftIsLinear(n: nat, poly: nat, a: nat, b: nat)
    ensures MirrorShift(n, poly, Xor(a, b)) == Xor(MirrorShift(n, poly, a), MirrorShift(n, poly, b))
  {
    hide *;
    var p, x, y := Mirror(poly, n), a % 2, b % 2;
    XorHalves(a, b);
    assert (a + b) % 2 == (x + y) % 2;
    MirrorShiftForm(n, poly, a); MirrorShiftForm(n, poly, b); MirrorShiftForm(n, poly, Xor(a, b));
    TimesLinear(x, y, p);
    XorShuffle(a / 2, Times(x, p), b / 2, Times(y, p));
  }

  lemma {:induction false} MirrorShiftsAreLinear(n: nat, poly: nat, a: nat, b: nat, k: nat)
    ensures MirrorShifts(n, poly, Xor(a, b), k) == Xor(MirrorShifts(n, poly, a, k), MirrorShifts(n, poly, b, k))
  {
    hide MirrorShift, Xor;
    if k > 0 {
      MirrorShiftsAreLinear(n, poly, a, b, k - 1);
      MirrorShiftIsLinear(n, poly, MirrorShifts(n, poly, a, k - 1), MirrorShifts(n, poly, b, k - 1));
    }
  }

  lemma {:induction false} MirrorShiftsAdd(n: nat, poly: nat, x: nat, j: nat, k: nat)
    ensures MirrorShifts(n, poly, x, j + k) == MirrorShifts(n, poly, MirrorShifts(n, poly, x, j), k)
  {
    hide MirrorShift;
    if k > 0 { MirrorShiftsAdd(n, poly, x, j, k - 1); }
  }

  /** Zeros at the bottom just fall out. */
  lemma {:induction false} MirrorShiftDown(n: nat, poly: nat, x: nat, k: nat)
    ensures MirrorShifts(n, poly, x * Pow2(k), k) == x
    decreases k
  {
    hide Xor, Mirror;
    if k > 0 {
      var y := x * Pow2(k - 1);
      assert x * Pow2(k) == 2 * y;
      assert MirrorShifts(n, poly, 2 * y, 1) == y by { assert MirrorShifts(n, poly, 2 * y, 0) == 2 * y; }
      MirrorShiftsAdd(n, poly, 2 * y, 1, k - 1);
      MirrorShiftDown(n, poly, x, k - 1);
    }
  }

  // ---------------------------------------------------------------- bytes

  /** Zeros at the top just fall out. */
  lemma {:induction false} ShiftUp(n: nat, poly: nat, x: nat, k: nat)
    requires x * Pow2(k) < Pow2(n)
    ensures Shifts(n, poly, x, k) == x * Pow2(k)
  {
    hide Shift;
    if k > 0 {
      assert x * Pow2(k) == 2 * (x * Pow2(k - 1));
      ShiftUp(n, poly, x, k - 1);
      ShiftDoubles(n, poly, x * Pow2(k - 1));
    }
  }

  /** The number that bits spell, first bit on top. */
  function Value(bits: seq<bit>): nat {
    if bits == [] then 0 else 2 * Value(Front(bits)) + Last(bits)
  }

  lemma {:induction false} ValueBound(bits: seq<bit>)
    ensures Value(bits) < Pow2(|bits|)
  {
    if bits != [] { ValueBound(Front(bits)); }
  }

  lemma {:induction false} PowAdd(j: nat, k: nat)
    ensures Pow2(j + k) == Pow2(j) * Pow2(k)
    decreases k
  {
    if k > 0 { PowAdd(j, k - 1); }
  }

  lemma ShiftsAreLinear(n: nat, poly: nat, a: nat, b: nat, k: nat)
    ensures Shifts(n, poly, Xor(a, b), k) == Xor(Shifts(n, poly, a, k), Shifts(n, poly, b, k))
  {
    ShiftByLinear(FieldParams(n, poly), a, b, k);
  }

  lemma ShiftsAdd(n: nat, poly: nat, x: nat, j: nat, k: nat)
    ensures Shifts(n, poly, x, j + k) == Shifts(n, poly, Shifts(n, poly, x, j), k)
  {
    ShiftByAdd(FieldParams(n, poly), x, j, k);
  }

  lemma ShiftsNext(n: nat, poly: nat, x: nat, k: nat)
    ensures Shifts(n, poly, x, k + 1) == Shift(n, poly, Shifts(n, poly, x, k)) && Shifts(n, poly, x, 0) == x
  {}

  /** The next bit goes below the earlier ones. */
  lemma NextPlace(v: nat, b: bit, m: nat, k: nat)
    ensures Xor(v * Pow2(m + 1), b * Pow2(m)) == (2 * v + b) * Pow2(m)
    ensures b * Pow2(m) * Pow2(k) == (if b == 1 then Pow2(m + k) else 0) < Pow2(m + k + 1)
  {
    hide Xor;
    PowAdd(m, k);
    assert v * Pow2(m + 1) == 2 * v * Pow2(m);
    AddDisjoint(b * Pow2(m), v * Pow2(m + 1), m + 1, v);
  }

  /** Feeding bits one by one is adding them all at the top of the register and then shifting. */
  lemma {:induction false} FeedAtOnce(n: nat, poly: nat, r: nat, bits: seq<bit>)
    requires |bits| <= n
    ensures Register(n, poly, r, bits) == Shifts(n, poly, Xor(r, Value(bits) * Pow2(n - |bits|)), |bits|)
    decreases |bits|
  {
    hide *;
    if bits == [] {
      NothingFed(n, poly, r, bits);
    } else {
      var k, m: nat, b, v := |bits| - 1, n - |bits|, Last(bits), Value(Front(bits));
      var big, small := v * Pow2(m + 1), b * Pow2(m);
      FeedAtOnce(n, poly, r, Front(bits));
      LastFed(n, poly, r, bits);
      NextPlace(v, b, m, k);
      ShiftUp(n, poly, small, k);
      ShiftsAreLinear(n, poly, Xor(r, big), small, k);
      XorAssociates(r, big, small);
      ShiftsNext(n, poly, Xor(r, Value(bits) * Pow2(m)), k);
    }
  }

  lemma NothingFed(n: nat, poly: nat, r: nat, bits: seq<bit>)
    requires bits == []
    ensures Register(n, poly, r, bits) == Shifts(n, poly, Xor(r, Value(bits) * Pow2(n - |bits|)), |bits|)
  {
    hide Xor;
    XorZero(r);
    ShiftsNext(n, poly, r, 0);
  }

  lemma LastFed(n: nat, poly: nat, r: nat, bits: seq<bit>)
    requires bits != [] && n > 0
    ensures Value(bits) == 2 * Value(Front(bits)) + Last(bits)
    ensures Register(n, poly, r, bits)
            == Shift(n, poly, Xor(Register(n, poly, r, Front(bits)), if Last(bits) == 1 then Pow2(n - 1) else 0))
  {
    hide Shift, Xor;
  }

  /** The bits of a byte in the order in which they are processed. */
  function ByteBits(x: nat, k: nat, reflected: bool): (b: seq<bit>)
    ensures |b| == k
  {
    seq(k, i requires 0 <= i < k => Bit(x, if reflected then i else k - 1 - i))
  }

  lemma ByteBitsFront(x: nat, k: nat, reflected: bool)
    requires k > 0
    ensures var f := ByteBits(x, k, reflected);
            && Last(f) == Bit(x, if reflected then k - 1 else 0)
            && Front(f) == ByteBits(if reflected then x else x / 2, k - 1, reflected)
  {
    hide Bit;
    var f, g := Front(ByteBits(x, k, reflected)), ByteBits(if reflected then x else x / 2, k - 1, reflected);
    forall i | 0 <= i < |f| ensures f[i] == g[i] {
      if !reflected { BitOfHalf(x, k - 2 - i); }
    }
  }

  lemma {:induction false} ValueOfByte(x: nat, k: nat, reflected: bool)
    ensures Value(ByteBits(x, k, reflected)) == if reflected then Mirror(x, k) else Low(x, k)
    decreases k
  {
    hide Mirror, Bit, ByteBits;
    if k == 0 {
      NoBits(x);
    } else {
      ByteBitsFront(x, k, reflected);
      if reflected {
        ValueOfByte(x, k - 1, true);
        MirrorStep(x, k - 1);
      } else {
        ValueOfByte(x / 2, k - 1, false);
        BitOfHalf(x, 0);
      }
    }
  }

  lemma BitOfHalf(x: nat, i: nat)
    ensures Bit(x, i + 1) == Bit(x / 2, i) && Bit(x, 0) == x % 2
  {}
}
