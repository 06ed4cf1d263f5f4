/** The blocks that append a CRC to a message and check it. */
module CrcBlocks {
  import opened Bits
  import opened Crc
  import opened CrcTheory
  import opened ExclusiveOr
  import opened Options
  import opened Sequences

  /** The k bytes of a number, lowest one first or highest one first. */
  function NumberBytes(x: nat, k: nat, lowFirst: bool): (b: seq<nat>)
    ensures |b| == k
    decreases k
  {
    if k == 0 then []
    else if lowFirst then [x % 256] + NumberBytes(x / 256, k - 1, true)
    else NumberBytes(x / 256, k - 1, false) + [x % 256]
  }

  /** The number that bytes spell, highest one first. */
  function BigValue(b: seq<nat>): nat {
    if b == [] then 0 else 256 * BigValue(Front(b)) + Last(b)
  }

  /** The number that bytes spell, lowest one first. */
  function LittleValue(b: seq<nat>): nat {
    if b == [] then 0 else 256 * LittleValue(b[1..]) + b[0]
  }

  function NumberValue(b: seq<nat>, lowFirst: bool): nat { if lowFirst then LittleValue(b) else BigValue(b) }

  lemma BytePowers(k: nat)
    requires k > 0
    ensures Pow2(8 * k) == 256 * Pow2(8 * (k - 1))
  {
    BytePower();
    PowAdd(8, 8 * (k - 1));
  }

  lemma {:induction false} ValueOfNumber(x: nat, k: nat, lowFirst: bool)
    requires x < Pow2(8 * k)
    ensures NumberValue(NumberBytes(x, k, lowFirst), lowFirst) == x
    decreases k
  {
    hide Pow2;
    if k == 0 {
      BytePower();
    } else {
      BytePowers(k);
      ValueOfNumber(x / 256, k - 1, lowFirst);
      if lowFirst {
        assert NumberBytes(x, k, true)[1..] == NumberBytes(x / 256, k - 1, true);
      } else {
        FrontOfAppend(NumberBytes(x / 256, k - 1, false), x % 256);
      }
    }
  }

  lemma {:induction false} NumberIsBytes(x: nat, k: nat, lowFirst: bool)
    ensures Bytes(NumberBytes(x, k, lowFirst))
    decreases k
  {
    if k > 0 { NumberIsBytes(x / 256, k - 1, lowFirst); }
  }

  lemma LowByte(x: nat)
    ensures Low(x, 8) == x % 256 && High(x, 8) == x / 256
  {
    BytePower();
    LowIsMod(x, 8);
  }

  lemma {:induction false} HighOfHigh(x: nat, a: nat, b: nat)
    ensures High(High(x, a), b) == High(x, a + b)
    decreases a
  {
    if a > 0 { HighOfHigh(x / 2, a - 1, b); }
  }

  lemma OrByte(y: nat, b: nat)
    requires b < 256
    ensures Or(256 * y, b) == 256 * y + b
  {
    hide Or;
    BytePower();
    OrParts(y, b, 8);
  }

  lemma {:induction false} OrParts(y: nat, b: nat, k: nat)
    requires b < Pow2(k)
    ensures Or(y * Pow2(k), b) == y * Pow2(k) + b
  {
    if k == 0 {
      OrZero(y);
    } else {
      var t := y * Pow2(k);
      assert t == 2 * (y * Pow2(k - 1));
      OrParts(y, b / 2, k - 1);
      OrHalves(t, b);
    }
  }

  lemma OrHalves(a: nat, b: nat)
    ensures Or(a, b) == 2 * Or(a / 2, b / 2) + (if a % 2 == 1 || b % 2 == 1 then 1 else 0)
  {}

  /** The k bytes of a number at the end of a message. */
  method AppendNumber(pdu: seq<nat>, x: nat, k: nat, lowFirst: bool) returns (msg: seq<nat>)
    ensures msg == pdu + NumberBytes(x, k, lowFirst)
  {
    hide Low, High;
    msg := pdu;
    if lowFirst {
      var rest: nat := x;
      for i := 0 to k
        invariant |msg| == |pdu| + i && msg + NumberBytes(rest, k - i, true) == pdu + NumberBytes(x, k, true)
      {
        LowByte(rest);
        msg := msg + [Low(rest, 8)];
        rest := High(rest, 8);
      }
      assert msg + [] == msg;
    } else {
      for i := 0 to k
        invariant msg == pdu + NumberBytes(High(x, 8 * (k - i)), i, false)
      {
        var y := High(x, 8 * k - 8 * (i + 1));
        HighOfHigh(x, 8 * (k - i - 1), 8);
        LowByte(y);
        msg := msg + [Low(y, 8)];
      }
      assert High(x, 0) == x by { NoBits(x); }
    }
  }

  /** crc_append_impl. */
  class CrcAppend {
    const crc: Calculator
    const swapEndianness: bool
    const headerBytes: nat

    ghost predicate Valid()
      reads crc.table
    {
      crc.Valid() && crc.numBits % 8 == 0
    }

    constructor (crc: Calculator, swapEndianness: bool, headerBytes: nat)
      requires crc.Valid() && crc.numBits % 8 == 0
      ensures Valid() && this.crc == crc && this.swapEndianness == swapEndianness && this.headerBytes == headerBytes
    {
      this.crc, this.swapEndianness, this.headerBytes := crc, swapEndianness, headerBytes;
    }

    /** A message no longer than its header is dropped; otherwise the checksum of what follows the header is appended. */
    method HandleMessage(pdu: seq<nat>) returns (r: Option<seq<nat>>)
      requires Valid() && Bytes(pdu)
      ensures r == if |pdu| <= headerBytes then None
                   else Some(pdu + NumberBytes(Checksum(crc.parameters, pdu[headerBytes..]), crc.numBits / 8, swapEndianness))
    {
      hide Checksum, Low, High, Pow2;
      var size := |pdu|;
      if size <= headerBytes {
        return None;
      }
      var crcValue := crc.Compute(pdu[headerBytes..]);
      var msg := AppendNumber(pdu, crcValue, crc.numBits / 8, swapEndianness);
      r := Some(msg);
    }
  }

  /** The port on which the message leaves, and the message. */
  datatype Checked = Checked(ok: bool, frame: seq<nat>)

  /** The number in the last bytes of a message. */
  method ReadNumber(msg: seq<nat>, numBytes: nat, lowFirst: bool) returns (x: nat)
    requires numBytes <= |msg| && Bytes(msg)
    ensures x == NumberValue(msg[|msg| - numBytes..], lowFirst)
  {
    hide Or;
    x := 0;
    var size := |msg|;
    if lowFirst {
      var i := size - 1;
      while i >= size - numBytes
        invariant size - numBytes - 1 <= i < size
        invariant x == LittleValue(msg[i + 1..])
      {
        OrByte(x, msg[i]);
        assert msg[i..][1..] == msg[i + 1..];
        x := Or(256 * x, msg[i]);
        i := i - 1;
      }
    } else {
      for i := size - numBytes to size
        invariant x == BigValue(msg[size - numBytes..i])
      {
        OrByte(x, msg[i]);
        FrontOfAppend(msg[size - numBytes..i], msg[i]);
        assert msg[size - numBytes..i + 1] == msg[size - numBytes..i] + [msg[i]];
        x := Or(256 * x, msg[i]);
      }
      assert msg[size - numBytes..size] == msg[size - numBytes..];
    }
  }

  /** crc_check_impl. */
  class CrcCheck {
    const crc: Calculator
    const swapEndianness: bool
    const discardCrc: bool
    const headerBytes: nat

    ghost predicate Valid()
      reads crc.table
    {
      crc.Valid() && crc.numBits % 8 == 0
    }

    constructor (crc: Calculator, swapEndianness: bool, discardCrc: bool, headerBytes: nat)
      requires crc.Valid() && crc.numBits % 8 == 0
      ensures Valid() && this.crc == crc && this.swapEndianness == swapEndianness
      ensures this.discardCrc == discardCrc && this.headerBytes == headerBytes
    {
      this.crc, this.swapEndianness, this.discardCrc, this.headerBytes := crc, swapEndianness, discardCrc, headerBytes;
    }

    /** A message too short for header, data and checksum is dropped; otherwise it leaves on the port that tells whether
        the number at its end is the checksum of what lies between. */
    method HandleMessage(msg: seq<nat>) returns (r: Option<Checked>)
      requires Valid() && Bytes(msg)
      ensures r.None? <==> |msg| <= headerBytes + crc.numBits / 8
      ensures r.Some? ==>
                var body := |msg| - crc.numBits / 8;
                && r.value.frame == (if discardCrc then msg[..body] else msg)
                && (r.value.ok <==> NumberValue(msg[body..], swapEndianness) == Checksum(crc.parameters, msg[headerBytes..body]))
    {
      hide Checksum, Low, High, Pow2, Or;
      var numBytes, size := crc.numBits / 8, |msg|;
      if size <= headerBytes + numBytes {
        return None;
      }
      var msgCrc := ReadNumber(msg, numBytes, swapEndianness);
      var crcComputed := crc.Compute(msg[headerBytes..size - numBytes]);
      var crcOk := crcComputed == msgCrc;
      var outSize := if discardCrc then size - numBytes else size;
      assert msg[..size] == msg;
      r := Some(Checked(crcOk, msg[..outSize]));
    }
  }

  /** What is appended is accepted, and the message comes back. */
  method RoundTrip(append: CrcAppend, check: CrcCheck, msg: seq<nat>) returns (r: Option<Checked>)
    requires append.Valid() && check.Valid() && append.crc.parameters == check.crc.parameters
    requires Bytes(msg) && |msg| > append.headerBytes
    requires append.swapEndianness == check.swapEndianness && append.headerBytes == check.headerBytes
    ensures r.Some? && r.value.ok && |r.value.frame| >= |msg| && r.value.frame[..|msg|] == msg
    ensures check.discardCrc ==> r == Some(Checked(true, msg))
  {
    hide Checksum, Pow2;
    var sent := append.HandleMessage(msg);
    var k := append.crc.numBits / 8;
    ghost var x := Checksum(append.crc.parameters, msg[append.headerBytes..]);
    ChecksumBound(append.crc.parameters, msg[append.headerBytes..]);
    ValueOfNumber(x, k, append.swapEndianness);
    NumberIsBytes(x, k, append.swapEndianness);
    assert sent.value[|msg|..] == NumberBytes(x, k, append.swapEndianness);
    assert sent.value[append.headerBytes..|msg|] == msg[append.headerBytes..];
    r := check.HandleMessage(sent.value);
  }
}
