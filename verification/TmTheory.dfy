/** Space packets in a byte stream that is cut into transfer frames: where frames point to, and how packets are found
    again by their length fields. */
module TmTheory {
  import opened Sequences

  const HEADER: nat := 6
  const NO_START: nat := 0x3ff
  const MAX_POINTERS: nat := 2048

  function Stream(packets: seq<seq<nat>>): seq<nat> {
    if packets == [] then [] else Stream(Front(packets)) + Last(packets)
  }

  /** Where packet i starts; for i the number of packets, where the next one will start. */
  function Boundary(packets: seq<seq<nat>>, i: nat): nat
    requires i <= |packets|
  {
    |Stream(packets[..i])|
  }

  lemma BoundaryStep(packets: seq<seq<nat>>, i: nat)
    requires i < |packets|
    ensures Boundary(packets, i + 1) == Boundary(packets, i) + |packets[i]|
  {
    FrontOfPrefix(packets, i);
  }

  lemma {:induction false} BoundariesGrow(packets: seq<seq<nat>>, i: nat, j: nat)
    requires i <= j <= |packets|
    ensures Boundary(packets, i) <= Boundary(packets, j)
    decreases j
  {
    if i < j {
      BoundariesGrow(packets, i, j - 1);
      BoundaryStep(packets, j - 1);
    }
  }

  // ---------------------------------------------------------------- the first header pointer

  /** The least boundary from a on. */
  function FirstFrom(packets: seq<seq<nat>>, a: nat): nat {
    if packets == [] then 0
    else if |Stream(Front(packets))| >= a then FirstFrom(Front(packets), a)
    else |Stream(packets)|
  }

  /** The pointer of the frame of the given size that starts at a. */
  function Pointer(packets: seq<seq<nat>>, a: nat, size: nat): nat {
    var b := FirstFrom(packets, a);
    if a <= b < a + size then b - a else NO_START
  }

  lemma {:induction false} FirstFromIsLeast(packets: seq<seq<nat>>, a: nat) returns (i: nat)
    requires a <= |Stream(packets)|
    ensures i <= |packets| && Boundary(packets, i) == FirstFrom(packets, a) >= a
    ensures forall j :: 0 <= j < i ==> Boundary(packets, j) < a
  {
    if packets == [] {
      i := 0;
    } else {
      var f := Front(packets);
      assert packets[..|packets|] == packets;
      forall j | 0 <= j <= |f| ensures Boundary(f, j) == Boundary(packets, j) { assert f[..j] == packets[..j]; }
      if |Stream(f)| >= a {
        i := FirstFromIsLeast(f, a);
      } else {
        i := |packets|;
        forall j | 0 <= j < i ensures Boundary(packets, j) < a {
          BoundariesGrow(packets, j, |f|);
          assert packets[..|f|] == f;
        }
      }
    }
  }

  /** What the pointer of a frame within the stream says: the offset of the first packet start in it, or that there is
      none. */
  lemma PointerIsFirstStart(packets: seq<seq<nat>>, a: nat, size: nat)
    requires a + size <= |Stream(packets)| && size > 0
    ensures var p := Pointer(packets, a, size);
            (exists i :: StartsAt(packets, i, a, size) && Boundary(packets, i) == a + p
                         && forall j :: StartsAt(packets, j, a, size) ==> i <= j && Boundary(packets, j) >= a + p)
            || (p == 0x3ff && forall j :: !StartsAt(packets, j, a, size))
  {
    hide Stream;
    var i := FirstFromIsLeast(packets, a);
    assert packets[..|packets|] == packets;
    var b := Boundary(packets, i);
    forall j | StartsAt(packets, j, a, size) ensures i <= j && b <= Boundary(packets, j) {
      if i <= j { BoundariesGrow(packets, i, j); }
    }
    if b < a + size {
      assert i < |packets|;
      assert StartsAt(packets, i, a, size);
    }
  }

  /** Packet i starts in the frame at a. */
  ghost predicate StartsAt(packets: seq<seq<nat>>, i: int, a: nat, size: nat) {
    0 <= i < |packets| && a <= Boundary(packets, i) < a + size
  }

  /** For frames of at most 1023 bytes the pointer tells for certain whether a packet starts in the frame. */
  lemma PointerTells(packets: seq<seq<nat>>, a: nat, size: nat)
    requires a + size <= |Stream(packets)| && 0 < size <= 1023
    ensures Pointer(packets, a, size) == 0x3ff <==> forall j :: !StartsAt(packets, j, a, size)
  {
    PointerIsFirstStart(packets, a, size);
  }

  lemma TwoPackets(p: seq<nat>, q: seq<nat>, a: nat)
    requires 0 < a <= |p|
    ensures Stream([p, q]) == p + q && FirstFrom([p, q], a) == |p|
    ensures Boundary([p, q], 1) == |p|
  {
    assert [] + [p] == [p] && [p] + [q] == [p, q] && [p, q][..1] == [p];
    FrontOfAppend([], p);
    FrontOfAppend([p], q);
    assert Stream([]) == [];
    assert Stream([p]) == Stream([]) + p;
    assert FirstFrom([p], a) == |p|;
    assert Stream([p, q]) == Stream([p]) + q;
  }

  /** For larger frames it does not: after a packet one frame and 1023 bytes long, the second frame points to 1023, which
      is also the mark for no start at all. */
  lemma PointerIsAmbiguous(size: nat, p: seq<nat>, q: seq<nat>)
    requires size > 1023 && |p| == size + 1023 && |q| >= size
    ensures Pointer([p, q], size, size) == 0x3ff && StartsAt([p, q], 1, size, size)
  {
    hide Stream, FirstFrom;
    TwoPackets(p, q, size);
  }

  lemma PointerBound(packets: seq<seq<nat>>, a: nat, size: nat)
    ensures Pointer(packets, a, size) < size || Pointer(packets, a, size) == NO_START
  {}

  /** In frames of more than 2048 bytes a pointer may need twelve bits. */
  lemma PointerTooLarge(size: nat, p: seq<nat>, q: seq<nat>)
    requires size > MAX_POINTERS && |p| == size + MAX_POINTERS && |q| >= size
    ensures Pointer([p, q], 1 * size, size) == MAX_POINTERS && 2 * size <= |Stream([p, q])|
  {
    hide Stream, FirstFrom;
    TwoPackets(p, q, size);
  }

  /** A new packet does not change the least boundary from a on. */
  lemma FirstFromStays(packets: seq<seq<nat>>, packet: seq<nat>, a: nat)
    requires a <= |Stream(packets)|
    ensures FirstFrom(packets + [packet], a) == FirstFrom(packets, a)
  {
    FrontOfAppend(packets, packet);
  }

  /** Behind the last start only the end is left. */
  lemma FirstFromEnd(packets: seq<seq<nat>>, packet: seq<nat>, a: nat)
    requires |Stream(packets)| < a <= |Stream(packets + [packet])|
    ensures FirstFrom(packets + [packet], a) == |Stream(packets + [packet])|
  {
    FrontOfAppend(packets, packet);
  }

  // ---------------------------------------------------------------- packets by their length fields

  /** The last 16 bits of the header: the number of bytes that follow it. */
  function DataLength(header: seq<nat>): nat {
    if |header| < HEADER then 0 else header[4] * 256 + header[5]
  }

  predicate WellFormed(packet: seq<nat>) { |packet| >= HEADER && |packet| == HEADER + DataLength(packet) }

  /** The stream starts with a whole packet. */
  predicate Whole(s: seq<nat>) { |s| >= HEADER && |s| >= HEADER + DataLength(s) }

  /** The whole packets at the front of a stream. */
  function Packets(s: seq<nat>): seq<seq<nat>> {
    if !Whole(s) then [] else [s[..HEADER + DataLength(s)]] + Packets(s[HEADER + DataLength(s)..])
  }

  /** What is left after them. */
  function Rest(s: seq<nat>): seq<nat> {
    if !Whole(s) then s else Rest(s[HEADER + DataLength(s)..])
  }

  lemma WholeMore(s: seq<nat>, t: seq<nat>)
    requires Whole(s)
    ensures Whole(s + t) && DataLength(s + t) == DataLength(s)
    ensures var n := HEADER + DataLength(s); n <= |s| && (s + t)[..n] == s[..n] && (s + t)[n..] == s[n..] + t
  {}

  lemma SplitStep(s: seq<nat>)
    requires Whole(s)
    ensures var n := HEADER + DataLength(s);
            0 < n <= |s| && Packets(s) == [s[..n]] + Packets(s[n..]) && Rest(s) == Rest(s[n..])
  {}

  /** Splitting can be done piece by piece. */
  lemma {:induction false} SplitAppend(s: seq<nat>, t: seq<nat>)
    ensures Packets(s + t) == Packets(s) + Packets(Rest(s) + t)
    ensures Rest(s + t) == Rest(Rest(s) + t)
    decreases |s|
  {
    hide *;
    if Whole(s) {
      var n := HEADER + DataLength(s);
      SplitStep(s);
      WholeMore(s, t);
      SplitStep(s + t);
      SplitAppend(s[n..], t);
      var p, q := Packets(s[n..]), Packets(Rest(s[n..]) + t);
      assert [s[..n]] + (p + q) == [s[..n]] + p + q;
    } else {
      NotWhole(s);
      assert [] + Packets(s + t) == Packets(s + t);
    }
  }

  lemma {:induction false} RestIsIncomplete(s: seq<nat>)
    ensures !Whole(Rest(s))
    decreases |s|
  {
    if Whole(s) { RestIsIncomplete(s[HEADER + DataLength(s)..]); }
  }

  lemma OnePacket(p: seq<nat>)
    requires WellFormed(p)
    ensures Packets(p) == [p] && Rest(p) == []
  {
    assert p[..|p|] == p && p[|p|..] == [];
  }

  /** The packets of a stream are found again. */
  lemma {:induction false} PacketsOfStream(packets: seq<seq<nat>>)
    requires forall i :: 0 <= i < |packets| ==> WellFormed(packets[i])
    ensures Packets(Stream(packets)) == packets && Rest(Stream(packets)) == []
  {
    if packets != [] {
      PacketsOfStream(Front(packets));
      SplitAppend(Stream(Front(packets)), Last(packets));
      assert [] + Last(packets) == Last(packets);
      OnePacket(Last(packets));
      FrontLast(packets);
    }
  }

  lemma ShortPrefix(p: seq<nat>, n: nat)
    requires WellFormed(p) && n < |p|
    ensures !Whole(p[..n])
  {}

  /** A stream that breaks off after n bytes: whole packets and the beginning of one. */
  lemma BrokenOff(packets: seq<seq<nat>>, n: nat, j: nat) returns (tail: seq<nat>)
    requires forall i :: 0 <= i < |packets| ==> WellFormed(packets[i])
    requires j <= |packets| && Boundary(packets, j) <= n <= |Stream(packets)|
    requires j < |packets| ==> n < Boundary(packets, j + 1)
    ensures Stream(packets)[..n] == Stream(packets[..j]) + tail && !Whole(tail)
  {
    hide Stream, Whole, WellFormed;
    var s, head := Stream(packets), Stream(packets[..j]);
    StreamPrefix(packets, j);
    tail := s[|head|..n];
    if j < |packets| {
      StreamPrefix(packets, j + 1);
      StreamNext(packets, j);
      var p := packets[j];
      assert s[..|head| + |p|] == head + p;
      assert tail == p[..n - |head|];
      ShortPrefix(p, n - |head|);
    } else {
      assert packets[..j] == packets;
      assert tail == [];
      assert !Whole([]) by { EmptyIsNotWhole(); }
    }
  }

  lemma EmptyIsNotWhole()
    ensures !Whole([])
  {}

  lemma StreamNext(packets: seq<seq<nat>>, j: nat)
    requires j < |packets|
    ensures Stream(packets[..j + 1]) == Stream(packets[..j]) + packets[j]
  {
    FrontOfPrefix(packets, j);
  }

  /** From a stream that breaks off after n bytes exactly the packets come back that end within n bytes. */
  lemma PacketsOfPrefix(packets: seq<seq<nat>>, n: nat, j: nat)
    requires forall i :: 0 <= i < |packets| ==> WellFormed(packets[i])
    requires j <= |packets| && Boundary(packets, j) <= n <= |Stream(packets)|
    requires j < |packets| ==> n < Boundary(packets, j + 1)
    ensures Packets(Stream(packets)[..n]) == packets[..j]
  {
    hide Packets, Rest, Stream, Whole, WellFormed;
    var tail := BrokenOff(packets, n, j);
    PacketsOfStream(packets[..j]);
    SplitAppend(Stream(packets[..j]), tail);
    assert [] + tail == tail;
    NotWhole(tail);
    assert packets[..j] + [] == packets[..j];
  }

  lemma NotWhole(s: seq<nat>)
    requires !Whole(s)
    ensures Packets(s) == [] && Rest(s) == s
  {}

  lemma {:induction false} StreamPrefix(packets: seq<seq<nat>>, j: nat)
    requires j <= |packets|
    ensures |Stream(packets[..j])| <= |Stream(packets)|
    ensures Stream(packets)[..|Stream(packets[..j])|] == Stream(packets[..j])
    decreases |packets|
  {
    if j == |packets| {
      assert packets[..j] == packets;
    } else {
      StreamPrefix(Front(packets), j);
      assert Front(packets)[..j] == packets[..j];
    }
  }
}
