/** Segmentation of space packets into telemetry transfer frames, and their reconstruction. */
module TmFrames {
  import opened Options
  import opened Sequences
  import opened TmTheory

  /** The primary header of a transfer frame. */
  datatype FrameHeader = FrameHeader(version: nat, spacecraftId: nat, virtualChannelId: nat, ocfFlag: nat,
                                     masterCount: nat, virtualCount: nat, secondaryFlag: nat, synchFlag: nat,
                                     orderFlag: nat, segmentLengthId: nat, firstHeaderPointer: nat)

  predicate Buildable(h: FrameHeader) {
    && h.version < 4 && h.spacecraftId < 1024 && h.virtualChannelId < 8 && h.ocfFlag < 2
    && h.masterCount < 256 && h.virtualCount < 256 && h.secondaryFlag < 2 && h.synchFlag < 2 && h.orderFlag < 2
    && h.segmentLengthId < 4 && h.firstHeaderPointer < MAX_POINTERS
  }

  /** The 48 bits of the header in six bytes. */
  function Build(h: FrameHeader): (b: seq<nat>)
    ensures |b| == HEADER
  {
    var id := ((h.version * 1024 + h.spacecraftId) * 8 + h.virtualChannelId) * 2 + h.ocfFlag;
    var field := (((h.secondaryFlag * 2 + h.synchFlag) * 2 + h.orderFlag) * 4 + h.segmentLengthId) * 2048 + h.firstHeaderPointer;
    [id / 256, id % 256, h.masterCount, h.virtualCount, field / 256, field % 256]
  }

  function OcfFlag(frame: seq<nat>): nat
    requires |frame| >= HEADER
  {
    frame[1] % 2
  }

  function HeaderPointer(frame: seq<nat>): nat
    requires |frame| >= HEADER
  {
    frame[4] % 8 * 256 + frame[5]
  }

  /** Every field is read back from its own bits. */
  lemma BuiltHeader(h: FrameHeader, rest: seq<nat>)
    requires Buildable(h)
    ensures OcfFlag(Build(h) + rest) == h.ocfFlag && HeaderPointer(Build(h) + rest) == h.firstHeaderPointer
    ensures forall i :: 0 <= i < HEADER ==> Build(h)[i] < 256
    ensures var b := Build(h);
            && b[0] / 64 == h.version && b[0] % 64 * 16 + b[1] / 16 == h.spacecraftId && b[1] / 2 % 8 == h.virtualChannelId
            && b[1] % 2 == h.ocfFlag && b[2] == h.masterCount && b[3] == h.virtualCount
            && b[4] / 128 == h.secondaryFlag && b[4] / 64 % 2 == h.synchFlag && b[4] / 32 % 2 == h.orderFlag
            && b[4] / 8 % 4 == h.segmentLengthId && b[4] % 8 * 256 + b[5] == h.firstHeaderPointer
  {
    var top := (h.version * 1024 + h.spacecraftId) * 8 + h.virtualChannelId;
    var high := ((h.secondaryFlag * 2 + h.synchFlag) * 2 + h.orderFlag) * 4 + h.segmentLengthId;
    assert top < 32768 && high < 32;
    FlagOfIdentifier(top, h.ocfFlag);
    PointerOfField(high, h.firstHeaderPointer);
    IdentifierFields(h.version, h.spacecraftId, h.virtualChannelId, h.ocfFlag);
    StatusFields(h.secondaryFlag, h.synchFlag, h.orderFlag, h.segmentLengthId, h.firstHeaderPointer);
  }

  lemma IdentifierFields(version: nat, spacecraft: nat, channel: nat, flag: nat)
    requires version < 4 && spacecraft < 1024 && channel < 8 && flag < 2
    ensures var id := ((version * 1024 + spacecraft) * 8 + channel) * 2 + flag;
            && id / 256 / 64 == version && id / 256 % 64 * 16 + id % 256 / 16 == spacecraft
            && id % 256 / 2 % 8 == channel && id % 256 % 2 == flag
  {
    var id, sh, sl := ((version * 1024 + spacecraft) * 8 + channel) * 2 + flag, spacecraft / 16, spacecraft % 16;
    assert id == 256 * (64 * version + sh) + (16 * sl + 2 * channel + flag);
    assert id / 256 == 64 * version + sh && id % 256 == 16 * sl + 2 * channel + flag;
    assert (16 * sl + 2 * channel + flag) / 2 == 8 * sl + channel;
  }

  lemma StatusFields(secondary: nat, synch: nat, order: nat, segment: nat, pointer: nat)
    requires secondary < 2 && synch < 2 && order < 2 && segment < 4 && pointer < 2048
    ensures var field := (((secondary * 2 + synch) * 2 + order) * 4 + segment) * 2048 + pointer;
            && field / 256 / 128 == secondary && field / 256 / 64 % 2 == synch && field / 256 / 32 % 2 == order
            && field / 256 / 8 % 4 == segment && field / 256 % 8 * 256 + field % 256 == pointer
  {
    var field, ph, pl := (((secondary * 2 + synch) * 2 + order) * 4 + segment) * 2048 + pointer, pointer / 256, pointer % 256;
    var b := 128 * secondary + 64 * synch + 32 * order + 8 * segment + ph;
    assert field == 256 * b + pl && ph < 8;
    Upper(field, b, pl);
    StatusByte(secondary, synch, order, segment, ph);
  }

  lemma Upper(field: nat, b: nat, pl: nat)
    requires field == 256 * b + pl && pl < 256
    ensures field / 256 == b && field % 256 == pl
  {}

  lemma StatusByte(secondary: nat, synch: nat, order: nat, segment: nat, top: nat)
    requires secondary < 2 && synch < 2 && order < 2 && segment < 4 && top < 8
    ensures var b := 128 * secondary + 64 * synch + 32 * order + 8 * segment + top;
            b / 128 == secondary && b / 64 % 2 == synch && b / 32 % 2 == order && b / 8 % 4 == segment && b % 8 == top
  {
    var b := 128 * secondary + 64 * synch + 32 * order + 8 * segment + top;
    assert b / 8 == 16 * secondary + 8 * synch + 4 * order + segment;
    assert b / 32 == 4 * secondary + 2 * synch + order;
    assert b / 64 == 2 * secondary + synch;
  }

  lemma FlagOfIdentifier(top: nat, flag: nat)
    requires top < 32768 && flag < 2
    ensures var id := top * 2 + flag; id % 256 % 2 == flag && id / 256 < 256 && id % 256 < 256
  {
    EvenPart(top * 2 + flag, flag);
  }

  lemma PointerOfField(high: nat, pointer: nat)
    requires high < 32 && pointer < MAX_POINTERS
    ensures var field := high * 2048 + pointer;
            field / 256 % 8 * 256 + field % 256 == pointer && field / 256 < 256 && field % 256 < 256
  {
    var field, p := high * 2048 + pointer, pointer / 256;
    assert field / 256 == high * 8 + p && field % 256 == pointer % 256;
    assert (high * 8 + p) % 8 == p;
  }

  lemma EvenPart(id: nat, flag: nat)
    requires flag < 2 && id % 2 == flag
    ensures id % 256 % 2 == flag
  {
    assert id == id / 256 * 256 + id % 256;
  }

  /** Frame k of the packets. */
  function FrameAt(h: FrameHeader, packets: seq<seq<nat>>, k: nat, size: nat): seq<nat>
    requires (k + 1) * size <= |Stream(packets)|
  {
    Slices(k, size);
    Build(h.(firstHeaderPointer := Pointer(packets, k * size, size))) + Stream(packets)[k * size..(k + 1) * size]
  }

  lemma Slices(k: nat, size: nat)
    ensures k * size <= (k + 1) * size == k * size + size
  {}

  /** Where frame k begins in the stream. */
  function Beginning(k: nat, size: nat): nat { k * size }

  class PrimaryHeaderAdder {
    const header: FrameHeader
    const size: nat
    var list: seq<nat>
    var firstHeaderPointer: nat
    /** The packets handled and the number of frames sent. */
    ghost var packets: seq<seq<nat>>
    ghost var frames: nat

    ghost predicate Valid()
      reads this
    {
      var a := Beginning(frames, size);
      && 1 <= size && |list| < size && a + |list| == |Stream(packets)|
      && list == Stream(packets)[a..] && firstHeaderPointer == Pointer(packets, a, size)
      && BuildableTo(header, packets, frames, size)
    }

    constructor (header: FrameHeader, size: nat)
      requires 1 <= size
      ensures Valid() && this.header == header && this.size == size && packets == [] && frames == 0
    {
      this.header, this.size := header, size;
      list, firstHeaderPointer, packets, frames := [], 0, [], 0;
    }

    /** The loop over a packet: the list and what is left of the packet continue the stream behind the frames sent. */
    ghost predicate Filling(rest: seq<nat>, before: seq<seq<nat>>)
      reads this
    {
      var a := Beginning(frames, size);
      && 1 <= size && |list| < size && packets != [] && before == Front(packets)
      && |Stream(before)| <= a + |list| && a + |list| + |rest| == |Stream(packets)|
      && list + rest == Stream(packets)[a..] && firstHeaderPointer == Pointer(packets, a, size)
      && BuildableTo(header, packets, frames, size)
    }

    /** The frame that is full has a header that cannot be built: the exception leaves the handler, and the rest of the
        packet is lost. */
    ghost predicate Stuck()
      reads this
    {
      && |list| == size && (frames + 1) * size <= |Stream(packets)|
      && !HeaderFits(header, packets, frames, size) && BuildableTo(header, packets, frames, size)
    }

    /** One round of the loop: at least one byte is consumed, and a frame that has become full is sent unless its header
        cannot be built. */
    method Fill(packet: seq<nat>, ghost before: seq<seq<nat>>) returns (ok: bool, rest: seq<nat>, sent: seq<seq<nat>>)
      requires packet != [] && Filling(packet, before)
      modifies this`list, this`firstHeaderPointer, this`frames
      ensures !ok ==> Stuck() && sent == [] && frames == old(frames)
      ensures ok ==> |rest| < |packet| && Filling(rest, before) && frames == old(frames) + |sent| <= old(frames) + 1
      ensures sent != [] ==> IsFrame(header, packets, old(frames), size, sent[0])
    {
      hide Stream, Pointer, Build, Buildable, IsFrame, BuildableTo, HeaderFits;
      var limit := size - |list|;
      var nextPointer := 0;
      if |packet| > limit {
        if |packet| >= limit + size {
          nextPointer := NO_START;
        } else {
          nextPointer := |packet| - limit;
        }
      } else if |packet| == limit {
        nextPointer := 0;
      }
      ghost var all := list + packet;
      var part := if limit < |packet| then packet[..limit] else packet;
      list := list + part;
      rest := packet[|part|..];
      assert list + rest == all;
      sent := [];
      if |list| == size {
        Slices(frames, size);
        HeaderOfFrame(header, packets, frames, size);
        if !Buildable(header.(firstHeaderPointer := firstHeaderPointer)) {
          ok := false;
          return;
        }
        FrameComplete(header, packets, frames, size, list, rest);
        sent := [Build(header.(firstHeaderPointer := firstHeaderPointer)) + list];
        FrontLast(packets);
        NextPointer(before, Last(packets), frames, size, |rest|);
        OneMoreFits(header, packets, frames, size);
        frames := frames + 1;
        list := [];
        firstHeaderPointer := nextPointer;
      }
      ok := true;
    }

    /** handle_msg: the packet joins the stream, and every frame that is full is sent, with its pointer, up to a frame
        whose header cannot be built. There is such a frame exactly if building fails. */
    method HandleMsg(packet: seq<nat>) returns (ok: bool, sent: seq<seq<nat>>)
      requires Valid()
      modifies this`list, this`firstHeaderPointer, this`packets, this`frames
      ensures packets == old(packets) + [packet] && frames == old(frames) + |sent|
      ensures frames * size <= |Stream(packets)|
      ensures AllFrames(header, packets, old(frames), size, sent)
      ensures ok <==> AllHeadersFit(header, packets, size)
      ensures ok ==> Valid()
      ensures !ok ==> Stuck()
    {
      hide *;
      ghost var before := packets;
      Join(packet);
      sent := [];
      var rest := packet;
      NoFrames(header, packets, frames, size);
      while |rest| > 0
        invariant packets == before + [packet] && frames == old(frames) + |sent| && Filling(rest, before)
        invariant AllFrames(header, packets, old(frames), size, sent)
        decreases |rest|
      {
        ghost var k := frames;
        var more;
        ok, rest, more := Fill(rest, before);
        if !ok {
          OneDoesNotFit(this);
          return;
        }
        OneMoreFrame(header, packets, old(frames), size, sent, more);
        sent := sent + more;
      }
      Filled(this, rest, before);
      ok := true;
    }

    /** The packet joins the stream. */
    ghost method Join(packet: seq<nat>)
      requires Valid()
      modifies this`packets
      ensures packets == old(packets) + [packet] && Filling(packet, old(packets))
    {
      hide Stream, Pointer, HeaderFits, BuildableTo;
      ghost var s := Stream(packets);
      StreamGrows(packets, packet);
      PointerStays(packets, packet, frames * size, size);
      FrontOfAppend(packets, packet);
      FitsStay(header, packets, packet, frames, size);
      packets := packets + [packet];
      assert (s + packet)[frames * size..] == s[frames * size..] + packet;
    }
  }

  // ---------------------------------------------------------------- headers that can be built

  /** The header of frame k, with its pointer, can be built. */
  ghost predicate HeaderFits(h: FrameHeader, packets: seq<seq<nat>>, k: nat, size: nat) {
    Buildable(h.(firstHeaderPointer := Pointer(packets, k * size, size)))
  }

  ghost predicate BuildableTo(h: FrameHeader, packets: seq<seq<nat>>, n: nat, size: nat) {
    n * size <= |Stream(packets)| && forall k: nat :: k < n ==> HeaderFits(h, packets, k, size)
  }

  /** All whole frames have headers that can be built. */
  ghost predicate AllHeadersFit(h: FrameHeader, packets: seq<seq<nat>>, size: nat) {
    forall k: nat :: Complete(packets, k, size) ==> HeaderFits(h, packets, k, size)
  }

  ghost predicate Complete(packets: seq<seq<nat>>, k: nat, size: nat) { (k + 1) * size <= |Stream(packets)| }

  lemma HeaderOfFrame(h: FrameHeader, packets: seq<seq<nat>>, k: nat, size: nat)
    ensures HeaderFits(h, packets, k, size) <==> Buildable(h.(firstHeaderPointer := Pointer(packets, k * size, size)))
  {}

  lemma OneMoreFits(h: FrameHeader, packets: seq<seq<nat>>, k: nat, size: nat)
    requires BuildableTo(h, packets, k, size) && HeaderFits(h, packets, k, size) && (k + 1) * size <= |Stream(packets)|
    ensures BuildableTo(h, packets, k + 1, size)
  {
    hide HeaderFits, Stream;
  }

  lemma FitsStay(h: FrameHeader, packets: seq<seq<nat>>, packet: seq<nat>, n: nat, size: nat)
    requires BuildableTo(h, packets, n, size)
    ensures BuildableTo(h, packets + [packet], n, size)
  {
    hide Stream, Pointer, Buildable;
    StreamGrows(packets, packet);
    forall k: nat | k < n ensures HeaderFits(h, packets + [packet], k, size) {
      assert HeaderFits(h, packets, k, size);
      FrameBefore(k, n, size);
      PointerStays(packets, packet, k * size, size);
    }
  }

  lemma FrameBefore(k: nat, n: nat, size: nat)
    requires k < n
    ensures (k + 1) * size <= n * size && k * size <= n * size
  {
    assert n * size == (k + 1) * size + (n - k - 1) * size;
    assert (n - k - 1) * size >= 0 && (k + 1) * size == k * size + size;
  }

  lemma OneDoesNotFit(adder: PrimaryHeaderAdder)
    requires adder.Stuck()
    ensures !AllHeadersFit(adder.header, adder.packets, adder.size)
    ensures adder.frames * adder.size <= |Stream(adder.packets)|
  {
    hide Stream, HeaderFits;
    assert Complete(adder.packets, adder.frames, adder.size);
    Slices(adder.frames, adder.size);
  }

  /** A frame's header can be built if the fixed fields fit and its first packet start lies within 2048 bytes. */
  lemma HeaderFitsIff(h: FrameHeader, packets: seq<seq<nat>>, k: nat, size: nat)
    ensures HeaderFits(h, packets, k, size) <==> Buildable(h.(firstHeaderPointer := 0)) && Pointer(packets, k * size, size) < 2048
    ensures Buildable(h.(firstHeaderPointer := 0)) <==>
              && h.version < 4 && h.spacecraftId < 1024 && h.virtualChannelId < 8 && h.ocfFlag < 2
              && h.masterCount < 256 && h.virtualCount < 256 && h.secondaryFlag < 2 && h.synchFlag < 2 && h.orderFlag < 2
              && h.segmentLengthId < 4
  {
    hide Pointer;
  }

  /** Frames of at most 2048 bytes can always be built, and longer ones cannot: after a packet one frame and 2048 bytes
      long, the second frame's pointer does not fit eleven bits. */
  lemma HeadersFitUpTo2048(h: FrameHeader, size: nat)
    requires Buildable(h.(firstHeaderPointer := 0)) && size >= 1
    ensures (forall packets :: AllHeadersFit(h, packets, size)) <==> size <= 2048
  {
    hide Pointer, Buildable, Stream, HeaderFits;
    if size <= MAX_POINTERS {
      forall packets, k: nat | Complete(packets, k, size) ensures HeaderFits(h, packets, k, size) {
        PointerBound(packets, k * size, size);
        HeaderFitsIff(h, packets, k, size);
      }
    } else {
      var p, q := seq(size + MAX_POINTERS, _ => 0), seq(size, _ => 0);
      PointerTooLarge(size, p, q);
      assert Complete([p, q], 1, size);
      HeaderFitsIff(h, [p, q], 1, size);
      assert !AllHeadersFit(h, [p, q], size);
    }
  }

  /** Before the end of the stream lie only frames that have been sent. */
  lemma AllSentFit(h: FrameHeader, packets: seq<seq<nat>>, n: nat, size: nat)
    requires BuildableTo(h, packets, n, size) && |Stream(packets)| < n * size + size
    ensures AllHeadersFit(h, packets, size)
  {
    hide Stream, HeaderFits;
    forall k: nat | Complete(packets, k, size) ensures HeaderFits(h, packets, k, size) {
      if k >= n {
        FrameBefore(n, k + 1, size);
        Slices(n, size);
        assert false;
      }
    }
  }

  lemma Filled(adder: PrimaryHeaderAdder, rest: seq<nat>, before: seq<seq<nat>>)
    requires adder.Filling(rest, before) && |rest| == 0
    ensures adder.Valid() && adder.frames * adder.size <= |Stream(adder.packets)|
    ensures AllHeadersFit(adder.header, adder.packets, adder.size)
  {
    hide Stream, Pointer, BuildableTo, AllHeadersFit;
    assert adder.list + rest == adder.list;
    AllSentFit(adder.header, adder.packets, adder.frames, adder.size);
  }

  /** The frames sent are the frames from number k on. */
  ghost predicate AllFrames(h: FrameHeader, packets: seq<seq<nat>>, k: nat, size: nat, sent: seq<seq<nat>>) {
    forall i :: 0 <= i < |sent| ==> IsFrame(h, packets, k + i, size, sent[i])
  }

  lemma NoFrames(h: FrameHeader, packets: seq<seq<nat>>, k: nat, size: nat)
    ensures AllFrames(h, packets, k, size, [])
  {}

  lemma OneMoreFrame(h: FrameHeader, packets: seq<seq<nat>>, k: nat, size: nat, sent: seq<seq<nat>>, more: seq<seq<nat>>)
    requires AllFrames(h, packets, k, size, sent) && |more| <= 1
    requires more != [] ==> IsFrame(h, packets, k + |sent|, size, more[0])
    ensures AllFrames(h, packets, k, size, sent + more)
  {
    hide IsFrame;
  }

  /** The bytes are frame k of the packets. */
  ghost predicate IsFrame(h: FrameHeader, packets: seq<seq<nat>>, k: nat, size: nat, bytes: seq<nat>) {
    (k + 1) * size <= |Stream(packets)| && bytes == FrameAt(h, packets, k, size) && HeaderFits(h, packets, k, size)
  }

  lemma StreamGrows(packets: seq<seq<nat>>, packet: seq<nat>)
    ensures Stream(packets + [packet]) == Stream(packets) + packet
  {
    FrontOfAppend(packets, packet);
  }

  lemma PointerStays(packets: seq<seq<nat>>, packet: seq<nat>, a: nat, size: nat)
    requires a <= |Stream(packets)|
    ensures Pointer(packets + [packet], a, size) == Pointer(packets, a, size)
  {
    hide Stream;
    FirstFromStays(packets, packet, a);
  }

  lemma FrameComplete(h: FrameHeader, packets: seq<seq<nat>>, k: nat, size: nat, list: seq<nat>, rest: seq<nat>)
    requires |list| == size && k * size + size + |rest| == |Stream(packets)| && list + rest == Stream(packets)[k * size..]
    requires HeaderFits(h, packets, k, size)
    ensures IsFrame(h, packets, k, size, Build(h.(firstHeaderPointer := Pointer(packets, k * size, size))) + list)
  {
    hide Stream, Pointer, Build;
    Slices(k, size);
    var s := Stream(packets);
    assert s[k * size..(k + 1) * size] == s[k * size..][..size] == list;
  }

  /** The pointer of the next frame, computed from what is left of the packet. */
  lemma NextPointer(packets: seq<seq<nat>>, packet: seq<nat>, k: nat, size: nat, left: nat)
    requires size > 0 && (k + 1) * size + left == |Stream(packets + [packet])| && |Stream(packets)| < (k + 1) * size
    ensures Pointer(packets + [packet], (k + 1) * size, size) == if left >= size then NO_START else left
  {
    hide Stream;
    FirstFromEnd(packets, packet, (k + 1) * size);
  }

  /** Later packets do not change a frame that has been sent. */
  lemma FrameStays(h: FrameHeader, packets: seq<seq<nat>>, packet: seq<nat>, k: nat, size: nat, bytes: seq<nat>)
    requires IsFrame(h, packets, k, size, bytes)
    ensures IsFrame(h, packets + [packet], k, size, bytes)
  {
    hide Stream, Pointer, Build;
    Slices(k, size);
    StreamGrows(packets, packet);
    PointerStays(packets, packet, k * size, size);
    var s := Stream(packets);
    assert (s + packet)[k * size..(k + 1) * size] == s[k * size..(k + 1) * size];
  }

  lemma FramesStay(h: FrameHeader, packets: seq<seq<nat>>, packet: seq<nat>, size: nat, sent: seq<seq<nat>>)
    requires AllFrames(h, packets, 0, size, sent)
    ensures AllFrames(h, packets + [packet], 0, size, sent)
  {
    hide IsFrame;
    forall i | 0 <= i < |sent| ensures IsFrame(h, packets + [packet], 0 + i, size, sent[i]) {
      assert IsFrame(h, packets, 0 + i, size, sent[i]);
      FrameStays(h, packets, packet, i, size, sent[i]);
    }
  }

  lemma FramesJoin(h: FrameHeader, packets: seq<seq<nat>>, size: nat, sent: seq<seq<nat>>, more: seq<seq<nat>>)
    requires AllFrames(h, packets, 0, size, sent) && AllFrames(h, packets, |sent|, size, more)
    ensures AllFrames(h, packets, 0, size, sent + more)
  {
    hide IsFrame;
    forall i | 0 <= i < |sent + more| ensures IsFrame(h, packets, 0 + i, size, (sent + more)[i]) {
      if i < |sent| {
        assert IsFrame(h, packets, 0 + i, size, sent[i]);
      } else {
        assert IsFrame(h, packets, |sent| + (i - |sent|), size, more[i - |sent|]);
      }
    }
  }

  /** Slicing as Python does it: past the end is the end. */
  function Take(s: seq<nat>, n: nat): (t: seq<nat>)
    ensures |t| <= |s| && |t| <= n && (n > 0 && s != [] ==> t != [])
  {
    if n < |s| then s[..n] else s
  }

  /** The payload of a frame: without header and, if flagged, without the four bytes of the operational control field. */
  predicate Decodable(frame: seq<nat>) {
    |frame| >= HEADER && (OcfFlag(frame) == 1 ==> |frame| >= HEADER + 4)
  }

  function Payload(frame: seq<nat>): seq<nat>
    requires Decodable(frame)
  {
    if OcfFlag(frame) == 1 then frame[HEADER..|frame| - 4] else frame[HEADER..]
  }

  lemma PayloadIs(frame: seq<nat>)
    ensures Decodable(frame) <==> |frame| >= 6 && (frame[1] % 2 == 0 || |frame| >= 10)
    ensures Decodable(frame) ==> Payload(frame) == if frame[1] % 2 == 0 then frame[6..] else frame[6..|frame| - 4]
  {}

  class PacketReconstruction {
    var spacePacket: seq<nat>
    var lengthOfSpacePacket: nat
    /** The payload bytes of all frames so far. */
    ghost var stream: seq<nat>

    ghost predicate Valid()
      reads this
    {
      spacePacket == Rest(stream)
    }

    constructor ()
      ensures Valid() && stream == []
    {
      spacePacket, lengthOfSpacePacket, stream := [], 0, [];
    }

    /** One round of the loop: the header is completed, then the packet; at least one byte is consumed. */
    method Absorb(payload: seq<nat>) returns (rest: seq<nat>, published: seq<seq<nat>>)
      requires payload != [] && !Whole(spacePacket)
      modifies this`spacePacket, this`lengthOfSpacePacket
      ensures |rest| < |payload| && !Whole(spacePacket)
      ensures Packets(old(spacePacket) + payload) == published + Packets(spacePacket + rest)
      ensures Rest(old(spacePacket) + payload) == Rest(spacePacket + rest)
    {
      hide Packets, Rest;
      ghost var all := spacePacket + payload;
      published, rest := [], payload;
      if |spacePacket| < HEADER {
        var part := Take(rest, HEADER - |spacePacket|);
        spacePacket := spacePacket + part;
        rest := rest[|part|..];
      }
      assert spacePacket + rest == all;
      assert [] + Packets(all) == Packets(all);
      if |spacePacket| >= HEADER {
        lengthOfSpacePacket := DataLength(spacePacket);
        var part := Take(rest, lengthOfSpacePacket + HEADER - |spacePacket|);
        spacePacket := spacePacket + part;
        rest := rest[|part|..];
        assert spacePacket + rest == all;
        if HEADER + lengthOfSpacePacket == |spacePacket| {
          TakeOff(spacePacket, rest);
          published := [spacePacket];
          lengthOfSpacePacket, spacePacket := 0, [];
          assert [] + rest == rest;
        }
      }
    }

    /** handle_msg: a frame without a whole header changes nothing, and one whose flag promises an operational control
        field that is not there makes parsing fail outside the part that is guarded; otherwise the payload joins the stream
        and the packets completed by it are published. */
    method HandleMsg(frame: seq<nat>) returns (ok: bool, published: seq<seq<nat>>)
      requires Valid()
      modifies this
      ensures Valid()
      ensures ok <==> |frame| < HEADER || Decodable(frame)
      ensures Decodable(frame) ==> stream == old(stream) + Payload(frame) && Packets(stream) == Packets(old(stream)) + published
      ensures !Decodable(frame) ==> stream == old(stream) && published == []
      ensures ok <==> |frame| < 6 || frame[1] % 2 == 0 || |frame| >= 10
      ensures stream == old(stream) + if |frame| < 6 then [] else if frame[1] % 2 == 0 then frame[6..]
                                      else if |frame| < 10 then [] else frame[6..|frame| - 4]
    {
      hide Packets, Rest, Payload, Whole;
      PayloadIs(frame);
      published := [];
      if |frame| < HEADER {
        return true, [];
      }
      if OcfFlag(frame) == 1 && |frame| < HEADER + 4 {
        return false, [];
      }
      ok := true;
      var payload := Payload(frame);
      ghost var all := spacePacket + payload;
      SplitAppend(stream, payload);
      RestIsIncomplete(stream);
      while |payload| != 0
        invariant stream == old(stream) && !Whole(spacePacket)
        invariant Packets(all) == published + Packets(spacePacket + payload) && Rest(all) == Rest(spacePacket + payload)
        decreases |payload|
      {
        var more;
        payload, more := Absorb(payload);
        published := published + more;
      }
      assert spacePacket + [] == spacePacket;
      NotWhole(spacePacket);
      stream := stream + Payload(frame);
    }
  }

  lemma TakeOff(p: seq<nat>, rest: seq<nat>)
    requires WellFormed(p)
    ensures Packets(p + rest) == [p] + Packets(rest) && Rest(p + rest) == Rest(rest)
  {
    OnePacket(p);
    SplitAppend(p, rest);
    assert [] + rest == rest;
  }

  // ---------------------------------------------------------------- from end to end

  /** The payload of a frame without operational control field is its slice of the stream. */
  lemma PayloadOfFrame(h: FrameHeader, packets: seq<seq<nat>>, k: nat, size: nat, bytes: seq<nat>)
    requires IsFrame(h, packets, k, size, bytes) && h.ocfFlag == 0 && 0 < size
    ensures k * size <= (k + 1) * size <= |Stream(packets)|
    ensures Decodable(bytes) && Payload(bytes) == Stream(packets)[k * size..(k + 1) * size]
    ensures |bytes| >= HEADER && HeaderPointer(bytes) == Pointer(packets, k * size, size)
  {
    hide Stream, Build;
    Slices(k, size);
    var p := Pointer(packets, k * size, size);
    var g := h.(firstHeaderPointer := p);
    BuiltHeader(g, Stream(packets)[k * size..(k + 1) * size]);
  }

  /** Packets through segmentation and reconstruction, up to the first frame whose header cannot be built, if there is
      one. Published are, in order and unchanged, exactly the packets whose last byte lies in a frame that was sent; if all
      headers can be built fewer bytes than one frame are still to come. */
  method Relay(header: FrameHeader, size: nat, packets: seq<seq<nat>>)
    returns (ok: bool, published: seq<seq<nat>>, sent: seq<seq<nat>>, ghost j: nat)
    requires header.ocfFlag == 0 && 1 <= size
    requires forall i :: 0 <= i < |packets| ==> WellFormed(packets[i])
    ensures ok <==> AllHeadersFit(header, packets, size)
    ensures Beginning(|sent|, size) <= |Stream(packets)| && (ok ==> !Complete(packets, |sent|, size))
    ensures !ok ==> Complete(packets, |sent|, size) && !HeaderFits(header, packets, |sent|, size)
    ensures AllFrames(header, packets, 0, size, sent)
    ensures j <= |packets| && EndsWithin(packets, j, Beginning(|sent|, size)) && published == packets[..j]
  {
    hide *;
    var adder := new PrimaryHeaderAdder(header, size);
    var receiver := new PacketReconstruction();
    published, sent := [], [];
    assert packets[..0] == [];
    NothingReceived();
    NoFrames(header, packets[..0], 0, size);
    StartOfAdder(adder);
    ok := true;
    var i := 0;
    while i < |packets| && ok
      invariant 0 <= i <= |packets| && receiver.Valid() && fresh(adder) && fresh(receiver)
      invariant if ok then adder.Valid() else adder.Stuck()
      invariant adder.header == header && adder.size == size && adder.packets == packets[..i] && adder.frames == |sent|
      invariant |sent| * size <= |Stream(packets[..i])| && receiver.stream == Stream(packets[..i])[..|sent| * size]
      invariant AllFrames(header, packets[..i], 0, size, sent)
      invariant published == Packets(receiver.stream)
      decreases |packets| - i
    {
      assert packets[..i + 1] == packets[..i] + [packets[i]];
      FramesStay(header, packets[..i], packets[i], size, sent);
      StreamPrefixOf(packets, i, |sent| * size);
      var frames;
      ok, frames := adder.HandleMsg(packets[i]);
      var more := Receive(receiver, header, size, packets[..i + 1], frames, |sent|);
      FramesJoin(header, packets[..i + 1], size, sent, frames);
      sent := sent + frames;
      published := published + more;
      i := i + 1;
    }
    assert packets[..|packets|] == packets;
    if ok { EndOfAdder(adder); } else { EndWithFailure(adder, packets, i); }
    FramesInAll(header, packets, i, size, sent);
    PrefixInAll(packets, i, |sent| * size);
    j := LastWithin(packets, |sent| * size);
    EndsParts(packets, j, |sent| * size);
    PacketsOfPrefix(packets, |sent| * size, j);
    BeginningIs(packets, |sent|, size);
  }

  lemma BeginningIs(packets: seq<seq<nat>>, k: nat, size: nat)
    ensures Beginning(k, size) == k * size
    ensures Complete(packets, k, size) <==> k * size + size <= |Stream(packets)|
  {
    hide Stream;
    Slices(k, size);
  }

  lemma StartOfAdder(adder: PrimaryHeaderAdder)
    requires adder.Valid() && adder.frames == 0
    ensures 0 * adder.size == 0
  {}

  lemma EndOfAdder(adder: PrimaryHeaderAdder)
    requires adder.Valid()
    ensures AllHeadersFit(adder.header, adder.packets, adder.size)
    ensures |Stream(adder.packets)| < adder.frames * adder.size + adder.size
  {
    hide Stream, Pointer, BuildableTo, AllHeadersFit;
    AllSentFit(adder.header, adder.packets, adder.frames, adder.size);
  }

  /** A frame that could not be built from the first packets cannot be built from all of them. */
  lemma EndWithFailure(adder: PrimaryHeaderAdder, packets: seq<seq<nat>>, i: nat)
    requires adder.Stuck() && i <= |packets| && adder.packets == packets[..i]
    ensures Complete(packets, adder.frames, adder.size)
    ensures !HeaderFits(adder.header, packets, adder.frames, adder.size)
    ensures !AllHeadersFit(adder.header, packets, adder.size)
  {
    hide Stream, Pointer, Buildable, BuildableTo;
    var n, size := adder.frames, adder.size;
    Slices(n, size);
    StreamPrefix(packets, i);
    PointerInAll(packets, i, n * size, size);
    assert Complete(packets, n, size);
  }

  /** Later packets do not change a pointer. */
  lemma {:induction false} PointerInAll(packets: seq<seq<nat>>, i: nat, a: nat, size: nat)
    requires i <= |packets| && a <= |Stream(packets[..i])|
    ensures Pointer(packets, a, size) == Pointer(packets[..i], a, size)
    decreases |packets|
  {
    hide Stream, Pointer;
    if i == |packets| {
      assert packets[..i] == packets;
    } else {
      var f := Front(packets);
      assert f[..i] == packets[..i];
      PointerInAll(f, i, a, size);
      StreamPrefix(f, i);
      FrontLast(packets);
      PointerStays(f, Last(packets), a, size);
    }
  }

  lemma {:induction false} FramesInAll(h: FrameHeader, packets: seq<seq<nat>>, i: nat, size: nat, sent: seq<seq<nat>>)
    requires i <= |packets| && AllFrames(h, packets[..i], 0, size, sent)
    ensures AllFrames(h, packets, 0, size, sent)
    decreases |packets|
  {
    hide AllFrames;
    if i == |packets| {
      assert packets[..i] == packets;
    } else {
      var f := Front(packets);
      assert f[..i] == packets[..i];
      FramesInAll(h, f, i, size, sent);
      FrontLast(packets);
      FramesStay(h, f, Last(packets), size, sent);
    }
  }

  lemma PrefixInAll(packets: seq<seq<nat>>, i: nat, n: nat)
    requires i <= |packets| && n <= |Stream(packets[..i])|
    ensures n <= |Stream(packets)| && Stream(packets)[..n] == Stream(packets[..i])[..n]
  {
    hide Stream;
    StreamPrefix(packets, i);
    var s, t := Stream(packets), Stream(packets[..i]);
    assert s[..|t|][..n] == s[..n];
  }

  lemma EndsParts(packets: seq<seq<nat>>, j: nat, n: nat)
    requires j <= |packets| && EndsWithin(packets, j, n)
    ensures Boundary(packets, j) <= n && (j < |packets| ==> n < Boundary(packets, j + 1))
  {}

  /** The first j packets end within n bytes, and no more. */
  ghost predicate EndsWithin(packets: seq<seq<nat>>, j: nat, n: nat)
    requires j <= |packets|
  {
    Boundary(packets, j) <= n && (j < |packets| ==> n < Boundary(packets, j + 1))
  }

  lemma LastWithin(packets: seq<seq<nat>>, n: nat) returns (j: nat)
    ensures j <= |packets| && EndsWithin(packets, j, n)
  {
    j := 0;
    assert packets[..0] == [];
    while j < |packets| && Boundary(packets, j + 1) <= n
      invariant j <= |packets| && Boundary(packets, j) <= n
    {
      j := j + 1;
    }
  }

  lemma NothingReceived()
    ensures Stream([]) == [] && Packets([]) == []
  {}

  lemma StreamPrefixOf(packets: seq<seq<nat>>, i: nat, n: nat)
    requires i < |packets| && n <= |Stream(packets[..i])|
    ensures n <= |Stream(packets[..i + 1])| && Stream(packets[..i + 1])[..n] == Stream(packets[..i])[..n]
  {
    StreamNext(packets, i);
  }

  /** Consecutive frames through the receiver. */
  method Receive(receiver: PacketReconstruction, header: FrameHeader, size: nat, ghost packets: seq<seq<nat>>,
                 frames: seq<seq<nat>>, ghost from: nat) returns (published: seq<seq<nat>>)
    requires receiver.Valid() && header.ocfFlag == 0 && 1 <= size
    requires from * size <= |Stream(packets)| && receiver.stream == Stream(packets)[..from * size]
    requires AllFrames(header, packets, from, size, frames)
    modifies receiver
    ensures receiver.Valid() && (from + |frames|) * size <= |Stream(packets)|
    ensures receiver.stream == Stream(packets)[..(from + |frames|) * size]
    ensures Packets(receiver.stream) == Packets(old(receiver.stream)) + published
  {
    hide Stream, Pointer, Build, Packets, Rest, Payload, Decodable, IsFrame;
    published := [];
    for k := 0 to |frames|
      invariant receiver.Valid() && (from + k) * size <= |Stream(packets)|
      invariant receiver.stream == Stream(packets)[..(from + k) * size]
      invariant Packets(receiver.stream) == Packets(old(receiver.stream)) + published
    {
      PayloadOfFrame(header, packets, from + k, size, frames[k]);
      ghost var s := Stream(packets);
      assert s[..(from + k) * size] + s[(from + k) * size..(from + k + 1) * size] == s[..(from + k + 1) * size];
      var ok, more := receiver.HandleMsg(frames[k]);
      published := published + more;
    }
  }

  // ---------------------------------------------------------------- space packets

  lemma PacketFields(packetType: nat, flag: nat, apId: nat, name: nat)
    requires packetType < 2 && flag < 2 && apId < 2048 && name < 16384
    ensures var id, sequence := (packetType * 2 + flag) * 2048 + apId, 3 * 16384 + name;
            && id / 256 < 32 && id / 256 / 16 % 2 == packetType && id / 256 / 8 % 2 == flag && id / 256 % 8 * 256 + id % 256 == apId
            && sequence / 256 < 256 && sequence / 256 / 64 == 3 && sequence / 256 % 64 * 256 + sequence % 256 == name
  {
    var id, sequence, ah, nh := (packetType * 2 + flag) * 2048 + apId, 3 * 16384 + name, apId / 256, name / 256;
    assert id / 256 == 16 * packetType + 8 * flag + ah && id % 256 == apId % 256;
    assert sequence / 256 == 192 + nh && sequence % 256 == name % 256;
  }

  /** space_packet_primaryheader_adder. */
  class SpacePacketAdder {
    const packetType: nat
    const secondaryHeaderFlag: nat
    const apId: nat
    const countOrName: nat
    const packetSequenceName: nat
    var packetSequenceCount: nat
    var dataLength: nat

    ghost predicate Valid() {
      packetType < 2 && secondaryHeaderFlag < 2 && apId < 2048 && countOrName < 2 && packetSequenceName < 16384
    }

    constructor (packetType: nat, secondaryHeaderFlag: nat, apId: nat, countOrName: nat, packetSequenceName: nat)
      requires packetType < 2 && secondaryHeaderFlag < 2 && apId < 2048 && countOrName < 2 && packetSequenceName < 16384
      ensures Valid() && packetSequenceCount == 0
      ensures this.packetType == packetType && this.countOrName == countOrName
    {
      this.packetType, this.secondaryHeaderFlag, this.apId := packetType, secondaryHeaderFlag, apId;
      this.countOrName, this.packetSequenceName := countOrName, packetSequenceName;
      packetSequenceCount, dataLength := 0, 0;
    }

    /** handle_msg: the length field holds the whole payload length, which is what reconstruction relies on. A length or
        a count that does not fit its field makes building the header fail; the count has then already advanced. */
    method HandleMsg(payload: seq<nat>) returns (r: Option<seq<nat>>)
      requires Valid()
      modifies this`packetSequenceCount, this`dataLength
      ensures packetSequenceCount == old(packetSequenceCount) + 1 && dataLength == |payload|
      ensures r.Some? <==> |payload| < 65536 && (packetType == 0 || countOrName == 0 ==> packetSequenceCount < 16384)
      ensures r.Some? ==> WellFormed(r.value) && r.value[6..] == payload
      ensures r.Some? ==> var b := r.value;
                          && (forall i :: 0 <= i < 6 ==> b[i] < 256)
                          && b[0] / 32 == 0 && b[0] / 16 % 2 == packetType && b[0] / 8 % 2 == secondaryHeaderFlag
                          && b[0] % 8 * 256 + b[1] == apId && b[2] / 64 == 3
                          && b[2] % 64 * 256 + b[3] == (if packetType == 1 && countOrName == 1 then packetSequenceName
                                                        else packetSequenceCount)
                          && b[4] * 256 + b[5] == |payload|
    {
      dataLength := |payload|;
      packetSequenceCount := packetSequenceCount + 1;
      var name := if packetType == 0 || countOrName == 0 then packetSequenceCount else packetSequenceName;
      if dataLength >= 65536 || name >= 16384 {
        return None;
      }
      var id := (packetType * 2 + secondaryHeaderFlag) * 2048 + apId;
      var sequence := 3 * 16384 + name;
      var finalHeader := [id / 256, id % 256, sequence / 256, sequence % 256, dataLength / 256, dataLength % 256];
      assert dataLength / 256 * 256 + dataLength % 256 == dataLength;
      PacketFields(packetType, secondaryHeaderFlag, apId, name);
      r := Some(finalHeader + payload);
    }
  }
}
