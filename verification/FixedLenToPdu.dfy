/** The block that cuts tagged packets out of a stream. The last items of the stream are kept in a ring, so that a packet
    that began in an earlier call is complete when its last item arrives. */
module PacketExtraction {
  import opened Bits
  import opened Options
  import opened Sequences

  /** A syncword tag: the item it sits on, and the value of the packet length tag on the same item, if there is one. */
  datatype Tag = Tag(offset: nat, length: Option<int>)

  datatype PacketInfo = PacketInfo(offset: nat, length: nat)

  /** A length that does not fit is clamped. A negative one turns into a huge unsigned number first. */
  function InfoOf(tag: Tag, packetLen: nat): PacketInfo {
    PacketInfo(tag.offset, if tag.length.Some? && 0 <= tag.length.value <= packetLen then tag.length.value else packetLen)
  }

  function InfosOf(tags: seq<Tag>, packetLen: nat): (infos: seq<PacketInfo>)
    ensures |infos| == |tags|
  {
    seq(|tags|, i requires 0 <= i < |tags| => InfoOf(tags[i], packetLen))
  }

  /** The length tag decides if it is neither negative nor too large; without such a tag a packet is packetLen long. */
  ghost predicate AsTagged(info: PacketInfo, tag: Tag, packetLen: nat) {
    && info.offset == tag.offset
    && (forall l :: tag.length == Some(l) && 0 <= l <= packetLen ==> info.length == l)
    && (forall l :: tag.length == Some(l) && (l < 0 || l > packetLen) ==> info.length == packetLen)
    && (tag.length == None ==> info.length == packetLen)
  }

  lemma TagsDecide(tags: seq<Tag>, packetLen: nat)
    ensures forall i :: 0 <= i < |tags| ==> AsTagged(InfosOf(tags, packetLen)[i], tags[i], packetLen)
  {}

  /** The packets that end within the first n items, in order. */
  function Ready(infos: seq<PacketInfo>, n: nat): seq<PacketInfo> {
    if infos == [] then []
    else Ready(Front(infos), n) + if Last(infos).offset + Last(infos).length <= n then [Last(infos)] else []
  }

  function Waiting(infos: seq<PacketInfo>, n: nat): seq<PacketInfo> {
    if infos == [] then []
    else Waiting(Front(infos), n) + if Last(infos).offset + Last(infos).length <= n then [] else [Last(infos)]
  }

  // ---------------------------------------------------------------- what is published

  /** The first n of eight bits in one number, first bit on top. */
  function PackedBits(items: seq<nat>, n: nat): nat {
    if n == 0 || n > |items| then 0 else 2 * PackedBits(items, n - 1) + items[n - 1] % 2
  }

  /** One item per eight items, made of their lowest bits; what is left over is dropped. */
  function Packed(items: seq<nat>): (p: seq<nat>)
    ensures |p| == |items| / 8
  {
    seq(|items| / 8, j requires 0 <= j < |items| / 8 => PackedBits(items[8 * j..8 * j + 8], 8))
  }

  lemma {:induction false} PackedBitsAre(items: seq<nat>, n: nat, i: nat)
    requires i < n <= |items|
    ensures PackedBits(items, n) < Pow2(n) && Bit(PackedBits(items, n), n - 1 - i) == items[i] % 2
    decreases n
  {
    var p := PackedBits(items, n - 1);
    assert PackedBits(items, n) / 2 == p && PackedBits(items, n) % 2 == items[n - 1] % 2;
    if i < n - 1 { PackedBitsAre(items, n - 1, i); } else if n > 1 { PackedBitsAre(items, n - 1, 0); }
  }

  /** Bit 7 - i of byte j is the lowest bit of item 8 j + i. */
  lemma BitOfPacked(items: seq<nat>, j: nat, i: nat)
    requires 8 * j + 8 <= |items| && i < 8
    ensures Packed(items)[j] < 256 && Bit(Packed(items)[j], 7 - i) == items[8 * j + i] % 2
  {
    hide Bit;
    PackedBitsAre(items[8 * j..8 * j + 8], 8, i);
    assert Pow2(8) == 256 by { assert Pow2(4) == 16; }
  }

  /** The packet as the stream has it. */
  function Slice(stream: seq<nat>, info: PacketInfo): (s: seq<nat>) {
    if info.offset + info.length <= |stream| then stream[info.offset..info.offset + info.length] else []
  }

  function Pdu(stream: seq<nat>, pack: bool, info: PacketInfo): seq<nat> {
    if pack then Packed(Slice(stream, info)) else Slice(stream, info)
  }

  function Pdus(stream: seq<nat>, pack: bool, infos: seq<PacketInfo>): (pdus: seq<seq<nat>>)
    ensures |pdus| == |infos|
  {
    seq(|infos|, i requires 0 <= i < |infos| => Pdu(stream, pack, infos[i]))
  }

  // ---------------------------------------------------------------- the ring

  /** Where the item that is d items old sits when the next one goes to slot w. */
  function Slot(w: nat, d: nat, size: nat): int { if d <= w then w - d else w + size - d }

  /** The ring h holds the last items of the stream. */
  ghost predicate Holds(h: seq<nat>, w: nat, stream: seq<nat>) {
    && (w < |h| || w == 0)
    && forall d :: 1 <= d <= |h| && d <= |stream| ==> 0 <= Slot(w, d, |h|) < |h| && h[Slot(w, d, |h|)] == stream[|stream| - d]
  }

  /** memcpy from a sequence. */
  method CopyIn(dst: array<nat>, to: nat, src: seq<nat>, from: nat, n: nat)
    requires to + n <= dst.Length && from + n <= |src|
    modifies dst
    ensures forall k :: 0 <= k < dst.Length ==> dst[k] == if to <= k < to + n then src[from + k - to] else old(dst[k])
  {
    for i := 0 to n
      invariant forall k :: 0 <= k < dst.Length ==> dst[k] == if to <= k < to + i then src[from + k - to] else old(dst[k])
    {
      dst[to + i] := src[from + i];
    }
  }

  /** memcpy from another array. */
  method CopyFrom(dst: array<nat>, to: nat, src: array<nat>, from: nat, n: nat)
    requires to + n <= dst.Length && from + n <= src.Length && dst != src
    modifies dst
    ensures forall k :: 0 <= k < dst.Length ==> dst[k] == if to <= k < to + n then src[from + k - to] else old(dst[k])
  {
    for i := 0 to n
      invariant src[..] == old(src[..])
      invariant forall k :: 0 <= k < dst.Length ==> dst[k] == if to <= k < to + i then src[from + k - to] else old(dst[k])
    {
      dst[to + i] := src[from + i];
    }
  }

  lemma RingItem(h: seq<nat>, w: nat, stream: seq<nat>, a: nat)
    requires Holds(h, w, stream) && a < |stream| <= a + |h|
    ensures w < |h|
    ensures w + a >= |stream| ==> h[w + a - |stream|] == stream[a]
    ensures w + a < |stream| ==> h[w + a + |h| - |stream|] == stream[a]
  {
    var d := |stream| - a;
    assert h[Slot(w, d, |h|)] == stream[|stream| - d];
  }

  /** Slot k of the ring after the last len items of the input have been copied in, the first len2 of them from w on. */
  function Overwritten(h: seq<nat>, w: nat, input: seq<nat>, len: nat, len2: nat, k: nat): nat
    requires k < |h| && len2 <= len <= |input|
  {
    if w <= k < w + len2 then input[|input| - len + k - w]
    else if k < len - len2 then input[|input| - len + len2 + k] else h[k]
  }

  /** What update_history leaves in the ring: the last items of the longer stream. */
  lemma RingAdvances(h: seq<nat>, h': seq<nat>, w: nat, w': nat, stream: seq<nat>, input: seq<nat>, len: nat, len2: nat)
    requires Holds(h, w, stream) && |h'| == |h| && len == (if |input| > |h| then |h| else |input|)
    requires len2 == if w + len <= |h| then len else |h| - w
    requires w' == if len2 < len then len - len2 else if w + len == |h| then 0 else w + len
    requires forall k :: 0 <= k < |h| ==> h'[k] == Overwritten(h, w, input, len, len2, k)
    ensures Holds(h', w', stream + input)
  {
    var size, s := |h|, stream + input;
    forall d | 1 <= d <= size && d <= |s|
      ensures 0 <= Slot(w', d, size) < size && h'[Slot(w', d, size)] == s[|s| - d]
    {
      if d > len {
        assert Slot(w', d, size) == Slot(w, d - len, size);
      }
    }
  }

  /** A packet that can still be put together: none of its items has left the ring. */
  predicate Reachable(info: PacketInfo, nitems: nat, packetLen: nat) {
    info.length <= packetLen && (info.offset >= nitems || nitems - info.offset <= packetLen - 1)
  }

  lemma SliceIs(packet: seq<nat>, stream: seq<nat>, info: PacketInfo)
    requires info.length <= |packet| && info.offset + info.length <= |stream|
    requires forall k :: 0 <= k < info.length ==> packet[k] == stream[info.offset + k]
    ensures packet[..info.length] == Slice(stream, info)
  {}

  class FixedLenToPdu {
    const packetLen: nat
    const pack: bool
    const history: array<nat>
    const packet: array<nat>
    var writePtr: nat
    var nitemsRead: nat
    var packetInfos: seq<PacketInfo>
    /** Everything read so far. */
    ghost var stream: seq<nat>

    ghost predicate RingValid()
      reads this, history
    {
      && packetLen >= 1 && history.Length == packetLen - 1 && packet.Length == packetLen && history != packet
      && |stream| == nitemsRead && Holds(history[..], writePtr, stream)
    }

    ghost predicate Valid()
      reads this, history
    {
      && RingValid()
      && AllReachable(packetInfos, nitemsRead, packetLen)
    }

    constructor (packetLen: nat, pack: bool)
      requires packetLen >= 1 && (pack ==> packetLen % 8 == 0)
      ensures Valid() && stream == [] && packetInfos == [] && this.packetLen == packetLen && this.pack == pack
      ensures fresh(history) && fresh(packet)
    {
      this.packetLen, this.pack := packetLen, pack;
      history, packet := new nat[packetLen - 1], new nat[packetLen];
      writePtr, nitemsRead, packetInfos, stream := 0, 0, [], [];
    }

    /** n items of the ring, from item a of the stream on, that lie next to each other from slot start on. */
    method RingPart(to: nat, start: nat, n: nat, ghost a: nat)
      requires RingValid() && to + n <= packetLen && start + n <= packetLen - 1 && a + n <= nitemsRead <= a + packetLen - 1
      requires (start + nitemsRead == writePtr + a)
               || (start + nitemsRead == writePtr + a + packetLen - 1 && writePtr + a + n <= nitemsRead)
      modifies packet
      ensures forall k :: 0 <= k < packet.Length ==>
                packet[k] == if to <= k < to + n then stream[a + k - to] else old(packet[k])
    {
      hide Holds;
      ghost var h := history[..];
      CopyFrom(packet, to, history, start, n);
      forall k | to <= k < to + n ensures packet[k] == stream[a + k - to] {
        RingItem(h, writePtr, stream, a + k - to);
      }
    }

    /** The packet put together from the ring and the input. */
    method Assemble(info: PacketInfo, input: seq<nat>)
      requires RingValid() && Reachable(info, nitemsRead, packetLen)
      requires info.offset + info.length <= nitemsRead + |input|
      modifies packet
      ensures packet[..info.length] == Slice(stream + input, info)
    {
      hide Holds;
      ghost var s, a := stream + input, info.offset;
      WriteInside(history[..], writePtr, stream);
      if info.offset >= nitemsRead {
        CopyIn(packet, 0, input, info.offset - nitemsRead, info.length);
      } else if writePtr + info.offset >= nitemsRead {
        var start := writePtr + info.offset - nitemsRead;
        var len := if writePtr - start < info.length then writePtr - start else info.length;
        RingPart(0, start, len, a);
        var remain := info.length - len;
        if remain > 0 {
          CopyIn(packet, len, input, 0, remain);
        }
      } else {
        var start := writePtr + info.offset + packetLen - 1 - nitemsRead;
        var len := if history.Length - start < info.length then history.Length - start else info.length;
        RingPart(0, start, len, a);
        var remain := info.length - len;
        if remain > 0 {
          var len2 := if writePtr < remain then writePtr else remain;
          RingPart(len, 0, len2, a + len);
          remain := remain - len2;
          if remain > 0 {
            CopyIn(packet, len + len2, input, 0, remain);
          }
        }
      }
      SliceIs(packet[..], s, info);
    }

    /** Packing in place: byte j is written only when items 8 j to 8 j + 7 have been read. */
    method PackPacket(size: nat)
      requires 8 * size <= packet.Length
      modifies packet
      ensures forall j :: 0 <= j < size ==> packet[j] == PackedBits(old(packet[8 * j..8 * j + 8]), 8)
    {
      ghost var before := packet[..];
      for j := 0 to size
        invariant forall i :: 0 <= i < j ==> packet[i] == PackedBits(before[8 * i..8 * i + 8], 8)
        invariant forall i :: j <= i < packet.Length ==> packet[i] == before[i]
      {
        var b: nat := 0;
        for k := 0 to 8
          invariant b == PackedBits(before[8 * j..8 * j + 8], k) && b < Pow2(k)
        {
          b := 2 * b + packet[8 * j + k] % 2;
        }
        packet[j] := b;
      }
    }

    /** The last items of the input go into the ring. */
    method UpdateHistory(input: seq<nat>)
      requires RingValid() && AllReachable(packetInfos, nitemsRead + |input|, packetLen)
      modifies this`writePtr, this`nitemsRead, this`stream, history
      ensures Valid() && stream == old(stream) + input
    {
      hide Holds, Reachable;
      ghost var h, w := history[..], writePtr;
      var size := packetLen - 1;
      var start, len := 0, |input|;
      if |input| > size {
        start, len := |input| - size, size;
      }
      assert writePtr + 0 <= size by { WriteInside(history[..], writePtr, stream); }
      var len2 := if writePtr + len <= size then len else size - writePtr;
      CopyIn(history, writePtr, input, start, len2);
      if len2 < len {
        CopyIn(history, 0, input, start + len2, len - len2);
        writePtr := len - len2;
      } else {
        writePtr := writePtr + len;
        if writePtr == size {
          writePtr := 0;
        }
      }
      RingAdvances(h, history[..], w, writePtr, stream, input, len, len2);
      nitemsRead := nitemsRead + |input|;
      stream := stream + input;
    }

    /** One packet for publication. */
    method Extract(info: PacketInfo, input: seq<nat>) returns (pdu: seq<nat>)
      requires RingValid() && Reachable(info, nitemsRead, packetLen)
      requires info.offset + info.length <= nitemsRead + |input|
      modifies packet
      ensures pdu == Pdu(stream + input, pack, info)
    {
      hide *;
      assert info.length <= packet.Length by { LengthFits(info, nitemsRead, packetLen); PacketSize(this); }
      Assemble(info, input);
      ghost var p, items := packet[..], Slice(stream + input, info);
      assert p[..info.length] == items;
      PduIs(stream + input, pack, info);
      var pduItems := if pack then info.length / 8 else info.length;
      if pack {
        PackPacket(pduItems);
        PackedFrom(p, packet[..], items);
      }
      pdu := packet[..pduItems];
    }

    /** work: every packet whose last item has arrived is published, in order, exactly as the stream has it; the others
        wait. */
    method Work(input: seq<nat>, tags: seq<Tag>) returns (published: seq<seq<nat>>)
      requires Valid() && forall i :: 0 <= i < |tags| ==> nitemsRead <= tags[i].offset < nitemsRead + |input|
      modifies this`writePtr, this`nitemsRead, this`packetInfos, this`stream, history, packet
      ensures Valid() && stream == old(stream) + input
      ensures var all := old(packetInfos) + InfosOf(tags, packetLen);
              && published == Pdus(stream, pack, Ready(all, |stream|))
              && packetInfos == Waiting(all, |stream|)
      ensures forall i :: 0 <= i < |tags| ==> AsTagged(InfosOf(tags, packetLen)[i], tags[i], packetLen)
    {
      hide *;
      ghost var before, all, s := packetInfos, packetInfos + InfosOf(tags, packetLen), stream + input;
      StillRing(this);
      AddTags(tags);
      ReachableNow(before, tags, nitemsRead, |input|, packetLen);
      published := [];
      var newPacketInfos: seq<PacketInfo> := [];
      NothingYet(s, pack, all);
      for i := 0 to |packetInfos|
        invariant packetInfos == all && RingValid()
        invariant published == Pdus(s, pack, Ready(all[..i], |s|)) && newPacketInfos == Waiting(all[..i], |s|)
        modifies packet
      {
        var info := packetInfos[i];
        SortOne(all, i, |s|);
        RingSize(this);
        if info.offset + info.length <= nitemsRead + |input| {
          var pdu := Extract(info, input);
          PdusAppend(s, pack, Ready(all[..i], |s|), info);
          published := published + [pdu];
        } else {
          newPacketInfos := newPacketInfos + [info];
        }
      }
      assert all[..|all|] == all;
      WaitingReachable(all, nitemsRead, |input|, packetLen);
      Keep(newPacketInfos);
      UpdateHistory(input);
      TagsDecide(tags, packetLen);
    }

    method AddTags(tags: seq<Tag>)
      requires RingValid()
      modifies this`packetInfos
      ensures RingValid() && packetInfos == old(packetInfos) + InfosOf(tags, packetLen)
    {
      hide Holds;
      for i := 0 to |tags|
        invariant RingValid() && packetInfos == old(packetInfos) + InfosOf(tags[..i], packetLen)
        modifies this`packetInfos
      {
        packetInfos := packetInfos + [InfoOf(tags[i], packetLen)];
      }
      assert tags[..|tags|] == tags;
    }

    /** The exchange of the two lists of packets. */
    method Keep(newPacketInfos: seq<PacketInfo>)
      requires RingValid()
      modifies this`packetInfos
      ensures RingValid() && packetInfos == newPacketInfos
    {
      hide Holds;
      packetInfos := newPacketInfos;
    }
  }

  lemma StillRing(block: FixedLenToPdu)
    requires block.Valid()
    ensures block.RingValid() && AllReachable(block.packetInfos, block.nitemsRead, block.packetLen)
  {}

  lemma RingSize(block: FixedLenToPdu)
    requires block.RingValid()
    ensures |block.stream| == block.nitemsRead
  {}

  lemma NothingYet(stream: seq<nat>, pack: bool, infos: seq<PacketInfo>)
    ensures Pdus(stream, pack, Ready(infos[..0], |stream|)) == [] && Waiting(infos[..0], |stream|) == []
  {}

  lemma SortOne(infos: seq<PacketInfo>, i: nat, n: nat)
    requires i < |infos|
    ensures var x, r, w := infos[i], Ready(infos[..i], n), Waiting(infos[..i], n);
            if x.offset + x.length <= n then Ready(infos[..i + 1], n) == r + [x] && Waiting(infos[..i + 1], n) == w
            else Ready(infos[..i + 1], n) == r && Waiting(infos[..i + 1], n) == w + [x]
  {
    FrontOfPrefix(infos, i);
  }

  lemma ReachableNow(infos: seq<PacketInfo>, tags: seq<Tag>, nitems: nat, more: nat, packetLen: nat)
    requires AllReachable(infos, nitems, packetLen)
    requires forall i :: 0 <= i < |tags| ==> nitems <= tags[i].offset < nitems + more
    ensures var all := infos + InfosOf(tags, packetLen);
            forall i :: 0 <= i < |all| ==> Reachable(all[i], nitems, packetLen) && all[i].offset < nitems + more
  {}

  lemma PacketSize(block: FixedLenToPdu)
    requires block.RingValid()
    ensures block.packet.Length == block.packetLen
  {}

  lemma PduIs(stream: seq<nat>, pack: bool, info: PacketInfo)
    ensures Pdu(stream, pack, info) == if pack then Packed(Slice(stream, info)) else Slice(stream, info)
  {}

  lemma SamePart(s: seq<nat>, items: seq<nat>, i: nat, j: nat)
    requires i <= j <= |items| <= |s| && s[..|items|] == items
    ensures s[i..j] == items[i..j]
  {
    assert s[..|items|][i..j] == s[i..j];
  }

  lemma PackedFrom(before: seq<nat>, after: seq<nat>, items: seq<nat>)
    requires |items| <= |before| == |after| && before[..|items|] == items
    requires forall j :: 0 <= j < |items| / 8 ==> after[j] == PackedBits(before[8 * j..8 * j + 8], 8)
    ensures after[..|items| / 8] == Packed(items)
  {
    hide PackedBits;
    forall j | 0 <= j < |items| / 8 ensures after[j] == Packed(items)[j] {
      SamePart(before, items, 8 * j, 8 * j + 8);
    }
  }

  lemma LengthFits(info: PacketInfo, nitems: nat, packetLen: nat)
    requires Reachable(info, nitems, packetLen)
    ensures info.length <= packetLen
  {}

  lemma PdusAppend(stream: seq<nat>, pack: bool, infos: seq<PacketInfo>, info: PacketInfo)
    ensures Pdus(stream, pack, infos + [info]) == Pdus(stream, pack, infos) + [Pdu(stream, pack, info)]
  {
    hide Pdu;
  }

  lemma WriteInside(h: seq<nat>, w: nat, stream: seq<nat>)
    requires Holds(h, w, stream)
    ensures w <= |h|
  {}

  /** Packets that began before the item now due, and that can still be put together. */
  ghost predicate AllReachable(infos: seq<PacketInfo>, nitems: nat, packetLen: nat) {
    forall i :: 0 <= i < |infos| ==> Reachable(infos[i], nitems, packetLen) && infos[i].offset < nitems
  }

  /** A packet that has to wait never needs an item that the ring loses. */
  lemma {:induction false} WaitingReachable(infos: seq<PacketInfo>, nitems: nat, more: nat, packetLen: nat)
    requires forall i :: 0 <= i < |infos| ==> Reachable(infos[i], nitems, packetLen) && infos[i].offset < nitems + more
    ensures AllReachable(Waiting(infos, nitems + more), nitems + more, packetLen)
  {
    if infos != [] {
      WaitingReachable(Front(infos), nitems, more, packetLen);
      assert Reachable(infos[|infos| - 1], nitems, packetLen);
    }
  }

  // ---------------------------------------------------------------- whole runs

  datatype Call = Call(input: seq<nat>, tags: seq<Tag>)

  function Stream(calls: seq<Call>): seq<nat> {
    if calls == [] then [] else Stream(Front(calls)) + Last(calls).input
  }

  /** All packets announced by tags. */
  function Announced(calls: seq<Call>, packetLen: nat): seq<PacketInfo> {
    if calls == [] then [] else Announced(Front(calls), packetLen) + InfosOf(Last(calls).tags, packetLen)
  }

  /** The packets still waiting after the calls. */
  function Pending(calls: seq<Call>, packetLen: nat): seq<PacketInfo> {
    if calls == [] then []
    else Waiting(Pending(Front(calls), packetLen) + InfosOf(Last(calls).tags, packetLen), |Stream(calls)|)
  }

  /** The packets in the order in which they are published: in the first call that brings their last item. */
  function PublishOrder(calls: seq<Call>, packetLen: nat): seq<PacketInfo> {
    if calls == [] then []
    else PublishOrder(Front(calls), packetLen)
         + Ready(Pending(Front(calls), packetLen) + InfosOf(Last(calls).tags, packetLen), |Stream(calls)|)
  }

  /** Tags sit on items of the call that delivers them. */
  ghost predicate InWindow(calls: seq<Call>) {
    calls == [] ||
    (InWindow(Front(calls)) &&
     forall i :: 0 <= i < |Last(calls).tags| ==> |Stream(Front(calls))| <= Last(calls).tags[i].offset < |Stream(calls)|)
  }

  function End(info: PacketInfo): nat { info.offset + info.length }

  ghost predicate AllEndBy(infos: seq<PacketInfo>, n: nat) { forall i :: 0 <= i < |infos| ==> End(infos[i]) <= n }

  ghost predicate AllEndAfter(infos: seq<PacketInfo>, n: nat) { forall i :: 0 <= i < |infos| ==> End(infos[i]) > n }

  lemma {:induction false} ReadyOrWaiting(infos: seq<PacketInfo>, n: nat)
    ensures multiset(Ready(infos, n)) + multiset(Waiting(infos, n)) == multiset(infos)
  {
    if infos != [] {
      var f, x := Front(infos), Last(infos);
      ReadyOrWaiting(f, n);
      MultisetOfAppend(f, x);
      FrontLast(infos);
      if End(x) <= n {
        MultisetOfAppend(Ready(f, n), x);
        assert Waiting(infos, n) == Waiting(f, n);
      } else {
        MultisetOfAppend(Waiting(f, n), x);
        assert Ready(infos, n) == Ready(f, n);
      }
    }
  }

  lemma MultisetOfAppend(s: seq<PacketInfo>, x: PacketInfo)
    ensures multiset(s + [x]) == multiset(s) + multiset{x}
  {}

  lemma {:induction false} ReadyEnds(infos: seq<PacketInfo>, n: nat)
    ensures AllEndBy(Ready(infos, n), n) && AllEndAfter(Waiting(infos, n), n)
  {
    if infos != [] { ReadyEnds(Front(infos), n); }
  }

  lemma EndByMore(infos: seq<PacketInfo>, more: seq<PacketInfo>, n: nat, m: nat)
    requires AllEndBy(infos, n) && AllEndBy(more, m) && n <= m
    ensures AllEndBy(infos + more, m)
  {}

  lemma MultisetOfConcat(a: seq<PacketInfo>, b: seq<PacketInfo>)
    ensures multiset(a + b) == multiset(a) + multiset(b)
  {}

  /** Regrouping: what was published, what was waiting and what is new. */
  lemma Regroup(p: multiset<PacketInfo>, w: multiset<PacketInfo>, all: multiset<PacketInfo>, t: multiset<PacketInfo>,
                r: multiset<PacketInfo>, v: multiset<PacketInfo>)
    requires p + w == all && r + v == w + t
    ensures (p + r) + v == all + t
  {
    assert (p + r) + v == p + (r + v) == p + (w + t) == (p + w) + t;
  }

  /** Every announced packet is either published, exactly once, or still waiting; it is published if and only if its
      last item has been read. */
  lemma {:induction false} EveryPacketOnce(calls: seq<Call>, packetLen: nat)
    ensures multiset(PublishOrder(calls, packetLen)) + multiset(Pending(calls, packetLen)) == multiset(Announced(calls, packetLen))
    ensures AllEndBy(PublishOrder(calls, packetLen), |Stream(calls)|)
    ensures AllEndAfter(Pending(calls, packetLen), |Stream(calls)|)
  {
    hide Ready, Waiting, AllEndBy, AllEndAfter, InfosOf;
    if calls == [] {
      ReadyEnds([], 0);
      assert Ready([], 0) == [] && Waiting([], 0) == [] by { NothingReady(); }
    } else {
      var before, new_, n := Front(calls), InfosOf(Last(calls).tags, packetLen), |Stream(calls)|;
      var p, w := PublishOrder(before, packetLen), Pending(before, packetLen);
      EveryPacketOnce(before, packetLen);
      ReadyOrWaiting(w + new_, n);
      ReadyEnds(w + new_, n);
      EndByMore(p, Ready(w + new_, n), |Stream(before)|, n);
      MultisetOfConcat(p, Ready(w + new_, n));
      MultisetOfConcat(w, new_);
      MultisetOfConcat(Announced(before, packetLen), new_);
      Regroup(multiset(p), multiset(w), multiset(Announced(before, packetLen)), multiset(new_),
              multiset(Ready(w + new_, n)), multiset(Waiting(w + new_, n)));
    }
  }

  lemma NothingReady()
    ensures Ready([], 0) == [] && Waiting([], 0) == []
  {}

  lemma CountByEnd(yes: seq<PacketInfo>, no: seq<PacketInfo>, n: nat, x: PacketInfo)
    requires AllEndBy(yes, n) && AllEndAfter(no, n)
    ensures End(x) <= n ==> multiset(no)[x] == 0
    ensures End(x) > n ==> multiset(yes)[x] == 0
  {
    assert x in multiset(no) ==> x in no;
    assert x in multiset(yes) ==> x in yes;
  }

  /** What has been published does not depend on how the stream was cut into calls: it is what has ended. */
  lemma PublishedIsWhatHasEnded(calls: seq<Call>, packetLen: nat)
    ensures multiset(PublishOrder(calls, packetLen)) == multiset(Ready(Announced(calls, packetLen), |Stream(calls)|))
  {
    hide PublishOrder, Pending, Announced, Ready, Waiting, AllEndBy, AllEndAfter;
    var n, all := |Stream(calls)|, Announced(calls, packetLen);
    var p, w, r, v := PublishOrder(calls, packetLen), Pending(calls, packetLen), Ready(all, n), Waiting(all, n);
    EveryPacketOnce(calls, packetLen);
    ReadyOrWaiting(all, n);
    ReadyEnds(all, n);
    forall x ensures multiset(p)[x] == multiset(r)[x] {
      CountByEnd(p, w, n, x);
      CountByEnd(r, v, n, x);
      assert (multiset(p) + multiset(w))[x] == (multiset(r) + multiset(v))[x];
    }
  }

  /** Sorting out twice is sorting out once. */
  lemma {:induction false} WaitingTwice(a: seq<PacketInfo>, b: seq<PacketInfo>, n: nat, m: nat)
    requires n <= m
    ensures Waiting(Waiting(a, n) + b, m) == Waiting(a + b, m)
    decreases |b|, |a|
  {
    if b != [] {
      WaitingTwice(a, Front(b), n, m);
      AppendedLast(a, b);
      AppendedLast(Waiting(a, n), b);
    } else if a != [] {
      WaitingTwice(Front(a), b, n, m);
      assert a + b == a && Front(a) + b == Front(a);
      var w := Waiting(Front(a), n);
      assert w + b == w && Waiting(a, n) + b == Waiting(a, n);
      FrontOfAppend(w, Last(a));
    }
  }

  lemma AppendedLast(a: seq<PacketInfo>, b: seq<PacketInfo>)
    requires b != []
    ensures a + b != [] && Front(a + b) == a + Front(b) && Last(a + b) == Last(b)
  {}

  /** Packets are published one call after the other, and within a call in the order in which they were announced: those
      among all that are not yet published whose last item the call has brought. The others wait in that order. */
  lemma {:induction false} PublishedInOrder(calls: seq<Call>, packetLen: nat)
    ensures Pending(calls, packetLen) == Waiting(Announced(calls, packetLen), |Stream(calls)|)
    ensures calls != [] ==>
              PublishOrder(calls, packetLen)
              == PublishOrder(Front(calls), packetLen)
                 + Ready(Waiting(Announced(Front(calls), packetLen), |Stream(Front(calls))|)
                         + InfosOf(Last(calls).tags, packetLen), |Stream(calls)|)
  {
    hide Ready, Waiting, InfosOf;
    if calls == [] {
      NothingReady();
    } else {
      PublishedInOrder(Front(calls), packetLen);
      WaitingTwice(Announced(Front(calls), packetLen), InfosOf(Last(calls).tags, packetLen),
                   |Stream(Front(calls))|, |Stream(calls)|);
    }
  }

  /** More input does not change a packet that has ended. */
  lemma PdusAreStable(stream: seq<nat>, more: seq<nat>, pack: bool, infos: seq<PacketInfo>)
    requires AllEndBy(infos, |stream|)
    ensures Pdus(stream + more, pack, infos) == Pdus(stream, pack, infos)
  {
    forall i | 0 <= i < |infos| ensures Slice(stream + more, infos[i]) == Slice(stream, infos[i]) {
      assert End(infos[i]) <= |stream|;
    }
  }

  lemma PdusConcat(stream: seq<nat>, pack: bool, a: seq<PacketInfo>, b: seq<PacketInfo>)
    ensures Pdus(stream, pack, a + b) == Pdus(stream, pack, a) + Pdus(stream, pack, b)
  {
    hide Pdu;
  }

  // ---------------------------------------------------------------- runs in terms of the tags

  function Tags(calls: seq<Call>): seq<Tag> {
    if calls == [] then [] else Tags(Front(calls)) + Last(calls).tags
  }

  /** The items from o on, once all of them have been read. */
  function Cut(stream: seq<nat>, o: nat, len: nat): seq<seq<nat>> {
    if o + len <= |stream| then [stream[o..o + len]] else []
  }

  /** The packets that tags call for, in the order of the tags. */
  function Called(stream: seq<nat>, tags: seq<Tag>, packetLen: nat): seq<seq<nat>> {
    if tags == [] then []
    else Called(stream, Front(tags), packetLen)
         + match Last(tags).length
           case None => Cut(stream, Last(tags).offset, packetLen)
           case Some(l) => Cut(stream, Last(tags).offset, if l < 0 || l > packetLen then packetLen else l)
  }

  function Each(packets: seq<seq<nat>>, pack: bool): (pdus: seq<seq<nat>>)
    ensures |pdus| == |packets|
  {
    if pack then seq(|packets|, i requires 0 <= i < |packets| => Packed(packets[i])) else packets
  }

  lemma EachAppend(a: seq<seq<nat>>, b: seq<seq<nat>>, pack: bool)
    ensures Each(a + b, pack) == Each(a, pack) + Each(b, pack)
  {
    hide Packed;
  }

  lemma CutIsPdu(stream: seq<nat>, pack: bool, info: PacketInfo)
    ensures Each(Cut(stream, info.offset, info.length), pack)
            == if info.offset + info.length <= |stream| then [Pdu(stream, pack, info)] else []
  {
    hide Packed;
  }

  lemma CalledStep(stream: seq<nat>, tags: seq<Tag>, packetLen: nat)
    requires tags != []
    ensures var info := Last(InfosOf(tags, packetLen));
            Called(stream, tags, packetLen) == Called(stream, Front(tags), packetLen) + Cut(stream, info.offset, info.length)
    ensures Front(InfosOf(tags, packetLen)) == InfosOf(Front(tags), packetLen)
  {
    hide Cut;
  }

  lemma {:induction false} ReadyIsCalled(stream: seq<nat>, pack: bool, tags: seq<Tag>, packetLen: nat)
    ensures Pdus(stream, pack, Ready(InfosOf(tags, packetLen), |stream|)) == Each(Called(stream, tags, packetLen), pack)
  {
    hide Pdu, Each, Cut, Called, InfosOf;
    if tags == [] {
      NoTags(stream, pack, packetLen);
    } else {
      var infos := InfosOf(tags, packetLen);
      ReadyIsCalled(stream, pack, Front(tags), packetLen);
      CalledStep(stream, tags, packetLen);
      CutIsPdu(stream, pack, Last(infos));
      EachAppend(Called(stream, Front(tags), packetLen), Cut(stream, Last(infos).offset, Last(infos).length), pack);
      PdusAppend(stream, pack, Ready(Front(infos), |stream|), Last(infos));
    }
  }

  lemma NoTags(stream: seq<nat>, pack: bool, packetLen: nat)
    ensures InfosOf([], packetLen) == [] && Each(Called(stream, [], packetLen), pack) == []
  {}

  lemma {:induction false} AnnouncedByTags(calls: seq<Call>, packetLen: nat)
    ensures Announced(calls, packetLen) == InfosOf(Tags(calls), packetLen)
  {
    hide InfoOf;
    if calls != [] { AnnouncedByTags(Front(calls), packetLen); }
  }

  lemma TakenOut<T>(s: seq<T>, j: nat)
    requires j < |s|
    ensures multiset(s) == multiset(s[..j] + s[j + 1..]) + multiset{s[j]}
  {
    assert s == s[..j] + [s[j]] + s[j + 1..];
  }

  lemma LastTakenOut<T>(s: seq<T>)
    requires s != []
    ensures multiset(s) == multiset(Front(s)) + multiset{Last(s)}
  {
    TakenOut(s, |s| - 1);
    assert s[..|s| - 1] + s[|s| - 1 + 1..] == Front(s);
  }

  lemma OneLess<T>(a: multiset<T>, b: multiset<T>, x: T)
    requires a + multiset{x} == b + multiset{x}
    ensures a == b
  {
    forall y ensures a[y] == b[y] { assert (a + multiset{x})[y] == (b + multiset{x})[y]; }
  }

  lemma PdusWithout(stream: seq<nat>, pack: bool, infos: seq<PacketInfo>, j: nat)
    requires j < |infos|
    ensures multiset(Pdus(stream, pack, infos))
            == multiset(Pdus(stream, pack, infos[..j] + infos[j + 1..])) + multiset{Pdu(stream, pack, infos[j])}
  {
    hide Pdu;
    var p := Pdus(stream, pack, infos);
    TakenOut(p, j);
    assert p[..j] + p[j + 1..] == Pdus(stream, pack, infos[..j] + infos[j + 1..]);
  }

  /** The same packets in another order make the same messages in another order. */
  lemma {:induction false} Reordered(stream: seq<nat>, pack: bool, a: seq<PacketInfo>, b: seq<PacketInfo>)
    requires multiset(a) == multiset(b)
    ensures multiset(Pdus(stream, pack, a)) == multiset(Pdus(stream, pack, b))
    decreases |a|
  {
    hide Pdu, Pdus;
    if a == [] {
      assert b == [] by { assert |multiset(b)| == |b|; }
    } else {
      var x, k := Last(a), |a| - 1;
      assert x in multiset(b);
      var j :| 0 <= j < |b| && b[j] == x;
      LastTakenOut(a);
      TakenOut(b, j);
      OneLess(multiset(Front(a)), multiset(b[..j] + b[j + 1..]), x);
      Reordered(stream, pack, Front(a), b[..j] + b[j + 1..]);
      assert a[..k] + a[k + 1..] == Front(a);
      PdusWithout(stream, pack, a, k);
      PdusWithout(stream, pack, b, j);
    }
  }

  /** What has been published are the packets that the tags call for and whose items have been read, each one once. */
  lemma PublishedByTags(calls: seq<Call>, packetLen: nat, pack: bool)
    ensures multiset(Pdus(Stream(calls), pack, PublishOrder(calls, packetLen)))
            == multiset(Each(Called(Stream(calls), Tags(calls), packetLen), pack))
  {
    hide Pdus, Each, Called, Ready, PublishOrder, Announced, InfosOf;
    PublishedIsWhatHasEnded(calls, packetLen);
    AnnouncedByTags(calls, packetLen);
    ReadyIsCalled(Stream(calls), pack, Tags(calls), packetLen);
    Reordered(Stream(calls), pack, PublishOrder(calls, packetLen), Ready(Announced(calls, packetLen), |Stream(calls)|));
  }

  /** A whole run of the block, one call of work after the other: every published packet is what the whole stream has at
      its place. */
  method Run(packetLen: nat, pack: bool, calls: seq<Call>) returns (published: seq<seq<nat>>)
    requires packetLen >= 1 && (pack ==> packetLen % 8 == 0) && InWindow(calls)
    ensures published == Pdus(Stream(calls), pack, PublishOrder(calls, packetLen))
    ensures multiset(published) == multiset(Each(Called(Stream(calls), Tags(calls), packetLen), pack))
  {
    hide Pdu, Ready, Waiting, AllEndBy, AllEndAfter, Holds;
    var block := new FixedLenToPdu(packetLen, pack);
    published := [];
    assert calls[..0] == [];
    for i := 0 to |calls|
      invariant block.Valid() && fresh(block) && fresh(block.history) && fresh(block.packet)
      invariant block.packetLen == packetLen && block.pack == pack
      invariant block.stream == Stream(calls[..i]) && block.packetInfos == Pending(calls[..i], packetLen)
      invariant published == Pdus(Stream(calls[..i]), pack, PublishOrder(calls[..i], packetLen))
    {
      FrontOfPrefix(calls, i);
      WindowOfPrefix(calls, i + 1);
      EveryPacketOnce(calls[..i], packetLen);
      PdusAreStable(Stream(calls[..i]), calls[i].input, pack, PublishOrder(calls[..i], packetLen));
      ghost var due := Ready(Pending(calls[..i], packetLen) + InfosOf(calls[i].tags, packetLen), |Stream(calls[..i + 1])|);
      PdusConcat(Stream(calls[..i + 1]), pack, PublishOrder(calls[..i], packetLen), due);
      var pdus := block.Work(calls[i].input, calls[i].tags);
      published := published + pdus;
    }
    assert calls[..|calls|] == calls;
    PublishedByTags(calls, packetLen, pack);
  }

  lemma {:induction false} WindowOfPrefix(calls: seq<Call>, i: nat)
    requires InWindow(calls) && i <= |calls|
    ensures InWindow(calls[..i])
    decreases |calls|
  {
    if i == |calls| {
      assert calls[..i] == calls;
    } else {
      WindowOfPrefix(Front(calls), i);
      assert Front(calls)[..i] == calls[..i];
    }
  }
}
