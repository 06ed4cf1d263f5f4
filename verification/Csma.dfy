/** The block that lets packets wait while the channel is in use. The input is a stream of packets back to back; every
    packet carries its length as a tag on its first item. */
module Csma {
  import opened Sequences

  datatype Tag = Tag(offset: nat, length: nat)

  /** Where packet i starts. */
  function Start(lengths: seq<nat>, i: nat): nat
    requires i <= |lengths|
  {
    if i == 0 then 0 else Start(lengths, i - 1) + lengths[i - 1]
  }

  lemma StartStep(lengths: seq<nat>, i: nat)
    requires i < |lengths|
    ensures Start(lengths, i + 1) == Start(lengths, i) + lengths[i]
  {}

  function Total(lengths: seq<nat>): nat { Start(lengths, |lengths|) }

  ghost predicate NonEmpty(lengths: seq<nat>) { forall i :: 0 <= i < |lengths| ==> lengths[i] >= 1 }

  lemma {:induction false} StartsGrow(lengths: seq<nat>, i: nat, j: nat)
    requires i <= j <= |lengths|
    ensures Start(lengths, i) <= Start(lengths, j)
    ensures NonEmpty(lengths) && i < j ==> Start(lengths, i) < Start(lengths, j)
    decreases j
  {
    if i < j { StartsGrow(lengths, i, j - 1); }
  }

  /** The tags of the first n packets that lie from item a up to, not including, item b, in order. */
  function TagsIn(lengths: seq<nat>, n: nat, a: nat, b: nat): seq<Tag>
    requires n <= |lengths|
  {
    if n == 0 then []
    else TagsIn(lengths, n - 1, a, b)
         + if a <= Start(lengths, n - 1) < b then [Tag(Start(lengths, n - 1), lengths[n - 1])] else []
  }

  /** The packet to which the last tag in the range belongs. */
  lemma {:induction false} LastTag(lengths: seq<nat>, n: nat, a: nat, b: nat) returns (i: nat)
    requires n <= |lengths|
    ensures var tags := TagsIn(lengths, n, a, b);
            if tags == [] then NoStart(lengths, 0, n, a, b)
            else i < n && Last(tags) == Tag(Start(lengths, i), lengths[i]) && StartIn(lengths, i, a, b)
                 && NoStart(lengths, i + 1, n, a, b)
    decreases n
  {
    if n == 0 {
      i := 0;
    } else {
      i := LastTag(lengths, n - 1, a, b);
      if StartIn(lengths, n - 1, a, b) { i := n - 1; }
    }
  }

  ghost predicate StartIn(lengths: seq<nat>, i: int, a: nat, b: nat) {
    0 <= i < |lengths| && a <= Start(lengths, i) < b
  }

  /** None of the packets from i up to, not including, j starts there. */
  ghost predicate NoStart(lengths: seq<nat>, i: nat, j: nat, a: nat, b: nat) {
    forall k :: i <= k < j ==> !StartIn(lengths, k, a, b)
  }

  /** How much is left, at item pos, of the packet that the item before pos belongs to. */
  ghost predicate Remaining(lengths: seq<nat>, pos: nat, r: nat) {
    exists i :: EndsPacket(lengths, i, pos, r)
  }

  /** Packet i - 1 is the one in flight at pos, and it ends r items later; i = 0 stands for no packet yet. */
  ghost predicate EndsPacket(lengths: seq<nat>, i: nat, pos: nat, r: nat) {
    i <= |lengths| && pos + r == Start(lengths, i) && (i == 0 || Start(lengths, i - 1) < pos)
  }

  /** There is only one answer. */
  lemma RemainingIsUnique(lengths: seq<nat>, pos: nat, r: nat, q: nat)
    requires Remaining(lengths, pos, r) && Remaining(lengths, pos, q)
    ensures r == q
  {
    var i: nat :| EndsPacket(lengths, i, pos, r);
    var j: nat :| EndsPacket(lengths, j, pos, q);
    if i < j { StartsGrow(lengths, i, j - 1); }
    if j < i { StartsGrow(lengths, j, i - 1); }
  }

  /** No packet starts before the one in flight has ended. */
  lemma NoStartBefore(lengths: seq<nat>, pos: nat, r: nat, end: nat)
    requires Remaining(lengths, pos, r) && end <= pos + r
    ensures NoStart(lengths, 0, |lengths|, pos, end)
  {
    var i: nat :| EndsPacket(lengths, i, pos, r);
    forall j | 0 <= j < |lengths| ensures !StartIn(lengths, j, pos, end) {
      if j < i { StartsGrow(lengths, j, i - 1); } else { StartsGrow(lengths, i, j); }
    }
  }

  /** Up to item end, if the last start before it is that of packet i. */
  lemma RemainingAfterStart(lengths: seq<nat>, pos: nat, end: nat, i: nat)
    requires NonEmpty(lengths) && pos <= end <= Total(lengths) && StartIn(lengths, i, pos, end)
    requires NoStart(lengths, i + 1, |lengths|, pos, end)
    ensures Start(lengths, i) + lengths[i] >= end && Remaining(lengths, end, Start(lengths, i) + lengths[i] - end)
  {
    hide Start;
    var k := i + 1;
    StartStep(lengths, i);
    if k < |lengths| { assert !StartIn(lengths, k, pos, end); }
    assert EndsPacket(lengths, k, end, Start(lengths, k) - end);
  }

  /** Up to item end, if no packet starts before it: all items belong to the packet in flight. */
  lemma RemainingWithoutStart(lengths: seq<nat>, pos: nat, r: nat, end: nat)
    requires NonEmpty(lengths) && pos <= end <= Total(lengths) && Remaining(lengths, pos, r)
    requires NoStart(lengths, 0, |lengths|, pos, end)
    ensures end <= pos + r && Remaining(lengths, end, pos + r - end)
  {
    var i: nat :| EndsPacket(lengths, i, pos, r);
    if i < |lengths| { assert !StartIn(lengths, i, pos, end); }
    assert EndsPacket(lengths, i, end, pos + r - end);
  }

  function Least(a: nat, b: nat): (m: nat)
    ensures m <= a && m <= b && (m == a || m == b)
  {
    if a < b then a else b
  }

  datatype Event = CarrierSense(busy: bool) | Work(noutputItems: nat, ninputItems: nat)

  class PacketCsma {
    const backToBackPriority: bool
    var remainingItems: nat
    var carrierSense: bool
    /** The stream at the input with its packet lengths, how much of it has been read, and what has been written. */
    const lengths: seq<nat>
    const input: seq<nat>
    var nitemsRead: nat
    var output: seq<nat>

    ghost predicate Valid()
      reads this
    {
      && NonEmpty(lengths) && Total(lengths) == |input| && nitemsRead <= |input|
      && output == input[..nitemsRead] && Remaining(lengths, nitemsRead, remainingItems)
    }

    constructor (backToBackPriority: bool, lengths: seq<nat>, input: seq<nat>)
      requires NonEmpty(lengths) && Total(lengths) == |input|
      ensures Valid() && !carrierSense && nitemsRead == 0 && remainingItems == 0
      ensures this.backToBackPriority == backToBackPriority && this.lengths == lengths && this.input == input
    {
      this.backToBackPriority, this.lengths, this.input := backToBackPriority, lengths, input;
      remainingItems, carrierSense, nitemsRead, output := 0, false, 0, [];
      new;
      assert EndsPacket(lengths, 0, 0, 0);
    }

    method HandleCarrierSense(busy: bool)
      requires Valid()
      modifies this`carrierSense
      ensures Valid() && carrierSense == busy
    {
      carrierSense := busy;
    }

    /** general_work: as many items as possible are written unchanged, none between packets while the carrier is sensed
        and, without priority for back-to-back packets, no more than the packet in flight. The count of remaining items
        stays exact, and while the carrier is sensed no packet start is passed, unless back-to-back packets have priority and a packet was in
        flight. The branch that throws is never reached. */
    method GeneralWork(noutputItems: nat, ninputItems: nat) returns (numPropagate: nat)
      requires Valid() && nitemsRead + ninputItems <= |input|
      modifies this`remainingItems, this`nitemsRead, this`output
      ensures Valid() && nitemsRead == old(nitemsRead) + numPropagate && numPropagate <= noutputItems && numPropagate <= ninputItems
      ensures !carrierSense ==> numPropagate == Least(noutputItems, ninputItems)
      ensures carrierSense && old(remainingItems) == 0 ==> numPropagate == 0
      ensures carrierSense && old(remainingItems) > 0 ==>
                numPropagate == if backToBackPriority then Least(noutputItems, ninputItems)
                                else Least(Least(noutputItems, ninputItems), old(remainingItems))
      ensures carrierSense && (old(remainingItems) == 0 || !backToBackPriority) ==>
                numPropagate <= old(remainingItems)
                && NoStart(lengths, 0, |lengths|, old(nitemsRead), nitemsRead)
    {
      hide Remaining, StartIn, TagsIn, Start, NoStart;
      numPropagate := if noutputItems < ninputItems then noutputItems else ninputItems;
      if carrierSense {
        if remainingItems == 0 {
          numPropagate := 0;
        } else if backToBackPriority {
        } else {
          numPropagate := if numPropagate < remainingItems then numPropagate else remainingItems;
        }
        if numPropagate <= remainingItems { NoStartBefore(lengths, nitemsRead, remainingItems, nitemsRead + numPropagate); }
      }
      var nitems := nitemsRead;
      var tags := TagsIn(lengths, |lengths|, nitems, nitems + numPropagate);
      ghost var i := LastTag(lengths, |lengths|, nitems, nitems + numPropagate);
      if |tags| > 0 {
        var lastTag := Last(tags);
        var length := lastTag.length;
        RemainingAfterStart(lengths, nitems, nitems + numPropagate, i);
        remainingItems := lastTag.offset + length - (nitems + numPropagate);
      } else {
        RemainingWithoutStart(lengths, nitems, remainingItems, nitems + numPropagate);
        if numPropagate > remainingItems {
          assert false;
        }
        remainingItems := remainingItems - numPropagate;
      }
      output := output + input[nitems..nitems + numPropagate];
      nitemsRead := nitemsRead + numPropagate;
    }

    /** Any sequence of carrier reports and work calls: the output is the part of the input read so far, and while the
        carrier is sensed throughout, without priority for back-to-back packets no more than the packet in flight passes. */
    method Run(events: seq<Event>)
      requires Valid()
      modifies this`carrierSense, this`remainingItems, this`nitemsRead, this`output
      ensures Valid() && old(output) <= output <= input
      ensures old(carrierSense) && (forall k :: 0 <= k < |events| ==> events[k] != CarrierSense(false))
              && (!backToBackPriority || old(remainingItems) == 0) ==>
                carrierSense && nitemsRead + remainingItems == old(nitemsRead) + old(remainingItems)
    {
      hide Remaining, NonEmpty;
      ghost var quiet := carrierSense && (!backToBackPriority || remainingItems == 0)
                         && forall k :: 0 <= k < |events| ==> events[k] != CarrierSense(false);
      for k := 0 to |events|
        invariant Valid() && old(nitemsRead) <= nitemsRead
        invariant quiet ==> carrierSense && nitemsRead + remainingItems == old(nitemsRead) + old(remainingItems)
                            && (!backToBackPriority || remainingItems == 0)
      {
        match events[k]
        case CarrierSense(busy) =>
          HandleCarrierSense(busy);
        case Work(noutput, ninput) =>
          var available := if nitemsRead + ninput <= |input| then ninput else |input| - nitemsRead;
          ghost var pos, r := nitemsRead, remainingItems;
          var n := GeneralWork(noutput, available);
          if quiet { SameEnd(lengths, pos, r, n, remainingItems); }
      }
    }
  }

  /** Within the packet in flight its end stays where it is. */
  lemma SameEnd(lengths: seq<nat>, pos: nat, r: nat, n: nat, r': nat)
    requires Remaining(lengths, pos, r) && n <= r && Remaining(lengths, pos + n, r')
    ensures pos + n + r' == pos + r
  {
    var i: nat :| EndsPacket(lengths, i, pos, r);
    assert EndsPacket(lengths, i, pos + n, r - n);
    RemainingIsUnique(lengths, pos + n, r', r - n);
  }
}
