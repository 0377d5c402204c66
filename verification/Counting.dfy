/**
  What each operation changes and counts, told from the bytes of the datagram or the length of the payload
  alone; and over a run, what every counter is the number of.
 */
module Counting {
  import opened Arithmetic
  import opened Bits
  import opened EndpointModel
  import opened EndpointRuns
  import Fragments
  import Packets
  import WireFormat

  // ---- Sorting datagrams ----

  ghost predicate Oversized(e: EndpointState, data: seq<u8>) {
    |data| > e.config.maxPacketSize + 9
  }

  ghost predicate IsRegular(e: EndpointState, data: seq<u8>) {
    data != [] && !Oversized(e, data) && data[0] % 2 == 0
  }

  ghost predicate IsFragment(e: EndpointState, data: seq<u8>) {
    data != [] && !Oversized(e, data) && data[0] % 2 == 1
  }

  ghost predicate Undecodable(e: EndpointState, data: seq<u8>) {
    IsRegular(e, data) && !WireFormat.IsReadable(data)
  }

  /** Its sequence is behind the receive window, or has been received. */
  ghost predicate StaleOrDuplicate(e: EndpointState, data: seq<u8>) {
    && IsRegular(e, data) && WireFormat.IsReadable(data)
    && var s := WireFormat.LowFirst(data[1], data[2]); !e.received.CanInsert(s) || e.received.Exists(s)
  }

  ghost predicate Truncated(e: EndpointState, data: seq<u8>) {
    IsFragment(e, data) && |data| < 5
  }

  /** The packet header of a first fragment cannot be read. */
  ghost predicate BadFirstFragment(e: EndpointState, data: seq<u8>) {
    IsFragment(e, data) && |data| >= 5 && data[3] == 0 && !WireFormat.IsReadable(data[5..])
  }

  /** An unfragmented datagram that is accepted, or a fragment that delivers its packet. */
  ghost predicate Receives(e: EndpointState, data: seq<u8>)
    requires e.reassembly.Shape()
  {
    || (IsRegular(e, data) && WireFormat.IsReadable(data) && !StaleOrDuplicate(e, data))
    || (IsFragment(e, data) && |ReceivePacket(e, data).incoming| > |e.incoming|)
  }

  function One(b: bool): nat { if b then 1 else 0 }

  /** The sequence at its place in the bytes decides acceptance. */
  lemma AcceptedBySequence(e: EndpointState, data: seq<u8>)
    requires IsRegular(e, data) && WireFormat.IsReadable(data) && !StaleOrDuplicate(e, data)
    ensures AcceptsRegular(e, data, WireFormat.LowFirst(data[1], data[2]))
  {
    WireFormat.HeaderIsRead(data);
    WireFormat.FragmentHeaderIsRead(data);
  }

  // ---- Refusals ----

  /** A datagram that is refused, for whichever reason, raises that reason's counter and changes nothing else;
      a bad first fragment has been counted as received before. */
  lemma RefusalsOnlyCount(e: EndpointState, data: seq<u8>)
    requires e.Valid()
    ensures data == [] ==> ReceivePacket(e, data) == e
    ensures Oversized(e, data) ==>
      ReceivePacket(e, data) == e.(counters := e.counters.(tooLargeToReceive := e.counters.tooLargeToReceive + 1))
    ensures Undecodable(e, data) ==>
      ReceivePacket(e, data) == e.(counters := e.counters.(packetsInvalid := e.counters.packetsInvalid + 1))
    ensures StaleOrDuplicate(e, data) ==>
      ReceivePacket(e, data) == e.(counters := e.counters.(packetsStale := e.counters.packetsStale + 1))
    ensures Truncated(e, data) ==>
      ReceivePacket(e, data) == e.(counters := e.counters.(fragmentsInvalid := e.counters.fragmentsInvalid + 1))
    ensures BadFirstFragment(e, data) ==>
      ReceivePacket(e, data) == e.(counters := e.counters.(fragmentsReceived := e.counters.fragmentsReceived + 1,
                                                           fragmentsInvalid := e.counters.fragmentsInvalid + 1))
  {
    WireFormat.HeaderIsRead(data);
    WireFormat.FragmentHeaderIsRead(data);
    if |data| >= 5 { WireFormat.HeaderIsRead(data[5..]); }
  }

  /** The counters after any reception, but for that of acknowledgements. */
  ghost predicate CountedReception(e: EndpointState, e': EndpointState, data: seq<u8>)
    requires e.reassembly.Shape()
  {
    var c := e.counters;
    e'.counters == Counters(
      c.packetsSent, c.packetsReceived + One(Receives(e, data)), e'.counters.packetsAcked,
      c.packetsStale + One(StaleOrDuplicate(e, data)), c.packetsInvalid + One(Undecodable(e, data)),
      c.tooLargeToSend, c.tooLargeToReceive + One(Oversized(e, data)),
      c.fragmentsSent, c.fragmentsReceived + One(IsFragment(e, data) && |data| >= 5),
      c.fragmentsInvalid + One(Truncated(e, data) || BadFirstFragment(e, data)))
  }

  lemma RegularCounts(e: EndpointState, data: seq<u8>)
    requires e.Valid() && IsRegular(e, data) && WireFormat.IsReadable(data) && !StaleOrDuplicate(e, data)
    ensures CountedReception(e, ReceivePacket(e, data), data)
  {
    WireFormat.HeaderIsRead(data);
    WireFormat.FragmentHeaderIsRead(data);
    var h := Packets.Decode(data).value.0;
    AckingKeepsReassembly(Record(e, h.sequence, |data|), h.ack, h.ackBits, 32);
  }

  /** Reassembly touches no counter but that of received packets, and that exactly if it delivers. */
  lemma ReassemblyCounts(e: EndpointState, h: Fragments.FragmentHeader, body: seq<u8>)
    requires e.reassembly.Shape()
    ensures var e' := Reassemble(e, h, body);
      && e'.counters == e.counters.(packetsReceived := e.counters.packetsReceived + One(|e'.incoming| > |e.incoming|))
  {
  }

  lemma FragmentRaises(e: EndpointState, data: seq<u8>)
    requires e.Valid() && FragmentInput(e, data).Some?
    ensures var c, e' := e.counters, ReceivePacket(e, data);
      e'.counters == c.(packetsReceived := c.packetsReceived + One(|e'.incoming| > |e.incoming|),
                        fragmentsReceived := c.fragmentsReceived + 1, packetsAcked := e'.counters.packetsAcked)
  {
    var fragment, body := FragmentInput(e, data).value.0, FragmentInput(e, data).value.1;
    if fragment.id != 0 {
      ReassemblyCounts(CountFragment(e), fragment, body);
    } else {
      var (base, ack, ackBits) := AckInput(e, data).value;
      AckingKeepsReassembly(base, ack, ackBits, 32);
      ReassemblyCounts(ProcessAcks(base, ack, ackBits, 32), fragment, body);
    }
  }

  lemma FragmentCounts(e: EndpointState, data: seq<u8>)
    requires e.Valid() && IsFragment(e, data) && |data| >= 5 && !BadFirstFragment(e, data)
    ensures CountedReception(e, ReceivePacket(e, data), data)
  {
    WireFormat.FragmentHeaderIsRead(data);
    WireFormat.HeaderIsRead(data[5..]);
    FragmentRaises(e, data);
  }

  lemma ReceptionCounts(e: EndpointState, data: seq<u8>)
    requires e.Valid()
    ensures CountedReception(e, ReceivePacket(e, data), data)
  {
    RefusalsOnlyCount(e, data);
    if IsFragment(e, data) {
      if |data| >= 5 && !BadFirstFragment(e, data) { FragmentCounts(e, data); }
    } else if IsRegular(e, data) && WireFormat.IsReadable(data) && !StaleOrDuplicate(e, data) {
      RegularCounts(e, data);
    }
  }

  // ---- Sending ----

  /** How many fragments an accepted payload is sent in: none if it needs too many, or none. */
  function FragmentCount(c: Config, len: nat): nat
    requires c.fragmentSize > 0
  {
    if c.fragmentAbove < len <= Min(255, c.maxFragments) * c.fragmentSize then Fragments.DivCeil(len, c.fragmentSize) else 0
  }

  lemma FragmentsAreCounted(c: Config, h: Packets.PacketHeader, data: seq<u8>)
    requires c.fragmentSize > 0
    ensures |Datagrams(c, h, data)| == if |data| > c.fragmentAbove then FragmentCount(c, |data|) else 1
  {
    if |data| > c.fragmentAbove {
      Fragments.DivCeilAtMost(|data|, c.fragmentSize, Min(255, c.maxFragments));
    }
  }

  /** A payload that is too large is only counted. Any other takes the next sequence, is tracked with its length
      and that of the lower headers, and is queued as far as there is room; nothing else changes. */
  lemma SendChanges(e: EndpointState, data: seq<u8>)
    requires Invariant(e)
    ensures |data| > e.config.maxPacketSize ==>
      SendPacket(e, data) == e.(counters := e.counters.(tooLargeToSend := e.counters.tooLargeToSend + 1))
    ensures |data| <= e.config.maxPacketSize ==>
      var packets := Datagrams(e.config, OutgoingHeader(e), data);
      SendPacket(e, data) == e.(
        sequence := (e.sequence + 1) % 65536,
        sent := e.sent.Put(e.sent.head, SentData(false, (e.config.packetHeaderSize + |data|) % 0x1_0000_0000)),
        outgoing := e.outgoing + packets[..Min(|packets|, e.config.outgoingSize - |e.outgoing|)],
        counters := e.counters.(packetsSent := e.counters.packetsSent + 1,
                                fragmentsSent := e.counters.fragmentsSent + FragmentCount(e.config, |data|)))
  {
    if |data| <= e.config.maxPacketSize {
      var packets := Datagrams(e.config, OutgoingHeader(e), data);
      NextIsInsertable(e.sent, SentData(false, (e.config.packetHeaderSize + |data|) % 0x1_0000_0000));
      FragmentsAreCounted(e.config, OutgoingHeader(e), data);
      AcceptsUpTo(e.outgoing, e.config.outgoingSize, packets);
    }
  }

  lemma AcceptsUpTo<T>(queue: seq<T>, capacity: nat, items: seq<T>)
    requires |queue| <= capacity
    ensures Accept(queue, capacity, items) == queue + items[..Min(|items|, capacity - |queue|)]
  {
  }

  // ---- Runs ----

  /** By how much a step raises the counters. */
  ghost function Raised(e: EndpointState, step: Step): Counters
    requires Runnable(e)
  {
    match step
    case Send(data) =>
      var fits := |data| <= e.config.maxPacketSize;
      ZERO_COUNTERS.(packetsSent := One(fits), tooLargeToSend := One(!fits),
                     fragmentsSent := if fits then FragmentCount(e.config, |data|) else 0)
    case Receive(data) =>
      ZERO_COUNTERS.(
        packetsReceived := One(Receives(e, data)), packetsAcked := |Flips(e, step)|,
        packetsStale := One(StaleOrDuplicate(e, data)), packetsInvalid := One(Undecodable(e, data)),
        tooLargeToReceive := One(Oversized(e, data)),
        fragmentsReceived := One(IsFragment(e, data) && |data| >= 5),
        fragmentsInvalid := One(Truncated(e, data) || BadFirstFragment(e, data)))
    case _ => ZERO_COUNTERS
  }

  function Plus(a: Counters, b: Counters): Counters {
    Counters(a.packetsSent + b.packetsSent, a.packetsReceived + b.packetsReceived, a.packetsAcked + b.packetsAcked,
             a.packetsStale + b.packetsStale, a.packetsInvalid + b.packetsInvalid,
             a.tooLargeToSend + b.tooLargeToSend, a.tooLargeToReceive + b.tooLargeToReceive,
             a.fragmentsSent + b.fragmentsSent, a.fragmentsReceived + b.fragmentsReceived,
             a.fragmentsInvalid + b.fragmentsInvalid)
  }

  /** The sum over a run. */
  ghost function Tally(start: EndpointState, steps: seq<Step>): Counters
    requires Invariant(start)
    decreases |steps|
  {
    if steps == [] then ZERO_COUNTERS
    else
      var n := |steps| - 1;
      AfterKeepsInvariant(start, steps[..n]);
      Plus(Tally(start, steps[..n]), Raised(After(start, steps[..n]), steps[n]))
  }

  /** The acknowledgement counter is raised by the number of packets newly marked. */
  lemma ReceptionCountsAcks(e: EndpointState, step: Step)
    requires Invariant(e) && step.Receive?
    ensures ReceivePacket(e, step.data).counters.packetsAcked == e.counters.packetsAcked + |Flips(e, step)|
  {
    ReceiveAcks(e, step.data);
    if AckInput(e, step.data).Some? {
      var (base, ack, ackBits) := AckInput(e, step.data).value;
      AckingReports(base, ack, ackBits, 32);
    }
  }

  lemma StepCounts(e: EndpointState, step: Step)
    requires Invariant(e)
    ensures Apply(e, step).counters == Plus(e.counters, Raised(e, step))
  {
    match step {
      case Send(data) => SendChanges(e, data);
      case Receive(data) =>
        ReceptionCounts(e, data);
        ReceptionCountsAcks(e, step);
      case _ =>
    }
  }

  /** Over every run, whatever datagrams it receives, each counter is the number of the steps, fragments or
      packets of its kind. */
  lemma {:induction false} CountersAreTallies(start: EndpointState, steps: seq<Step>)
    requires Invariant(start) && start.counters == ZERO_COUNTERS
    ensures After(start, steps).counters == Tally(start, steps)
    decreases |steps|
  {
    if steps != [] {
      var n := |steps| - 1;
      CountersAreTallies(start, steps[..n]);
      AfterStep(start, steps, n + 1);
      assert steps[..n + 1] == steps;
      StepCounts(After(start, steps[..n]), steps[n]);
    }
  }
}
