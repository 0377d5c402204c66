/** The endpoint itself (src/endpoint.rs): every method has exactly the effect the model gives it. */
module Endpoints {
  import opened Arithmetic
  import opened Bits
  import opened EndpointModel
  import EndpointRuns
  import opened Fragments
  import HeaderIO
  import PacketQueues
  import opened Packets
  import ReassemblyBuffers
  import opened Sequence
  import SequenceBuffers
  import opened Statistics
  import opened Windows

  // ---- Filling a datagram slot ----

  /** Header, then as much of the payload as the buffer still takes. */
  method WriteRegular(header: PacketHeader, data: seq<u8>, buf: array<u8>) returns (n: nat)
    modifies buf
    ensures n <= buf.Length
    ensures buf.Length >= MAX_PACKET_HEADER_BYTES ==> buf[..n] == RegularDatagram(header, data, buf.Length)
  {
    var written := HeaderIO.WriteToSlice(header, buf, 0);
    if written.None? {
      return 0;
    }
    n := WriteRest(data, buf, written.value);
  }

  /** As much of `bytes` as the buffer takes after its first `pos` bytes. */
  method WriteRest(bytes: seq<u8>, buf: array<u8>, pos: nat) returns (n: nat)
    requires pos <= buf.Length
    modifies buf
    ensures pos <= n <= buf.Length
    ensures buf[..n] == old(buf[..pos]) + bytes[..Min(|bytes|, buf.Length - pos)]
  {
    var len := Min(|bytes|, buf.Length - pos);
    ReassemblyBuffers.CopyInto(buf, pos, bytes[..len]);
    n := pos + len;
  }

  /** Fragment header, and the packet header in the first fragment. */
  method WriteFragmentHeaders(header: PacketHeader, fragment: FragmentHeader, buf: array<u8>) returns (pos: nat)
    modifies buf
    ensures pos <= buf.Length
    ensures buf.Length >= FRAGMENT_HEADER_BYTES + MAX_PACKET_HEADER_BYTES ==>
      buf[..pos] == EncodeFragment(fragment) + (if fragment.id == 0 then Encode(header) else [])
  {
    var written := HeaderIO.WriteFragmentToSlice(fragment, buf);
    if written.None? {
      return 0;
    }
    pos := written.value;
    if fragment.id != 0 {
      assert buf[..pos] == EncodeFragment(fragment) + [];
      return;
    }
    ghost var front := buf[..pos];
    var more := HeaderIO.WriteToSlice(header, buf, pos);
    if more.None? {
      return 0;
    }
    assert buf[..pos] == front;
    pos := pos + more.value;
    assert buf[..pos] == front + buf[|front|..pos];
  }

  /** Headers, then as much of the chunk as the buffer still takes. */
  method WriteFragment(header: PacketHeader, fragment: FragmentHeader, chunk: seq<u8>, buf: array<u8>) returns (n: nat)
    modifies buf
    ensures n <= buf.Length
    ensures buf.Length >= FRAGMENT_HEADER_BYTES + MAX_PACKET_HEADER_BYTES + |chunk| ==>
      buf[..n] == EncodeFragment(fragment) + (if fragment.id == 0 then Encode(header) else []) + chunk
  {
    var pos := WriteFragmentHeaders(header, fragment, buf);
    n := WriteRest(chunk, buf, pos);
  }

  class Endpoint {
    const config: Config
    var sequence: u16
    const ackBuf: array<u16>
    var ackCount: nat
    var counters: Counters
    var packetLoss: real
    const sent: SequenceBuffers.SequenceBuffer<SentData>
    const received: SequenceBuffers.SequenceBuffer<ReceivedData>
    const reassembly: ReassemblyBuffers.FragmentReassemblyBuffer
    const outgoing: PacketQueues.PacketQueue
    const incoming: PacketQueues.PacketQueue
    ghost const Repr: set<object>

    /** The parts share nothing, and have the configured sizes. */
    ghost predicate Layout() {
      && this in Repr && ackBuf in Repr
      && sent in sent.Repr && received in received.Repr && reassembly in reassembly.Repr
      && outgoing in outgoing.Repr && incoming in incoming.Repr
      && sent.Repr + received.Repr + reassembly.Repr + outgoing.Repr + incoming.Repr <= Repr
      && {this, ackBuf} !! (sent.Repr + received.Repr + reassembly.Repr + outgoing.Repr + incoming.Repr)
      && sent.Repr !! (received.Repr + reassembly.Repr + outgoing.Repr + incoming.Repr)
      && received.Repr !! (reassembly.Repr + outgoing.Repr + incoming.Repr)
      && reassembly.Repr !! (outgoing.Repr + incoming.Repr)
      && outgoing.Repr !! (incoming.Repr)
      && ackBuf.Length == config.ackBufferSize
      && |outgoing.slots| == config.outgoingSize && outgoing.slotCapacity == config.MaxDatagramSize()
      && |incoming.slots| == config.incomingSize && incoming.slotCapacity == config.maxPacketSize
    }

    ghost function State(): EndpointState
      reads this, ackBuf, sent, received, reassembly, outgoing, incoming
      requires ackCount <= ackBuf.Length
    {
      EndpointState(config, sequence, ackBuf[..ackCount], counters, packetLoss,
                    sent.window, received.window, reassembly.model, outgoing.contents, incoming.contents)
    }

    /** Every part represents its share of the state. */
    ghost predicate Parts()
      reads this, Repr
    {
      && Layout()
      && sent.Valid() && received.Valid() && reassembly.Valid() && outgoing.Valid() && incoming.Valid()
      && ackCount <= ackBuf.Length
    }

    ghost predicate Valid()
      reads this, Repr
    {
      Parts() && EndpointRuns.Invariant(State())
    }

    /** Joins trackers that share nothing with fresh buffers and queues. */
    constructor FromTrackers(config: Config, s: SequenceBuffers.SequenceBuffer<SentData>, r: SequenceBuffers.SequenceBuffer<ReceivedData>,
                             f: ReassemblyBuffers.FragmentReassemblyBuffer)
      requires config.Valid() && s.Valid() && r.Valid() && f.Valid()
      requires s.Repr !! (r.Repr + f.Repr) && r.Repr !! f.Repr
      requires s.window == Blank(config).sent && r.window == Blank(config).received && f.model == Blank(config).reassembly
      ensures Parts() && fresh(Repr - s.Repr - r.Repr - f.Repr)
      ensures State() == Blank(config)
    {
      this.config := config;
      sequence, ackCount, counters, packetLoss := 0, 0, ZERO_COUNTERS, 0.0;
      var acks := new u16[config.ackBufferSize](_ => 0);
      var o := new PacketQueues.PacketQueue(config.outgoingSize, config.MaxDatagramSize());
      var i := new PacketQueues.PacketQueue(config.incomingSize, config.maxPacketSize);
      ackBuf, sent, received, reassembly, outgoing, incoming := acks, s, r, f, o, i;
      Repr := {this, acks} + s.Repr + r.Repr + f.Repr + o.Repr + i.Repr;
    }

    static method NewTrackers(config: Config)
      returns (s: SequenceBuffers.SequenceBuffer<SentData>, r: SequenceBuffers.SequenceBuffer<ReceivedData>,
               f: ReassemblyBuffers.FragmentReassemblyBuffer)
      requires config.Valid()
      ensures s.Valid() && r.Valid() && f.Valid() && fresh(s.Repr) && fresh(r.Repr) && fresh(f.Repr)
      ensures s.Repr !! (r.Repr + f.Repr) && r.Repr !! f.Repr
      ensures s.window == Blank(config).sent && r.window == Blank(config).received && f.model == Blank(config).reassembly
    {
      s := new SequenceBuffers.SequenceBuffer<SentData>(config.sentSize);
      r := new SequenceBuffers.SequenceBuffer<ReceivedData>(config.receivedSize);
      f := new ReassemblyBuffers.FragmentReassemblyBuffer(config.reassemblySize, config.fragmentSize, config.maxFragments);
    }

    static method Assemble(config: Config) returns (e: Endpoint)
      requires config.Valid()
      ensures e.Parts() && fresh(e.Repr) && e.State() == Blank(config)
    {
      var s, r, f := NewTrackers(config);
      e := new Endpoint.FromTrackers(config, s, r, f);
    }

    static method New(config: Config) returns (e: Endpoint)
      requires config.Valid()
      ensures e.Valid() && fresh(e.Repr) && e.State() == Blank(config)
    {
      BlankIsInitial(config);
      EndpointRuns.InitialInvariant(Blank(config));
      e := Assemble(config);
    }

    // ---- Sending ----

    method SendRegularPacket(header: PacketHeader, data: seq<u8>)
      requires outgoing.Valid() && outgoing.slotCapacity == config.MaxDatagramSize()
      modifies outgoing.Repr
      ensures outgoing.Valid()
      ensures outgoing.contents == Accept(old(outgoing.contents), |outgoing.slots|,
        [Packet(header.sequence, RegularDatagram(header, data, config.MaxDatagramSize()))])
    {
      if outgoing.count >= |outgoing.slots| {
        return;
      }
      var slot := outgoing.NextSlot();
      var n := WriteRegular(header, data, slot.data);
      outgoing.ScratchWrite(slot);
      outgoing.Commit(header.sequence, n);
    }

    method SendFragment(header: PacketHeader, fragment: FragmentHeader, chunk: seq<u8>)
      requires outgoing.Valid() && outgoing.slotCapacity == config.MaxDatagramSize() && |chunk| <= config.fragmentSize
      modifies outgoing.Repr
      ensures outgoing.Valid()
      ensures outgoing.contents == Accept(old(outgoing.contents), |outgoing.slots|,
        [Packet(header.sequence, EncodeFragment(fragment) + (if fragment.id == 0 then Encode(header) else []) + chunk)])
    {
      if outgoing.count >= |outgoing.slots| {
        return;
      }
      var slot := outgoing.NextSlot();
      var n := WriteFragment(header, fragment, chunk, slot.data);
      outgoing.ScratchWrite(slot);
      outgoing.Commit(header.sequence, n);
    }

    method SendFragmentedPacket(header: PacketHeader, data: seq<u8>)
      requires outgoing.Valid() && outgoing.slotCapacity == config.MaxDatagramSize()
      requires this !in outgoing.Repr && config.fragmentSize > 0 && |data| > config.fragmentAbove
      modifies `counters, outgoing.Repr
      ensures outgoing.Valid()
      ensures var packets := Datagrams(config, header, data);
        && outgoing.contents == Accept(old(outgoing.contents), |outgoing.slots|, packets)
        && counters == old(counters).(fragmentsSent := old(counters).fragmentsSent + |packets|)
    {
      assert outgoing.contents + [] == outgoing.contents;
      var size := config.fragmentSize;
      var n := DivCeil(|data|, size);
      if n > config.maxFragments || n > 255 {
        return;
      }
      for i := 0 to n
        invariant outgoing.Valid()
        invariant outgoing.contents == Accept(old(outgoing.contents), |outgoing.slots|, FragmentPackets(header, data, size, n, i))
        invariant counters == old(counters).(fragmentsSent := old(counters).fragmentsSent + i)
      {
        ChunkStarts(|data|, size, i);
        EndpointRuns.AcceptTwice(old(outgoing.contents), |outgoing.slots|, FragmentPackets(header, data, size, n, i),
                    [Packet(header.sequence, FragmentDatagram(header, data, size, n, i))]);
        SendFragment(header, FragmentHeader(header.sequence, i, n), Chunk(data, size, i));
        counters := counters.(fragmentsSent := counters.fragmentsSent + 1);
      }
    }

    /** Fragments the payload or sends it whole. */
    method QueueDatagrams(header: PacketHeader, data: seq<u8>)
      requires Parts() && config.fragmentSize > 0
      modifies `counters, outgoing.Repr
      ensures Parts()
      ensures var packets := Datagrams(config, header, data);
        State() == old(State()).(
          outgoing := Accept(old(State()).outgoing, config.outgoingSize, packets),
          counters := old(counters).(
            packetsSent := old(counters).packetsSent + 1,
            fragmentsSent := old(counters).fragmentsSent + if |data| > config.fragmentAbove then |packets| else 0))
    {
      if |data| > config.fragmentAbove {
        SendFragmentedPacket(header, data);
      } else {
        SendRegularPacket(header, data);
      }
      counters := counters.(packetsSent := counters.packetsSent + 1);
    }

    /** The header of the next packet, acknowledging what was received so far. */
    method ComposeHeader() returns (header: PacketHeader)
      requires Parts()
      ensures header == OutgoingHeader(State())
    {
      WrappingSteps(received.window.head, 1);
      var ack, ackBits := received.GenerateAckBits();
      header := PacketHeader(sequence, ack, ackBits);
    }

    /** Takes the next sequence number and tracks it as sent. */
    method TrackSent(len: nat)
      requires Parts()
      modifies `sequence, sent.Repr
      ensures Parts()
      ensures State() == old(State()).(
        sequence := WrappingAdd(old(sequence), 1),
        sent := old(State()).sent.Insert(old(sequence), SentData(false, PacketBytes(config, len))))
    {
      var sequence := this.sequence;
      this.sequence := WrappingAdd(sequence, 1);
      var tracked := sent.Insert(sequence, SentData(false, PacketBytes(config, len)));
    }

    method SendAccepted(data: seq<u8>)
      requires Parts() && config.fragmentSize > 0 && |data| <= config.maxPacketSize
      modifies Repr
      ensures Parts() && State() == EndpointModel.SendPacket(old(State()), data)
    {
      var header := ComposeHeader();
      TrackSent(|data|);
      QueueDatagrams(header, data);
    }

    method Count(counters: Counters)
      requires Parts()
      modifies `counters
      ensures Parts() && State() == old(State()).(counters := counters)
    {
      this.counters := counters;
    }

    method SendPacket(data: seq<u8>)
      requires Valid()
      modifies Repr
      ensures Valid() && State() == EndpointModel.SendPacket(old(State()), data)
    {
      EndpointRuns.SendKeepsInvariant(State(), data);
      if |data| > config.maxPacketSize {
        Count(counters.(tooLargeToSend := counters.tooLargeToSend + 1));
      } else {
        SendAccepted(data);
      }
    }

    // ---- Acknowledgements ----

    method ReportAck(s: u16)
      requires Parts()
      modifies `ackCount, `counters, ackBuf
      ensures Parts() && State() == EndpointModel.ReportAck(old(State()), s)
    {
      AcceptOne(ackBuf[..ackCount], ackBuf.Length, s);
      if ackCount < ackBuf.Length {
        ackBuf[ackCount] := s;
        ackCount := ackCount + 1;
      }
      counters := counters.(packetsAcked := counters.packetsAcked + 1);
    }

    method MarkAcked(s: u16, data: SentData)
      requires Parts() && sent.window.Exists(s)
      modifies sent.Repr
      ensures Parts() && State() == old(State()).(sent := old(State()).sent.Write(s, data.(acked := true)))
    {
      sent.Write(s, data.(acked := true));
    }

    method AckOne(s: u16)
      requires Parts()
      modifies `ackCount, `counters, ackBuf, sent.Repr
      ensures Parts() && State() == EndpointModel.AckOne(old(State()), s)
    {
      var found := sent.Find(s);
      if found.Some? && !found.value.acked {
        MarkAcked(s, found.value);
        ReportAck(s);
      }
    }

    method ProcessAcks(ack: u16, ackBits: u32)
      requires Parts()
      modifies `ackCount, `counters, ackBuf, sent.Repr
      ensures Parts() && State() == EndpointModel.ProcessAcks(old(State()), ack, ackBits, 32)
    {
      for i := 0 to 32
        invariant Parts() && State() == EndpointModel.ProcessAcks(old(State()), ack, ackBits, i)
      {
        if BitSet(ackBits, i) {
          AckOne(WrappingSub(ack, i));
        }
      }
    }

    method GetAcks() returns (acks: seq<u16>)
      requires Valid()
      ensures acks == State().acks
    {
      acks := ackBuf[..ackCount];
    }

    method ClearAcks()
      requires Valid()
      modifies `ackCount
      ensures Valid() && State() == EndpointModel.ClearAcks(old(State())) == old(State()).(acks := [])
    {
      ackCount := 0;
    }

    // ---- Receiving ----

    method RecordReceived(s: u16, len: nat)
      requires Parts()
      modifies `counters, received.Repr
      ensures Parts() && State() == EndpointModel.Record(old(State()), s, len)
    {
      counters := counters.(packetsReceived := counters.packetsReceived + 1);
      var tracked := received.Insert(s, ReceivedData(PacketBytes(config, len)));
    }

    method PushIncoming(s: u16, payload: seq<u8>)
      requires Parts()
      modifies incoming.Repr
      ensures Parts() && State() == EndpointModel.Push(old(State()), s, payload)
    {
      if payload != [] {
        var stored := incoming.Push(s, payload);
      }
    }

    /** Not too old and not a duplicate. */
    method IsNew(s: u16) returns (isNew: bool)
      requires Parts()
      ensures isNew == (State().received.CanInsert(s) && !State().received.Exists(s))
    {
      isNew := received.CanInsert(s);
      if isNew {
        var duplicate := received.Exists(s);
        isNew := !duplicate;
      }
    }

    method AcceptRegularPacket(header: PacketHeader, data: seq<u8>, size: nat)
      requires Parts()
      modifies Repr
      ensures Parts()
      ensures State() == EndpointModel.AcceptRegular(old(State()), header, data, size)
    {
      RecordReceived(header.sequence, |data|);
      ProcessAcks(header.ack, header.ackBits);
      PushIncoming(header.sequence, Rest(data, size));
    }

    method ReceiveRegularPacket(data: seq<u8>)
      requires Parts()
      modifies Repr
      ensures Parts() && State() == EndpointModel.ReceiveRegular(old(State()), data)
    {
      var read := HeaderIO.Read(data);
      if read.None? {
        Count(counters.(packetsInvalid := counters.packetsInvalid + 1));
        return;
      }
      var accepted := IsNew(read.value.0.sequence);
      if accepted {
        AcceptRegularPacket(read.value.0, data, read.value.1);
      } else {
        Count(counters.(packetsStale := counters.packetsStale + 1));
      }
    }

    /** Reassembly delivers straight into the incoming queue. */
    method ProcessFragment(h: FragmentHeader, body: seq<u8>) returns (payloadLen: Option<nat>)
      requires Parts() && ReassemblyFits(State(), h, body)
      modifies reassembly.Repr, incoming.Repr
      ensures Parts()
      ensures var (r, done) := Fragments.ProcessFragment(old(State()).reassembly, h, body);
        if done.Some? && |old(State()).incoming| < config.incomingSize
        then payloadLen == Some(|done.value|)
             && State() == old(State()).(reassembly := r, incoming := old(State()).incoming + [Packet(h.sequence, done.value)])
        else payloadLen == None && State() == old(State()).(reassembly := r)
    {
      payloadLen := reassembly.ProcessFragment(h, body, incoming);
    }

    method Reassemble(h: FragmentHeader, body: seq<u8>)
      requires Parts() && ReassemblyFits(State(), h, body)
      modifies Repr
      ensures Parts() && State() == EndpointModel.Reassemble(old(State()), h, body)
    {
      var payloadLen := ProcessFragment(h, body);
      if payloadLen.Some? {
        RecordReceived(h.sequence, payloadLen.value);
      }
    }

    /** The first fragment carries a packet header, whose acknowledgements count at once. */
    method ReceiveFirstFragment(fragment: FragmentHeader, rest: seq<u8>)
      requires Parts()
      requires Decode(rest).Some? ==> ReassemblyFits(State(), fragment, Rest(rest, Decode(rest).value.1))
      modifies Repr
      ensures Parts()
      ensures State() == EndpointModel.ReceiveFirstFragment(old(State()), fragment, rest)
    {
      var read := HeaderIO.Read(rest);
      if read.None? {
        Count(counters.(fragmentsInvalid := counters.fragmentsInvalid + 1));
        return;
      }
      var (header, size) := read.value;
      AckingKeepsReassembly(State(), header.ack, header.ackBits, 32);
      ProcessAcks(header.ack, header.ackBits);
      Reassemble(fragment, Rest(rest, size));
    }

    method DispatchFragment(fragment: FragmentHeader, rest: seq<u8>)
      requires Parts()
      requires DispatchFits(State(), fragment, rest)
      modifies Repr
      ensures Parts()
      ensures State() ==
        if fragment.id != 0 then EndpointModel.Reassemble(old(State()), fragment, rest)
        else EndpointModel.ReceiveFirstFragment(old(State()), fragment, rest)
    {
      if fragment.id == 0 {
        ReceiveFirstFragment(fragment, rest);
      } else {
        Reassemble(fragment, rest);
      }
    }

    method CountAndDispatch(fragment: FragmentHeader, rest: seq<u8>)
      requires Parts() && DispatchFits(CountFragment(State()), fragment, rest)
      modifies Repr
      ensures Parts()
      ensures State() ==
        if fragment.id != 0 then EndpointModel.Reassemble(CountFragment(old(State())), fragment, rest)
        else EndpointModel.ReceiveFirstFragment(CountFragment(old(State())), fragment, rest)
    {
      Count(counters.(fragmentsReceived := counters.fragmentsReceived + 1));
      DispatchFragment(fragment, rest);
    }

    method ReceiveFragment(data: seq<u8>)
      requires Parts() && data != [] && |data| <= config.maxPacketSize + MAX_PACKET_HEADER_BYTES
      requires IsFragmentPacket(data) && EndpointRuns.Fits(State(), data)
      modifies Repr
      ensures Parts() && State() == EndpointModel.ReceiveFragment(old(State()), data)
    {
      var read := DecodeFragment(data);
      if read.None? {
        Count(counters.(fragmentsInvalid := counters.fragmentsInvalid + 1));
      } else {
        FitsDispatch(State(), data);
        CountAndDispatch(read.value.0, Rest(data, read.value.1));
      }
    }

    method ReceivePacket(data: seq<u8>)
      requires Valid() && EndpointRuns.Fits(State(), data)
      modifies Repr
      ensures Valid() && State() == EndpointModel.ReceivePacket(old(State()), data)
    {
      EndpointRuns.ReceiveKeepsInvariant(State(), data);
      if data == [] {
        return;
      }
      if |data| > config.maxPacketSize + MAX_PACKET_HEADER_BYTES {
        Count(counters.(tooLargeToReceive := counters.tooLargeToReceive + 1));
        return;
      }
      if IsFragmentPacket(data) {
        ReceiveFragment(data);
      } else {
        ReceiveRegularPacket(data);
      }
    }

    // ---- Draining ----

    method DrainOutgoing() returns (packets: seq<Packet>)
      requires Valid()
      modifies outgoing.Repr
      ensures Valid() && packets == old(State()).outgoing
      ensures State() == EndpointModel.DrainOutgoing(old(State())) == old(State()).(outgoing := [])
    {
      packets := outgoing.Drain();
    }

    method DrainIncoming() returns (packets: seq<Packet>)
      requires Valid()
      modifies incoming.Repr
      ensures Valid() && packets == old(State()).incoming
      ensures State() == EndpointModel.DrainIncoming(old(State())) == old(State()).(incoming := [])
    {
      packets := incoming.Drain();
    }

    // ---- Statistics ----

    method CountDropped(samples: nat) returns (dropped: nat)
      requires sent.Valid() && samples < sent.window.size
      ensures dropped == Dropped(sent.window, samples)
    {
      ScanBase(sent.window, 1);
      var base := WrappingAdd(WrappingSub(sent.sequence, sent.entries.Length), 1);
      dropped := 0;
      for i := 0 to samples
        invariant dropped == Dropped(sent.window, i)
      {
        var found := FindAt(sent, base, sent.window.Base() + 1, i);
        if found.Some? && !found.value.acked {
          dropped := dropped + 1;
        }
      }
    }

    method UpdatePacketLoss()
      requires Valid()
      modifies `packetLoss
      ensures Valid() && State() == EndpointModel.UpdateLoss(old(State())) && LossUpdated(old(State()), State())
    {
      EndpointRuns.UpdateKeepsInvariant(State());
      UpdateMovesLoss(State());
      var samples := config.sentSize / 2;
      if sent.sequence < samples % 65536 {
        return;
      }
      var dropped := CountDropped(samples);
      var loss := (dropped as real / samples as real) * 100.0;
      packetLoss := Smooth(packetLoss, loss, config.lossFactor);
    }

    /** The byte sums of `update_bandwidth`. */
    method BandwidthBytes() returns (sentBytes: nat, receivedBytes: nat, ackedBytes: nat)
      requires Valid()
      ensures sentBytes == SentBytes(State().sent) && receivedBytes == ReceivedBytes(State().received)
      ensures ackedBytes == AckedBytes(State().sent) <= sentBytes
    {
      sentBytes := ScanBytes(sent, SENT_WEIGHT);
      receivedBytes := ScanBytes(received, RECEIVED_WEIGHT);
      ackedBytes := ScanBytes(sent, ACKED_WEIGHT);
      ScansAddBytes(sent.window, received.window);
      AckedAtMostSentBytes(sent.window);
    }

    method ResetTrackers()
      requires Parts()
      modifies sent.Repr, received.Repr, reassembly.Repr
      requires reassembly.Valid()
      ensures Parts()
      ensures var e := old(State()); State() == e.(
        sent := e.sent.Reset(), received := e.received.Reset(),
        reassembly := e.reassembly.(tracker := e.reassembly.tracker.Reset()))
    {
      sent.Reset();
      received.Reset();
      reassembly.Reset();
    }

    method ClearQueues()
      requires Parts()
      modifies outgoing.Repr, incoming.Repr
      ensures Parts() && State() == old(State()).(outgoing := [], incoming := [])
    {
      outgoing.Clear();
      incoming.Clear();
    }

    method Reset()
      requires Valid()
      modifies Repr
      ensures Valid() && State() == EndpointModel.Reset(old(State())) && State().Initial() && State().config == old(State()).config
    {
      EndpointRuns.ResetIsInitial(State());
      EndpointRuns.InitialInvariant(EndpointModel.Reset(State()));
      ResetTrackers();
      ClearQueues();
      sequence, ackCount, counters, packetLoss := 0, 0, ZERO_COUNTERS, 0.0;
    }
  }

  lemma AcceptOne<T>(queue: seq<T>, capacity: nat, item: T)
    requires |queue| <= capacity
    ensures Accept(queue, capacity, [item]) == if |queue| < capacity then queue + [item] else queue
  {
  }

  ghost predicate DispatchFits(e: EndpointState, fragment: FragmentHeader, rest: seq<u8>)
    requires e.reassembly.Shape()
  {
    if fragment.id != 0 then ReassemblyFits(e, fragment, rest)
    else Decode(rest).Some? ==> ReassemblyFits(e, fragment, Rest(rest, Decode(rest).value.1))
  }

  /** A fragment that fits before it is counted fits afterwards, whichever way it is dispatched. */
  lemma FitsDispatch(e: EndpointState, data: seq<u8>)
    requires e.reassembly.Shape() && EndpointRuns.Fits(e, data)
    requires data != [] && |data| <= e.config.maxPacketSize + MAX_PACKET_HEADER_BYTES
    requires IsFragmentPacket(data) && DecodeFragment(data).Some?
    ensures var (fragment, size) := DecodeFragment(data).value; var rest := Rest(data, size);
      DispatchFits(CountFragment(e), fragment, rest)
  {
  }

  lemma ScanBase<T>(w: Window<T>, offset: nat)
    requires w.Valid() && offset <= 1
    ensures WrappingSub(w.head % 65536, w.size) == w.Base() % 65536
    ensures WrappingAdd(w.Base() % 65536, offset) == (w.Base() + offset) % 65536
  {
    WrappingSteps(w.head, w.size);
    WrappingSteps(w.Base(), offset);
  }

  /** Looking up the `i`-th sequence from a base in the window finds exactly that number. */
  lemma ScanProbe<T>(w: Window<T>, base: u16, first: int, i: nat)
    requires w.Valid() && w.Base() <= first && first + i < w.head && base == first % 65536
    ensures w.Find(WrappingAdd(base, i)) == At(w, first + i)
  {
    WrappingSteps(first, i);
    w.ResolveExact(first + i);
    assert w.Resolve((first + i) % 65536) == first + i;
  }

  function At<T>(w: Window<T>, u: int): Option<T> {
    if u in w.live then Some(w.live[u]) else None
  }

  method FindAt<T>(buffer: SequenceBuffers.SequenceBuffer<T>, base: u16, ghost first: int, i: nat) returns (found: Option<T>)
    requires buffer.Valid() && buffer.window.Base() <= first && first + i < buffer.window.head && base == first % 65536
    ensures found == At(buffer.window, first + i)
  {
    ScanProbe(buffer.window, base, first, i);
    found := buffer.Find(WrappingAdd(base, i));
  }

  method ScanBytes<T>(buffer: SequenceBuffers.SequenceBuffer<T>, weight: T -> nat) returns (bytes: nat)
    requires buffer.Valid()
    ensures bytes == Scan(buffer.window, weight, buffer.window.size)
  {
    ScanBase(buffer.window, 0);
    var base := WrappingSub(buffer.sequence, buffer.entries.Length);
    bytes := 0;
    for i := 0 to buffer.entries.Length
      invariant bytes == Scan(buffer.window, weight, i)
    {
      var found := FindAt(buffer, base, buffer.window.Base(), i);
      if found.Some? {
        bytes := bytes + weight(found.value);
      }
    }
  }
}
