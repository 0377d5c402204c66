/** The state of an endpoint and the effect of each of its operations (src/endpoint.rs). */
module EndpointModel {
  import opened Arithmetic
  import opened Bits
  import Fragments
  import Packets
  import opened Sequence
  import opened Windows

  // ---- Configuration (src/config.rs) ----

  datatype Config = Config(
    maxPacketSize: nat, fragmentAbove: nat, maxFragments: nat, fragmentSize: nat,
    ackBufferSize: nat, sentSize: nat, receivedSize: nat, reassemblySize: nat,
    outgoingSize: nat, incomingSize: nat, packetHeaderSize: nat, lossFactor: real)
  {
    /** What `validate` checks. */
    ghost predicate Validated() {
      && maxPacketSize > 0 && fragmentSize > 0 && maxFragments > 0
      && fragmentAbove <= maxPacketSize <= maxFragments * fragmentSize
      && IsPowerOfTwo(sentSize) && sentSize >= 32 && ackBufferSize >= 32
      && IsPowerOfTwo(receivedSize) && IsPowerOfTwo(reassemblySize)
      && IsPowerOfTwo(outgoingSize) && IsPowerOfTwo(incomingSize)
      && 0.0 <= lossFactor <= 1.0
    }

    /** In addition the ring sizes that half-range comparison supports, and word-sized queues. */
    ghost predicate Valid() {
      && Validated()
      && sentSize <= 16384
      && 2 <= receivedSize <= 16384
      && 2 <= reassemblySize <= 16384
      && outgoingSize < 0x1_0000_0000_0000_0000 && incomingSize < 0x1_0000_0000_0000_0000
    }

    function MaxDatagramSize(): nat {
      fragmentSize + Fragments.FRAGMENT_HEADER_BYTES + Packets.MAX_PACKET_HEADER_BYTES
    }
  }

  // ---- State ----

  datatype SentData = SentData(acked: bool, bytes: u32)
  datatype ReceivedData = ReceivedData(bytes: u32)
  datatype Packet = Packet(sequence: u16, data: seq<u8>)

  datatype Counters = Counters(
    packetsSent: nat, packetsReceived: nat, packetsAcked: nat, packetsStale: nat, packetsInvalid: nat,
    tooLargeToSend: nat, tooLargeToReceive: nat, fragmentsSent: nat, fragmentsReceived: nat, fragmentsInvalid: nat)

  const ZERO_COUNTERS := Counters(0, 0, 0, 0, 0, 0, 0, 0, 0, 0)

  datatype EndpointState = EndpointState(
    config: Config, sequence: u16, acks: seq<u16>, counters: Counters, packetLoss: real,
    sent: Window<SentData>, received: Window<ReceivedData>, reassembly: Fragments.Reassembly,
    outgoing: seq<Packet>, incoming: seq<Packet>)
  {
    ghost predicate Valid() {
      && config.Valid()
      && sent.Valid() && sent.size == config.sentSize
      && received.Valid() && received.size == config.receivedSize
      && reassembly.Valid() && reassembly.tracker.size == config.reassemblySize
      && reassembly.maxFragments == config.maxFragments && reassembly.fragmentSize == config.fragmentSize
      && |acks| <= config.ackBufferSize
      && |outgoing| <= config.outgoingSize && |incoming| <= config.incomingSize
    }

    /** The state after construction, and after `reset`: nothing tracked, counted or queued. */
    ghost predicate Initial() {
      && Valid()
      && sequence == 0 && acks == [] && counters == ZERO_COUNTERS && packetLoss == 0.0
      && sent.head == 0 && sent.live == map[]
      && received.head == 0 && received.live == map[]
      && reassembly.Initial()
      && outgoing == [] && incoming == []
    }
  }

  /** The state that construction produces. */
  ghost function Blank(c: Config): EndpointState {
    EndpointState(c, 0, [], ZERO_COUNTERS, 0.0, Window(c.sentSize, 0, map[]), Window(c.receivedSize, 0, map[]),
                  Fragments.BlankReassembly(c.reassemblySize, c.fragmentSize, c.maxFragments), [], [])
  }

  lemma BlankIsInitial(c: Config)
    requires c.Valid()
    ensures Blank(c).Initial()
  {
  }

  // ---- Bounded queues ----

  /** Items join in order; whatever exceeds the capacity is dropped. */
  function Accept<T>(queue: seq<T>, capacity: nat, items: seq<T>): seq<T> {
    (queue + items)[..Min(|queue + items|, Max(capacity, |queue|))]
  }

  // ---- Sending ----

  function PacketBytes(c: Config, len: nat): u32 {
    (c.packetHeaderSize + len) % 0x1_0000_0000
  }

  function OutgoingHeader(e: EndpointState): Packets.PacketHeader {
    Packets.PacketHeader(e.sequence, WrappingSub(e.received.head % 65536, 1), e.received.AckBits(32))
  }

  /** Header and payload, cut to the datagram slot. */
  function RegularDatagram(header: Packets.PacketHeader, data: seq<u8>, capacity: nat): seq<u8>
    requires capacity >= Packets.MAX_PACKET_HEADER_BYTES
  {
    Packets.Encode(header) + data[..Min(|data|, capacity - |Packets.Encode(header)|)]
  }

  /** Fragment `i` of `n`; the first one carries the packet header. */
  function FragmentDatagram(header: Packets.PacketHeader, data: seq<u8>, size: nat, n: u8, i: u8): seq<u8>
    requires i * size <= |data|
  {
    Fragments.EncodeFragment(Fragments.FragmentHeader(header.sequence, i, n))
    + (if i == 0 then Packets.Encode(header) else [])
    + Fragments.Chunk(data, size, i)
  }

  function FragmentPackets(header: Packets.PacketHeader, data: seq<u8>, size: nat, n: u8, k: nat): (packets: seq<Packet>)
    requires size > 0 && data != [] && n == Fragments.DivCeil(|data|, size) && k <= n
    ensures |packets| == k
  {
    if k == 0 then []
    else
      Fragments.ChunkStarts(|data|, size, k - 1);
      FragmentPackets(header, data, size, n, k - 1)
      + [Packet(header.sequence, FragmentDatagram(header, data, size, n, k - 1))]
  }

  /** The datagrams `send_packet` produces for one accepted payload. */
  function Datagrams(c: Config, header: Packets.PacketHeader, data: seq<u8>): seq<Packet>
    requires c.fragmentSize > 0
  {
    if |data| > c.fragmentAbove then
      var n := Fragments.DivCeil(|data|, c.fragmentSize);
      if n > c.maxFragments || n > 255 then [] else FragmentPackets(header, data, c.fragmentSize, n, n)
    else [Packet(header.sequence, RegularDatagram(header, data, c.MaxDatagramSize()))]
  }

  function SendPacket(e: EndpointState, data: seq<u8>): EndpointState
    requires e.config.fragmentSize > 0
  {
    if |data| > e.config.maxPacketSize then
      e.(counters := e.counters.(tooLargeToSend := e.counters.tooLargeToSend + 1))
    else
      var packets := Datagrams(e.config, OutgoingHeader(e), data);
      e.(sequence := WrappingAdd(e.sequence, 1),
         sent := e.sent.Insert(e.sequence, SentData(false, PacketBytes(e.config, |data|))),
         outgoing := Accept(e.outgoing, e.config.outgoingSize, packets),
         counters := e.counters.(
           packetsSent := e.counters.packetsSent + 1,
           fragmentsSent := e.counters.fragmentsSent + if |data| > e.config.fragmentAbove then |packets| else 0))
  }

  // ---- Acknowledgements ----

  function AckOne(e: EndpointState, s: u16): EndpointState {
    match e.sent.Find(s)
    case None => e
    case Some(d) =>
      if d.acked then e
      else ReportAck(e.(sent := e.sent.Write(s, d.(acked := true))), s)
  }

  /** Append to the bounded acknowledgement buffer; the counter counts even what a full buffer drops. */
  function ReportAck(e: EndpointState, s: u16): EndpointState {
    e.(acks := Accept(e.acks, e.config.ackBufferSize, [s]),
       counters := e.counters.(packetsAcked := e.counters.packetsAcked + 1))
  }

  /** The first `k` bits of `process_acks`. */
  function ProcessAcks(e: EndpointState, ack: u16, ackBits: u32, k: nat): EndpointState
    requires k <= 32
  {
    if k == 0 then e
    else
      var before := ProcessAcks(e, ack, ackBits, k - 1);
      if BitSet(ackBits, k - 1) then AckOne(before, WrappingSub(ack, k - 1)) else before
  }

  // ---- Receiving ----

  function ReceivePacket(e: EndpointState, data: seq<u8>): EndpointState
    requires e.reassembly.Shape()
  {
    if data == [] then e
    else if |data| > e.config.maxPacketSize + Packets.MAX_PACKET_HEADER_BYTES then
      e.(counters := e.counters.(tooLargeToReceive := e.counters.tooLargeToReceive + 1))
    else if Packets.IsFragmentPacket(data) then ReceiveFragment(e, data)
    else ReceiveRegular(e, data)
  }

  function ReceiveRegular(e: EndpointState, data: seq<u8>): EndpointState {
    match Packets.Decode(data)
    case None => e.(counters := e.counters.(packetsInvalid := e.counters.packetsInvalid + 1))
    case Some((header, size)) =>
      if !e.received.CanInsert(header.sequence) || e.received.Exists(header.sequence) then
        e.(counters := e.counters.(packetsStale := e.counters.packetsStale + 1))
      else AcceptRegular(e, header, data, size)
  }

  /** Record, process the acknowledgements, deliver the payload, in this order. */
  function AcceptRegular(e: EndpointState, header: Packets.PacketHeader, data: seq<u8>, size: nat): EndpointState {
    var acked := ProcessAcks(Record(e, header.sequence, |data|), header.ack, header.ackBits, 32);
    Push(acked, header.sequence, Rest(data, size))
  }

  /** Count a received packet of `len` bytes and remember its sequence. */
  function Record(e: EndpointState, s: u16, len: nat): EndpointState {
    e.(counters := e.counters.(packetsReceived := e.counters.packetsReceived + 1),
       received := e.received.Insert(s, ReceivedData(PacketBytes(e.config, len))))
  }

  function Rest(data: seq<u8>, from: nat): seq<u8> {
    if from <= |data| then data[from..] else []
  }

  /** A payload, unless empty, joins the incoming queue cut to its slot. */
  function Push(e: EndpointState, s: u16, payload: seq<u8>): EndpointState {
    if payload == [] then e
    else e.(incoming := Accept(e.incoming, e.config.incomingSize,
                               [Packet(s, payload[..Min(|payload|, e.config.maxPacketSize)])]))
  }

  function ReceiveFragment(e: EndpointState, data: seq<u8>): EndpointState
    requires e.reassembly.Shape()
  {
    match Fragments.DecodeFragment(data)
    case None => e.(counters := e.counters.(fragmentsInvalid := e.counters.fragmentsInvalid + 1))
    case Some((fragment, size)) =>
      if fragment.id != 0 then Reassemble(CountFragment(e), fragment, Rest(data, size))
      else ReceiveFirstFragment(CountFragment(e), fragment, Rest(data, size))
  }

  function CountFragment(e: EndpointState): EndpointState {
    e.(counters := e.counters.(fragmentsReceived := e.counters.fragmentsReceived + 1))
  }

  /** The first fragment carries a packet header, whose acknowledgements count at once. */
  function ReceiveFirstFragment(e: EndpointState, fragment: Fragments.FragmentHeader, rest: seq<u8>): EndpointState
    requires e.reassembly.Shape()
  {
    match Packets.Decode(rest)
    case None => e.(counters := e.counters.(fragmentsInvalid := e.counters.fragmentsInvalid + 1))
    case Some((header, size)) =>
      AckingKeepsReassembly(e, header.ack, header.ackBits, 32);
      Reassemble(ProcessAcks(e, header.ack, header.ackBits, 32), fragment, Rest(rest, size))
  }

  /** A completed payload is delivered and recorded, or dropped when the incoming queue is full. */
  function Reassemble(e: EndpointState, h: Fragments.FragmentHeader, body: seq<u8>): EndpointState
    requires e.reassembly.Shape()
  {
    var (r, done) := Fragments.ProcessFragment(e.reassembly, h, body);
    if done.Some? && |e.incoming| < e.config.incomingSize then
      Record(e.(reassembly := r, incoming := e.incoming + [Packet(h.sequence, done.value)]), h.sequence, |done.value|)
    else e.(reassembly := r)
  }

  lemma {:induction false} AckingKeepsReassembly(e: EndpointState, ack: u16, ackBits: u32, k: nat)
    requires k <= 32
    ensures var e' := ProcessAcks(e, ack, ackBits, k);
      e' == e.(sent := e'.sent, acks := e'.acks, counters := e.counters.(packetsAcked := e'.counters.packetsAcked))
    decreases k
  {
    if k > 0 {
      AckingKeepsReassembly(e, ack, ackBits, k - 1);
    }
  }

  /** `copy_to` stays inside the incoming slot it writes to; the source panics otherwise. */
  ghost predicate ReassemblyFits(e: EndpointState, h: Fragments.FragmentHeader, body: seq<u8>)
    requires e.reassembly.Shape()
  {
    var done := Fragments.ProcessFragment(e.reassembly, h, body).1;
    done.Some? && |e.incoming| < e.config.incomingSize ==> |done.value| <= e.config.maxPacketSize
  }

  // ---- Statistics and housekeeping ----

  function Smooth(current: real, sample: real, factor: real): real {
    if -0.00001 < current - sample < 0.00001 then sample else current + (sample - current) * factor
  }

  /** Unacknowledged packets among the `k` oldest but one of the sent window. */
  function Dropped(w: Window<SentData>, k: nat): nat
  {
    if k == 0 then 0
    else
      var u := w.Base() + k;
      Dropped(w, k - 1) + if u in w.live && !w.live[u].acked then 1 else 0
  }

  function UpdateLoss(e: EndpointState): EndpointState
    requires e.config.sentSize >= 2
  {
    var samples := e.config.sentSize / 2;
    if e.sent.head % 65536 < samples % 65536 then e
    else
      var sample := (Dropped(e.sent, samples) as real / samples as real) * 100.0;
      e.(packetLoss := Smooth(e.packetLoss, sample, e.config.lossFactor))
  }

  function ClearAcks(e: EndpointState): EndpointState {
    e.(acks := [])
  }

  function DrainOutgoing(e: EndpointState): EndpointState {
    e.(outgoing := [])
  }

  function DrainIncoming(e: EndpointState): EndpointState {
    e.(incoming := [])
  }

  function Reset(e: EndpointState): EndpointState {
    e.(sequence := 0, acks := [], counters := ZERO_COUNTERS, packetLoss := 0.0,
       sent := e.sent.Reset(), received := e.received.Reset(),
       reassembly := e.reassembly.(tracker := e.reassembly.tracker.Reset()),
       outgoing := [], incoming := [])
  }
}
