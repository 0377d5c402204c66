/**
  What the application receives over a run of the pair: that every delivery fits its slot, that it is
  what was sent, and that an unfragmented packet comes once. The three need different promises of the
  network: none, no mixing of packets in a slot, and timeliness.
 */
module Integrity {
  import opened Arithmetic
  import opened Bits
  import Datagram
  import opened EndpointModel
  import opened EndpointRuns
  import Fragments
  import opened Network
  import Packets
  import opened ReassemblyRuns

  /** What the two configurations must agree on for payloads to survive the trip. */
  ghost predicate Compatible(sender: Config, receiver: Config) {
    && sender.fragmentSize <= receiver.fragmentSize <= 65535
    && sender.fragmentAbove <= sender.fragmentSize + Fragments.FRAGMENT_HEADER_BYTES
    && sender.maxPacketSize <= receiver.maxPacketSize
  }

  // ---- Every delivery fits ----

  /** A stored part is no longer than a chunk, and the last one ends within the limit. */
  ghost predicate PartFits(i: nat, len: nat, count: nat, size: nat, limit: nat) {
    if i + 1 < count then len <= size else i * size + len <= limit
  }

  ghost predicate PartsFit(parts: map<nat, seq<u8>>, count: nat, size: nat, limit: nat) {
    forall i <- parts :: PartFits(i, |parts[i]|, count, size, limit)
  }

  /** Whatever packets its parts are from, no slot can complete beyond the limit. */
  ghost predicate SlotsFit(r: Fragments.Reassembly, size: nat, limit: nat)
    requires r.Shape()
  {
    forall q: u16 | Open(r, q).Some? :: PartsFit(Open(r, q).value.parts, Open(r, q).value.count, size, limit)
  }

  lemma ChunkFits(a: Arrival, payload: seq<u8>, size: nat, slotSize: nat, limit: nat)
    requires size > 0 && FromSplit(a, payload, size) && |payload| <= limit
    ensures PartFits(a.h.id, |Fragments.Stored(a.data, slotSize)|, a.h.count, size, limit)
  {
    assert |Fragments.Stored(a.data, slotSize)| <= |a.data|;
  }

  lemma AssembledFits(parts: map<nat, seq<u8>>, count: nat, size: nat, limit: nat)
    requires PartsFit(parts, count, size, limit) && count > 0 && Full(parts, count)
    ensures |Fragments.Assemble(parts, count)| <= limit
  {
    AssembledAtMost(parts, size, count - 1);
    assert count - 1 in parts && PartFits(count - 1, |parts[count - 1]|, count, size, limit);
  }

  /** An honest fragment keeps every slot within the limit of its sender, even one of another packet. */
  lemma FragmentKeepsFit(r: Fragments.Reassembly, a: Arrival, payload: seq<u8>, size: nat, limit: nat)
    requires r.Valid() && SlotsFit(r, size, limit)
    requires size > 0 && FromSplit(a, payload, size) && |payload| <= limit
    ensures var (r', done) := Fragments.ProcessFragment(r, a.h, a.data);
      r'.Shape() && SlotsFit(r', size, limit) && (done.Some? ==> |done.value| <= limit)
  {
    var r' := Fragments.ProcessFragment(r, a.h, a.data).0;
    SameSequence(r, a.h, a.data);
    forall q: u16 | q != a.h.sequence
      ensures Open(r', q) == Open(r, q) || Open(r', q) == None
    {
      OtherSequence(r, a.h, a.data, q);
    }
    if Accepted(r, a.h) {
      var parts := PartsSoFar(r, a.h.sequence)[a.h.id := Fragments.Stored(a.data, r.fragmentSize)];
      ChunkFits(a, payload, size, r.fragmentSize, limit);
      assert PartsFit(parts, a.h.count, size, limit);
      if Full(parts, a.h.count) {
        AssembledFits(parts, a.h.count, size, limit);
      }
    }
  }

  ghost predicate Roomy(x: Node, y: Node) {
    x.ep.reassembly.Shape() && SlotsFit(x.ep.reassembly, y.ep.config.fragmentSize, y.ep.config.maxPacketSize)
  }

  lemma ReceivedKeepsRoomy(x: Node, y: Node, em: Emission)
    requires Own(x) && Own(y) && Roomy(x, y) && Honest(y, em)
    ensures Roomy(ReceiveEmission(x, em), y)
    ensures y.ep.config.maxPacketSize <= x.ep.config.maxPacketSize ==> Fits(x.ep, em.bytes)
  {
    var h, k :| Carries(y, em, h, k);
    HonestReads(x.ep, y, em, h, k);
    ReceiveRecords(x.ep, em.bytes);
    match FragmentInput(x.ep, em.bytes) {
      case None =>
      case Some((fragment, body)) =>
        FragmentKeepsFit(x.ep.reassembly, Arrival(fragment, body), y.sends[em.number],
                         y.ep.config.fragmentSize, y.ep.config.maxPacketSize);
    }
  }

  lemma MoveKeepsRoomy(x: Node, y: Node, move: Move, promise: Promise)
    requires Own(x) && Own(y) && Roomy(x, y)
    ensures Roomy(Move1(x, y, move, promise), y)
  {
    if move.Deliver? {
      if move.i < |y.emitted| { ReceivedKeepsRoomy(x, y, y.emitted[move.i]); }
    } else {
      LocalKeepsReassembly(x, y, move, promise);
    }
  }

  /** Moves other than a delivery leave what was received in place. */
  lemma LocalKeepsReassembly(x: Node, y: Node, move: Move, promise: Promise)
    requires Runnable(x.ep) && !move.Deliver?
    ensures var x' := Move1(x, y, move, promise);
      && x'.ep.reassembly == x.ep.reassembly && x'.openers == x.openers && x'.inbox == x.inbox
      && x'.ep.received == x.ep.received && x'.recorded == x.recorded
      && (x'.ep.incoming == x.ep.incoming || x'.ep.incoming == [])
  {
  }

  lemma NextKeepsRoomy(s: System, move: (bool, Move), promise: Promise)
    requires Own(s.a) && Own(s.b) && Roomy(s.a, s.b) && Roomy(s.b, s.a)
    ensures var s' := Next(s, move, promise); Roomy(s'.a, s'.b) && Roomy(s'.b, s'.a)
  {
    var x, y := Side(s, move.0), Side(s, !move.0);
    MoveKeepsRoomy(x, y, move.1, promise);
    PeerGrowthKeepsRoomy(x, y, move.1, promise);
  }

  lemma PeerGrowthKeepsRoomy(x: Node, y: Node, move: Move, promise: Promise)
    requires Own(x) && Roomy(y, x)
    ensures Roomy(y, Move1(x, y, move, promise))
  {
    MoveKeepsOwn(x, y, move, promise);
  }

  lemma {:induction false} RunsStayRoomy(start: System, moves: seq<(bool, Move)>, promise: Promise)
    requires Fresh(start.a) && Fresh(start.b)
    ensures var s := AfterMoves(start, moves, promise); Roomy(s.a, s.b) && Roomy(s.b, s.a)
    decreases |moves|
  {
    if moves != [] {
      var n := |moves| - 1;
      RunsStayRoomy(start, moves[..n], promise);
      RunsStayOwn(start, moves[..n], promise);
      NextKeepsRoomy(AfterMoves(start, moves[..n], promise), moves[n], promise);
    }
  }

  /** Whatever the network delivers and however stale, no datagram of an endpoint whose packets are no
      larger than the receiver's makes the receiver overrun an incoming slot. */
  lemma DeliveriesFit(start: System, moves: seq<(bool, Move)>, promise: Promise, receiver: bool, i: nat)
    requires Fresh(start.a) && Fresh(start.b)
    requires Side(start, !receiver).ep.config.maxPacketSize <= Side(start, receiver).ep.config.maxPacketSize
    requires i < |Side(AfterMoves(start, moves, promise), !receiver).emitted|
    ensures var s := AfterMoves(start, moves, promise); var x, y := Side(s, receiver), Side(s, !receiver);
      x.ep.reassembly.Shape() && Fits(x.ep, y.emitted[i].bytes)
  {
    RunsStayRoomy(start, moves, promise);
    RunsStayOwn(start, moves, promise);
    var s := AfterMoves(start, moves, promise);
    ReceivedKeepsRoomy(Side(s, receiver), Side(s, !receiver), Side(s, !receiver).emitted[i]);
  }

  // ---- Every delivery is what was sent ----

  /** Every open slot holds chunks of the packet that opened it. */
  ghost predicate SlotsIntact(r: Fragments.Reassembly, openers: map<u16, int>, sends: seq<seq<u8>>, size: nat)
    requires r.Shape() && size > 0
  {
    forall q: u16 | Open(r, q).Some? ::
      q in openers && 0 <= openers[q] < |sends| && ConsistentWith(r, q, sends[openers[q]], size)
  }

  ghost predicate InboxIntact(inbox: seq<Delivery>, sends: seq<seq<u8>>) {
    forall d <- inbox :: 0 <= d.number < |sends| && d.packet == Packet(d.number % 65536, sends[d.number])
  }

  ghost predicate Intact(x: Node, y: Node) {
    && x.ep.reassembly.Shape() && y.ep.config.fragmentSize > 0
    && SlotsIntact(x.ep.reassembly, x.openers, y.sends, y.ep.config.fragmentSize)
    && InboxIntact(x.inbox, y.sends)
  }

  lemma EvictedOrSame(r: Fragments.Reassembly, r': Fragments.Reassembly, q: u16, payload: seq<u8>, size: nat)
    requires r.Shape() && r'.Shape() && size > 0
    requires Open(r', q) == Open(r, q) || Open(r', q) == None
    requires ConsistentWith(r, q, payload, size)
    ensures ConsistentWith(r', q, payload, size)
  {
  }

  /** A fragment of packet `number`, if it is stored in an open slot at all, finds one that its packet opened. */
  ghost predicate Meets(r: Fragments.Reassembly, openers: map<u16, int>, a: Arrival, number: int)
    requires r.Shape()
  {
    Accepted(r, a.h) && r.tracker.Exists(a.h.sequence) ==>
      a.h.sequence in openers && openers[a.h.sequence] == number
  }

  /** Such a fragment keeps all slots intact and completes only with its own packet. */
  lemma FragmentKeepsIntact(r: Fragments.Reassembly, openers: map<u16, int>, a: Arrival, sends: seq<seq<u8>>, number: int, size: nat)
    requires r.Valid() && 0 < size <= r.fragmentSize <= 65535 && SlotsIntact(r, openers, sends, size)
    requires 0 <= number < |sends| && a.h.sequence == number % 65536 && FromSplit(a, sends[number], size)
    requires Meets(r, openers, a, number)
    ensures var (r', done) := Fragments.ProcessFragment(r, a.h, a.data);
      && r'.Shape() && SlotsIntact(r', Opened(openers, r.tracker, r'.tracker, number), sends, size)
      && (done.Some? ==> done.value == sends[number])
  {
    SameSequence(r, a.h, a.data);
    if Accepted(r, a.h) {
      ConsistentStep(r, a, sends[number], size);
      var r' := Fragments.ProcessFragment(r, a.h, a.data).0;
      var openers' := Opened(openers, r.tracker, r'.tracker, number);
      forall q: u16 | Open(r', q).Some?
        ensures q in openers' && 0 <= openers'[q] < |sends| && ConsistentWith(r', q, sends[openers'[q]], size)
      {
        if q != a.h.sequence {
          OtherSequence(r, a.h, a.data, q);
          EvictedOrSame(r, r', q, sends[openers[q]], size);
        }
      }
    }
  }

  /** An unfragmented payload within the limits arrives uncut. */
  lemma RegularArrivesWhole(e: EndpointState, h: Packets.PacketHeader, data: seq<u8>, c: Config)
    requires e.reassembly.Shape() && Compatible(c, e.config) && |data| <= c.fragmentAbove && |data| <= c.maxPacketSize
    requires var bytes := RegularDatagram(h, data, c.MaxDatagramSize());
      FragmentInput(e, bytes) == None && AcceptsRegular(e, bytes, h.sequence)
    ensures Arriving(e, RegularDatagram(h, data, c.MaxDatagramSize())) == if data == [] then [] else [Packet(h.sequence, data)]
  {
    Datagram.ReadRegularDatagram(h, data, c.MaxDatagramSize());
    assert data[..|data|] == data;
  }

  /** What an honest unmixed datagram puts into the incoming queue is the packet it belongs to. */
  lemma ArrivingIsSent(x: Node, y: Node, em: Emission, h: Packets.PacketHeader, k: nat)
    requires x.ep.Valid() && Runnable(x.ep) && Intact(x, y) && Carries(y, em, h, k) && Unmixed(x, em)
    requires Compatible(y.ep.config, x.ep.config) && |y.sends[em.number]| <= y.ep.config.maxPacketSize
    ensures forall p <- Arriving(x.ep, em.bytes) :: p == Packet(em.number % 65536, y.sends[em.number])
    ensures var x' := ReceiveEmission(x, em);
      x'.ep.reassembly.Shape() && SlotsIntact(x'.ep.reassembly, x'.openers, y.sends, y.ep.config.fragmentSize)
  {
    HonestReads(x.ep, y, em, h, k);
    ReceiveRecords(x.ep, em.bytes);
    match FragmentInput(x.ep, em.bytes) {
      case Some((fragment, body)) =>
        FragmentKeepsIntact(x.ep.reassembly, x.openers, Arrival(fragment, body), y.sends, em.number, y.ep.config.fragmentSize);
      case None =>
        if AcceptsRegular(x.ep, em.bytes, em.number % 65536) {
          RegularArrivesWhole(x.ep, h, y.sends[em.number], y.ep.config);
        }
    }
  }

  lemma InboxGrows(x: Node, em: Emission)
    requires x.ep.Valid() && Runnable(x.ep)
    ensures var x' := ReceiveEmission(x, em); var arriving := Arriving(x.ep, em.bytes);
      && |x.inbox| <= |x'.inbox| <= |x.inbox| + |arriving| && |arriving| <= 1
      && x'.inbox[..|x.inbox|] == x.inbox
      && (forall i | |x.inbox| <= i < |x'.inbox| :: x'.inbox[i] == Delivery(em.number, arriving[0]))
  {
    ReceiveDelivers(x.ep, em.bytes);
    AcceptIsPrefix(x.ep.incoming, x.ep.config.incomingSize, Arriving(x.ep, em.bytes));
  }

  lemma ReceivedKeepsIntact(x: Node, y: Node, em: Emission)
    requires Own(x) && Own(y) && Intact(x, y) && Honest(y, em) && Compatible(y.ep.config, x.ep.config) && Unmixed(x, em)
    ensures Intact(ReceiveEmission(x, em), y)
  {
    var h, k :| Carries(y, em, h, k);
    ArrivingIsSent(x, y, em, h, k);
    InboxIntactAfter(x, em, y.sends);
  }

  lemma InboxIntactAfter(x: Node, em: Emission, sends: seq<seq<u8>>)
    requires x.ep.Valid() && Runnable(x.ep) && InboxIntact(x.inbox, sends) && 0 <= em.number < |sends|
    requires forall p <- Arriving(x.ep, em.bytes) :: p == Packet(em.number % 65536, sends[em.number])
    ensures InboxIntact(ReceiveEmission(x, em).inbox, sends)
  {
    var x' := ReceiveEmission(x, em);
    InboxGrows(x, em);
    forall i | 0 <= i < |x'.inbox|
      ensures 0 <= x'.inbox[i].number < |sends|
      ensures x'.inbox[i].packet == Packet(x'.inbox[i].number % 65536, sends[x'.inbox[i].number])
    {
      if i < |x.inbox| {
        assert x'.inbox[i] == x'.inbox[..|x.inbox|][i] && x.inbox[i] in x.inbox;
      } else {
        assert Arriving(x.ep, em.bytes)[0] in Arriving(x.ep, em.bytes);
      }
    }
  }

  /** The queue holds the most recent packets of the inbox. */
  ghost predicate IsTail(queue: seq<Packet>, inbox: seq<Delivery>) {
    && |queue| <= |inbox|
    && (forall i | 0 <= i < |queue| :: queue[i] == inbox[|inbox| - |queue| + i].packet)
  }

  lemma TailGrows(queue: seq<Packet>, inbox: seq<Delivery>, more: seq<Packet>, number: int)
    requires IsTail(queue, inbox)
    ensures IsTail(queue + more, inbox + Labelled(more, number))
  {
  }

  lemma ReceivedKeepsTail(x: Node, em: Emission)
    requires x.ep.Valid() && Runnable(x.ep) && IsTail(x.ep.incoming, x.inbox)
    ensures var x' := ReceiveEmission(x, em); IsTail(x'.ep.incoming, x'.inbox)
  {
    var after := ReceivePacket(x.ep, em.bytes).incoming;
    var more := NewPackets(x.ep.incoming, after);
    ReceiveDelivers(x.ep, em.bytes);
    AcceptIsPrefix(x.ep.incoming, x.ep.config.incomingSize, Arriving(x.ep, em.bytes));
    assert after == x.ep.incoming + more;
    TailGrows(x.ep.incoming, x.inbox, more, em.number);
  }

  ghost predicate Delivered(x: Node, y: Node) {
    Intact(x, y) && IsTail(x.ep.incoming, x.inbox)
  }

  lemma MoveKeepsDelivered(x: Node, y: Node, move: Move, promise: Promise)
    requires Own(x) && Own(y) && Delivered(x, y) && Compatible(y.ep.config, x.ep.config) && promise.unmixed
    ensures Delivered(Move1(x, y, move, promise), y)
  {
    if move.Deliver? {
      if move.i < |y.emitted| && Deliverable(x, y.emitted[move.i], promise) {
        ReceivedKeepsIntact(x, y, y.emitted[move.i]);
        ReceivedKeepsTail(x, y.emitted[move.i]);
      }
    } else {
      LocalKeepsReassembly(x, y, move, promise);
    }
  }

  lemma PeerGrowthKeepsDelivered(x: Node, y: Node, y': Node)
    requires Delivered(x, y) && Grows(y, y')
    ensures Delivered(x, y')
  {
  }

  lemma NextKeepsDelivered(s: System, move: (bool, Move), promise: Promise, receiver: bool)
    requires Own(s.a) && Own(s.b) && promise.unmixed
    requires var x, y := Side(s, receiver), Side(s, !receiver); Delivered(x, y) && Compatible(y.ep.config, x.ep.config)
    ensures var s' := Next(s, move, promise); Delivered(Side(s', receiver), Side(s', !receiver))
  {
    var x, y := Side(s, receiver), Side(s, !receiver);
    if move.0 == receiver {
      MoveKeepsDelivered(x, y, move.1, promise);
    } else {
      MoveKeepsOwn(y, x, move.1, promise);
      PeerGrowthKeepsDelivered(x, y, Move1(y, x, move.1, promise));
    }
  }

  lemma {:induction false} RunsStayDelivered(start: System, moves: seq<(bool, Move)>, promise: Promise, receiver: bool)
    requires Fresh(start.a) && Fresh(start.b) && promise.unmixed
    requires Compatible(Side(start, !receiver).ep.config, Side(start, receiver).ep.config)
    ensures var s := AfterMoves(start, moves, promise); Delivered(Side(s, receiver), Side(s, !receiver))
    decreases |moves|
  {
    if moves != [] {
      var n := |moves| - 1;
      RunsStayDelivered(start, moves[..n], promise, receiver);
      RunsStayOwn(start, moves[..n], promise);
      NextKeepsDelivered(AfterMoves(start, moves[..n], promise), moves[n], promise, receiver);
    }
  }

  /**
    Payload integrity: over every run in which no fragment is stored in a slot that another packet
    opened, however stale the datagrams, all that ever reaches a side's incoming queue is packets its
    peer sent, byte for byte, under their sequence numbers.
   */
  lemma ReceivedPayloadsWereSent(start: System, moves: seq<(bool, Move)>, promise: Promise, receiver: bool)
    requires Fresh(start.a) && Fresh(start.b) && promise.unmixed
    requires Compatible(Side(start, !receiver).ep.config, Side(start, receiver).ep.config)
    ensures var s := AfterMoves(start, moves, promise);
      var x, y := Side(s, receiver), Side(s, !receiver);
      && IsTail(x.ep.incoming, x.inbox)
      && (forall d <- x.inbox :: 0 <= d.number < |y.sends| && d.packet == Packet(d.number % 65536, y.sends[d.number]))
  {
    RunsStayDelivered(start, moves, promise, receiver);
  }

  // ---- An unfragmented packet arrives at most once ----

  /** Recorded numbers stay recognisable, and unfragmented packets in the inbox are recorded and distinct. */
  ghost predicate Once(x: Node, y: Node) {
    && (forall u <- x.recorded :: Remembered(x.ep.received, u))
    && (forall d <- x.inbox :: 0 <= d.number < |y.sends|)
    && (forall d <- x.inbox :: Unfragmented(y, d.number) ==> d.number in x.recorded)
    && (forall i, j | 0 <= i < j < |x.inbox| ::
          x.inbox[i].number == x.inbox[j].number ==> !Unfragmented(y, x.inbox[i].number))
  }

  ghost predicate Unfragmented(y: Node, number: int) {
    0 <= number < |y.sends| && |y.sends[number]| <= y.ep.config.fragmentAbove
  }

  lemma RecordedStaysRemembered(x: Node, em: Emission)
    requires Invariant(x.ep) && forall u <- x.recorded :: Remembered(x.ep.received, u)
    ensures var x' := ReceiveEmission(x, em); forall u <- x'.recorded :: Remembered(x'.ep.received, u)
  {
    ReceiveRecords(x.ep, em.bytes);
    forall u | u in x.recorded
      ensures Remembered(ReceivePacket(x.ep, em.bytes).received, u)
    {
      match Recording(x.ep, em.bytes) {
        case None =>
        case Some((s, d)) => InsertRemembers(x.ep.received, s, d, u);
      }
    }
  }

  /** An unfragmented packet that arrives was not recorded before, and is now. */
  lemma UnfragmentedArrivesFirst(x: Node, y: Node, em: Emission)
    requires Own(x) && Once(x, y) && Honest(y, em) && TimelyFor(x.ep.received, em.number)
    requires Unfragmented(y, em.number) && Arriving(x.ep, em.bytes) != []
    ensures em.number !in x.recorded && em.number in ReceiveEmission(x, em).recorded
  {
    var h, k :| Carries(y, em, h, k);
    HonestReads(x.ep, y, em, h, k);
    ReceiveRecords(x.ep, em.bytes);
    var d := Recording(x.ep, em.bytes).value.1;
    TimelyInsertsItself(x.ep.received, em.number, d);
    x.ep.received.InsertValid(em.number % 65536, d);
  }

  lemma ReceivedKeepsOnce(x: Node, y: Node, em: Emission)
    requires Own(x) && Once(x, y) && Honest(y, em) && TimelyFor(x.ep.received, em.number)
    ensures Once(ReceiveEmission(x, em), y)
  {
    var x' := ReceiveEmission(x, em);
    RecordedStaysRemembered(x, em);
    InboxGrows(x, em);
    if |x'.inbox| > |x.inbox| && Unfragmented(y, em.number) {
      UnfragmentedArrivesFirst(x, y, em);
    }
    forall i, j | 0 <= i < j < |x'.inbox| && x'.inbox[i].number == x'.inbox[j].number
      ensures !Unfragmented(y, x'.inbox[i].number)
    {
      assert x'.inbox[i] == x'.inbox[..|x.inbox|][i] && x.inbox[i] in x.inbox;
    }
  }

  lemma MoveKeepsOnce(x: Node, y: Node, move: Move, promise: Promise)
    requires Own(x) && Own(y) && Once(x, y) && promise.timely
    ensures Once(Move1(x, y, move, promise), y)
  {
    if move.Deliver? {
      if move.i < |y.emitted| && Deliverable(x, y.emitted[move.i], promise) {
        ReceivedKeepsOnce(x, y, y.emitted[move.i]);
      }
    } else {
      LocalKeepsReassembly(x, y, move, promise);
    }
  }

  lemma PeerGrowthKeepsOnce(x: Node, y: Node, y': Node)
    requires Once(x, y) && Grows(y, y')
    ensures Once(x, y')
  {
  }

  lemma NextKeepsOnce(s: System, move: (bool, Move), promise: Promise)
    requires Own(s.a) && Own(s.b) && Once(s.a, s.b) && Once(s.b, s.a) && promise.timely
    ensures var s' := Next(s, move, promise); Once(s'.a, s'.b) && Once(s'.b, s'.a)
  {
    var x, y := Side(s, move.0), Side(s, !move.0);
    MoveKeepsOwn(x, y, move.1, promise);
    MoveKeepsOnce(x, y, move.1, promise);
    PeerGrowthKeepsOnce(y, x, Move1(x, y, move.1, promise));
  }

  lemma {:induction false} RunsDeliverOnce(start: System, moves: seq<(bool, Move)>, promise: Promise)
    requires Fresh(start.a) && Fresh(start.b) && promise.timely
    ensures var s := AfterMoves(start, moves, promise); Once(s.a, s.b) && Once(s.b, s.a)
    decreases |moves|
  {
    if moves != [] {
      var n := |moves| - 1;
      RunsDeliverOnce(start, moves[..n], promise);
      RunsStayOwn(start, moves[..n], promise);
      NextKeepsOnce(AfterMoves(start, moves[..n], promise), moves[n], promise);
    }
  }

  /** Over every run on a timely network, whatever the configurations, a packet sent unfragmented
      reaches the peer's incoming queue at most once. */
  lemma UnfragmentedArriveAtMostOnce(start: System, moves: seq<(bool, Move)>, promise: Promise, receiver: bool)
    requires Fresh(start.a) && Fresh(start.b) && promise.timely
    ensures var s := AfterMoves(start, moves, promise); var x, y := Side(s, receiver), Side(s, !receiver);
      && (forall d <- x.inbox :: 0 <= d.number < |y.sends|)
      && (forall i, j | 0 <= i < j < |x.inbox| && x.inbox[i].number == x.inbox[j].number ::
            |y.sends[x.inbox[i].number]| > y.ep.config.fragmentAbove)
  {
    RunsDeliverOnce(start, moves, promise);
    var s := AfterMoves(start, moves, promise);
    var x, y := Side(s, receiver), Side(s, !receiver);
    forall i, j | 0 <= i < j < |x.inbox| && x.inbox[i].number == x.inbox[j].number
      ensures |y.sends[x.inbox[i].number]| > y.ep.config.fragmentAbove
    {
      assert x.inbox[i] in x.inbox && !Unfragmented(y, x.inbox[i].number);
    }
  }
}
