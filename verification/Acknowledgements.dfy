/**
  Which acknowledgements a datagram brings home: the endpoint heeds those of first fragments and of new
  unfragmented packets, and of no others; what a refused duplicate carries was heeded at its first arrival.
 */
module Acknowledgements {
  import opened Bits
  import Datagram
  import opened EndpointModel
  import opened EndpointRuns
  import Fragments
  import Integrity
  import opened Network
  import Packets
  import ReassemblyRuns
  import opened Sequence
  import opened Windows

  /** `r` was held by the sender of `em`, among its last 32 numbers, when it composed `em`. */
  ghost predicate Covered(em: Emission, r: int) {
    em.ackHead - 32 <= r < em.ackHead && r in em.seen
  }

  /** The datagram is not too large, and either the first fragment of its packet or unfragmented, in the
      receive window and new. */
  ghost predicate Heeds(e: EndpointState, em: Emission) {
    && |em.bytes| <= e.config.maxPacketSize + Packets.MAX_PACKET_HEADER_BYTES
    && if Packets.IsFragmentPacket(em.bytes) then IsFirstFragment(em.bytes)
       else e.received.CanInsert(em.number % 65536) && !e.received.Exists(em.number % 65536)
  }

  predicate IsFirstFragment(bytes: seq<u8>) {
    Fragments.DecodeFragment(bytes).Some? && Fragments.DecodeFragment(bytes).value.0.id == 0
  }

  /** Acknowledgements are processed exactly for the datagrams that the endpoint heeds. */
  lemma HeedsExactly(e: EndpointState, y: Node, em: Emission)
    requires e.Valid() && Honest(y, em)
    ensures AckInput(e, em.bytes).Some? <==> Heeds(e, em)
  {
    var h, k :| Carries(y, em, h, k);
    Datagram.AcksAreRead(e, y.ep.config, h, y.sends[em.number], k);
  }

  lemma SeenIsAnnounced(w: Window<SentData>, h: Packets.PacketHeader, ackHead: int, seen: set<int>, r: int)
    requires w.Valid() && BitsExact(h, ackHead, seen)
    requires ackHead - 32 <= r < ackHead && r in seen && r in w.live
    ensures Announced(w, h.ack, h.ackBits, 32, r)
  {
    var i := ackHead - 1 - r;
    AckNumber(ackHead, i);
    w.ResolveExact(r);
    assert BitSet(h.ackBits, i) && w.Resolve(WrappingSub(h.ack, i)) == r;
  }

  /** From `w` to `w'`, everything covered was marked, and nothing changed but marks. */
  ghost predicate MarksCovered(w: Window<SentData>, w': Window<SentData>, em: Emission) {
    && w'.live.Keys == w.live.Keys
    && forall r <- w.live :: w.live[r].acked || Covered(em, r) ==> w'.live[r].acked
  }

  /** A heeded datagram marks every tracked packet that it covers; one that is not heeded changes nothing. */
  lemma CoveredAreMarked(x: Node, y: Node, em: Emission)
    requires Own(x) && Honest(y, em)
    ensures var w, w' := x.ep.sent, ReceivePacket(x.ep, em.bytes).sent;
      if Heeds(x.ep, em) then MarksCovered(w, w', em) else w' == w
  {
    var h, k :| Carries(y, em, h, k);
    HonestReads(x.ep, y, em, h, k);
    HeedsExactly(x.ep, y, em);
    ReceiveAcks(x.ep, em.bytes);
    if Heeds(x.ep, em) {
      AckingMarksExactly(AckInput(x.ep, em.bytes).value.0, h.ack, h.ackBits, 32);
      forall r | r in x.ep.sent.live && Covered(em, r)
        ensures Announced(x.ep.sent, h.ack, h.ackBits, 32, r)
      {
        SeenIsAnnounced(x.ep.sent, h, em.ackHead, em.seen, r);
      }
    }
  }

  /** If its acknowledgements are recent, it marks only those. */
  lemma OnlyCoveredAreMarked(x: Node, y: Node, em: Emission)
    requires Own(x) && Own(y) && Faithful(y, x) && em in y.emitted && TimelyAcks(x.ep, em.ackHead)
    ensures var w, w' := x.ep.sent, ReceivePacket(x.ep, em.bytes).sent;
      w'.live.Keys == w.live.Keys && forall r <- w.live :: w'.live[r].acked ==> w.live[r].acked || Covered(em, r)
  {
    var h, k :| Carries(y, em, h, k);
    HonestReads(x.ep, y, em, h, k);
    ReceiveAcks(x.ep, em.bytes);
    if AckInput(x.ep, em.bytes).Some? {
      AckingMarksExactly(AckInput(x.ep, em.bytes).value.0, h.ack, h.ackBits, 32);
      forall r | r in x.ep.sent.live && Announced(x.ep.sent, h.ack, h.ackBits, 32, r)
        ensures Covered(em, r)
      {
        AnnouncedWasSeen(x.ep.sent, h, em.ackHead, em.seen, r);
      }
    }
  }

  /**
    Acknowledgement completeness: after every run, whatever the network delivered, receiving any datagram
    that the peer ever emitted marks every packet still tracked that its sender held among its last 32
    numbers when composing it, exactly if the endpoint heeds the datagram; otherwise it marks nothing.
   */
  lemma AcksAreComplete(start: System, moves: seq<(bool, Move)>, promise: Promise, receiver: bool, i: nat)
    requires Fresh(start.a) && Fresh(start.b)
    requires i < |Side(AfterMoves(start, moves, promise), !receiver).emitted|
    ensures Own(Side(AfterMoves(start, moves, promise), receiver))
    ensures var s := AfterMoves(start, moves, promise);
      var x, em := Side(s, receiver), Side(s, !receiver).emitted[i];
      var w, w' := x.ep.sent, ReceivePacket(x.ep, em.bytes).sent;
      if Heeds(x.ep, em) then MarksCovered(w, w', em) else w' == w
  {
    RunsStayOwn(start, moves, promise);
    var s := AfterMoves(start, moves, promise);
    CoveredAreMarked(Side(s, receiver), Side(s, !receiver), Side(s, !receiver).emitted[i]);
  }

  /** After every timely run, a datagram with recent acknowledgements marks no other packets. */
  lemma AcksMarkOnlyCovered(start: System, moves: seq<(bool, Move)>, promise: Promise, receiver: bool, i: nat)
    requires Fresh(start.a) && Fresh(start.b) && promise.timely
    requires i < |Side(AfterMoves(start, moves, promise), !receiver).emitted|
    ensures Own(Side(AfterMoves(start, moves, promise), receiver))
    ensures var s := AfterMoves(start, moves, promise);
      var x, em := Side(s, receiver), Side(s, !receiver).emitted[i];
      var w, w' := x.ep.sent, ReceivePacket(x.ep, em.bytes).sent;
      TimelyAcks(x.ep, em.ackHead) ==>
        w'.live.Keys == w.live.Keys && forall r <- w.live :: w'.live[r].acked ==> w.live[r].acked || Covered(em, r)
  {
    RunsStayOwn(start, moves, promise);
    RunsStayFaithful(start, moves, promise);
    var s := AfterMoves(start, moves, promise);
    var x, y := Side(s, receiver), Side(s, !receiver);
    if TimelyAcks(x.ep, y.emitted[i].ackHead) {
      OnlyCoveredAreMarked(x, y, y.emitted[i]);
    }
  }

  /** So a late unfragmented datagram loses its acknowledgements, although a timely network delivers it:
      behind the receive window it is refused before they are read. */
  lemma StaleAcksAreLost(x: Node, y: Node, em: Emission)
    requires Own(x) && Honest(y, em) && !Packets.IsFragmentPacket(em.bytes)
    requires x.ep.received.Base() - 32768 < em.number < x.ep.received.Base()
    ensures TimelyFor(x.ep.received, em.number) && !Heeds(x.ep, em) && ReceivePacket(x.ep, em.bytes).sent == x.ep.sent
  {
    BehindIsRefused(x.ep.received, em.number);
    CoveredAreMarked(x, y, em);
  }

  lemma BehindIsRefused<T>(w: Window<T>, number: int)
    requires w.Base() - 32768 < number < w.Base()
    ensures !w.CanInsert(number % 65536)
  {
    w.ResolveExact(number + 65536);
  }

  // ---- Duplicates ----

  ghost function Composed(y: Node): seq<Emission> {
    y.emitted + y.queued
  }

  /** An unfragmented packet has one datagram. */
  ghost predicate OneEach(y: Node) {
    forall i, j | 0 <= i < j < |Composed(y)| && Composed(y)[i].number == Composed(y)[j].number ::
      !Integrity.Unfragmented(y, Composed(y)[i].number)
  }

  lemma NumbersAreSent(y: Node)
    requires Own(y)
    ensures forall i | 0 <= i < |Composed(y)| :: 0 <= Composed(y)[i].number < |y.sends|
  {
    forall i | 0 <= i < |Composed(y)|
      ensures 0 <= Composed(y)[i].number < |y.sends|
    {
      HonestNumber(y, Composed(y)[i]);
    }
  }

  lemma SubmitComposes(y: Node, data: seq<u8>) returns (added: seq<Emission>)
    requires Own(y) && |data| <= y.ep.config.maxPacketSize
    ensures var y' := SubmitPayload(y, data);
      Composed(y') == Composed(y) + added && y'.sends == y.sends + [data] && y'.ep.config == y.ep.config
    ensures |data| <= y.ep.config.fragmentAbove ==> |added| <= 1
    ensures forall i | 0 <= i < |added| :: added[i].number == |y.sends|
  {
    var packets := Datagrams(y.ep.config, OutgoingHeader(y.ep), data);
    AcceptIsPrefix(y.ep.outgoing, y.ep.config.outgoingSize, packets);
    added := Tagged(NewPackets(y.ep.outgoing, SendPacket(y.ep, data).outgoing), y.ep);
    assert y.emitted + (y.queued + added) == y.emitted + y.queued + added;
  }

  lemma SubmitKeepsOneEach(y: Node, data: seq<u8>)
    requires Own(y) && OneEach(y)
    ensures OneEach(SubmitPayload(y, data))
  {
    if |data| <= y.ep.config.maxPacketSize {
      var added := SubmitComposes(y, data);
      NumbersAreSent(y);
      FreshKeepsOneEach(y, SubmitPayload(y, data), data, added);
    } else {
      SameKeepsOneEach(y, SubmitPayload(y, data));
    }
  }

  lemma FreshKeepsOneEach(y: Node, y': Node, data: seq<u8>, added: seq<Emission>)
    requires OneEach(y) && y'.sends == y.sends + [data] && y'.ep.config == y.ep.config && Composed(y') == Composed(y) + added
    requires forall i | 0 <= i < |Composed(y)| :: 0 <= Composed(y)[i].number < |y.sends|
    requires forall i | 0 <= i < |added| :: added[i].number == |y.sends|
    requires |data| <= y.ep.config.fragmentAbove ==> |added| <= 1
    ensures OneEach(y')
  {
  }

  lemma MoveKeepsOneEach(y: Node, x: Node, move: Move, promise: Promise)
    requires Own(y) && OneEach(y)
    ensures OneEach(Move1(y, x, move, promise))
  {
    if move.Submit? {
      SubmitKeepsOneEach(y, move.data);
    } else {
      OthersCompose(y, x, move, promise);
      SameKeepsOneEach(y, Move1(y, x, move, promise));
    }
  }

  lemma SameKeepsOneEach(y: Node, y': Node)
    requires OneEach(y) && Composed(y') == Composed(y) && y'.sends == y.sends && y'.ep.config == y.ep.config
    ensures OneEach(y')
  {
  }

  /** Only submissions compose datagrams. */
  lemma OthersCompose(y: Node, x: Node, move: Move, promise: Promise)
    requires Own(y) && !move.Submit?
    ensures var y' := Move1(y, x, move, promise);
      Composed(y') == Composed(y) && y'.sends == y.sends && y'.ep.config == y.ep.config
  {
    if move.Deliver? {
      if move.i < |x.emitted| { ReceivedKeepsOwn(y, x.emitted[move.i]); }
    } else {
      LocalKeepsOwn(y, x, move, promise);
      assert move.Flush? ==> y.emitted + y.queued + [] == y.emitted + y.queued;
    }
  }

  /** Every tracked packet that `em` covers is marked. */
  ghost predicate Settled(w: Window<SentData>, em: Emission) {
    forall r <- w.live :: Covered(em, r) ==> w.live[r].acked
  }

  ghost predicate Emitted(y: Node, u: int) {
    exists i :: 0 <= i < |y.emitted| && y.emitted[i].number == u
  }

  /** What is recorded was emitted, and recorded unfragmented packets brought their acknowledgements home. */
  ghost predicate Heard(x: Node, y: Node) {
    && (forall u <- x.recorded :: Emitted(y, u))
    && (forall i | 0 <= i < |y.emitted| && Integrity.Unfragmented(y, y.emitted[i].number) && y.emitted[i].number in x.recorded ::
          Settled(x.ep.sent, y.emitted[i]))
  }

  /** An unfragmented packet is recorded only by a datagram that is heeded. */
  lemma RecordedIsHeeded(x: Node, y: Node, em: Emission)
    requires Own(x) && Honest(y, em) && Integrity.Unfragmented(y, em.number)
    requires em.number !in x.recorded && em.number in ReceiveEmission(x, em).recorded
    ensures Heeds(x.ep, em)
  {
    var h, k :| Carries(y, em, h, k);
    HonestReads(x.ep, y, em, h, k);
    ReceiveRecords(x.ep, em.bytes);
  }

  lemma ReceivedKeepsHeard(x: Node, y: Node, n: nat)
    requires Own(x) && Own(y) && OneEach(y) && Heard(x, y) && n < |y.emitted|
    ensures Heard(ReceiveEmission(x, y.emitted[n]), y)
  {
    var em := y.emitted[n];
    var x' := ReceiveEmission(x, em);
    CoveredAreMarked(x, y, em);
    forall u | u in x'.recorded
      ensures Emitted(y, u)
    {
      assert u in x.recorded || u == y.emitted[n].number;
    }
    forall i | 0 <= i < |y.emitted| && Integrity.Unfragmented(y, y.emitted[i].number) && y.emitted[i].number in x'.recorded
      ensures Settled(x'.ep.sent, y.emitted[i])
    {
      if y.emitted[i].number in x.recorded {
        assert Settled(x.ep.sent, y.emitted[i]);
      } else {
        assert Composed(y)[i] == y.emitted[i] && Composed(y)[n] == em;
        assert i == n;
        RecordedIsHeeded(x, y, em);
      }
    }
  }

  lemma SubmitKeepsHeard(x: Node, y: Node, data: seq<u8>)
    requires Own(x) && Faithful(y, x) && Heard(x, y)
    ensures Heard(SubmitPayload(x, data), y)
  {
    NextIsInsertable(x.ep.sent, SentData(false, PacketBytes(x.ep.config, |data|)));
  }

  lemma MoveKeepsHeard(x: Node, y: Node, move: Move, promise: Promise)
    requires Own(x) && Own(y) && Faithful(y, x) && OneEach(y) && Heard(x, y)
    ensures Heard(Move1(x, y, move, promise), y)
  {
    match move {
      case Submit(data) => SubmitKeepsHeard(x, y, data);
      case Deliver(i) =>
        if i < |y.emitted| && Deliverable(x, y.emitted[i], promise) { ReceivedKeepsHeard(x, y, i); }
      case _ => LocalKeepsOwn(x, y, move, promise);
    }
  }

  lemma MoveEmits(y: Node, x: Node, move: Move, promise: Promise)
    requires Own(y)
    ensures var y' := Move1(y, x, move, promise); Grows(y, y') && y.emitted <= y'.emitted <= Composed(y)
  {
    MoveKeepsOwn(y, x, move, promise);
  }

  /** Emitting a datagram that was still queued: its packet is not recorded yet. */
  lemma EmittingKeepsHeard(x: Node, y: Node, y': Node)
    requires OneEach(y) && Heard(x, y) && Grows(y, y') && y.emitted <= y'.emitted <= Composed(y)
    requires forall i | 0 <= i < |Composed(y)| :: 0 <= Composed(y)[i].number < |y.sends|
    ensures Heard(x, y')
  {
    forall u | u in x.recorded
      ensures Emitted(y', u)
    {
      var i :| 0 <= i < |y.emitted| && y.emitted[i].number == u;
      assert y'.emitted[i].number == u;
    }
    forall i | 0 <= i < |y'.emitted| && Integrity.Unfragmented(y', y'.emitted[i].number) && y'.emitted[i].number in x.recorded
      ensures Settled(x.ep.sent, y'.emitted[i])
    {
      assert y'.emitted[i] == Composed(y)[i];
    }
  }

  lemma PeerMoveKeepsHeard(x: Node, y: Node, move: Move, promise: Promise)
    requires Own(x) && Own(y) && OneEach(y) && Heard(x, y)
    ensures Heard(x, Move1(y, x, move, promise))
  {
    MoveEmits(y, x, move, promise);
    NumbersAreSent(y);
    EmittingKeepsHeard(x, y, Move1(y, x, move, promise));
  }

  ghost predicate BothHeard(s: System) {
    Heard(s.a, s.b) && Heard(s.b, s.a) && OneEach(s.a) && OneEach(s.b)
  }

  lemma NextKeepsHeard(s: System, move: (bool, Move), promise: Promise)
    requires Own(s.a) && Own(s.b) && BothFaithful(s) && BothHeard(s)
    ensures BothHeard(Next(s, move, promise))
  {
    var x, y := Side(s, move.0), Side(s, !move.0);
    MoveKeepsHeard(x, y, move.1, promise);
    PeerMoveKeepsHeard(y, x, move.1, promise);
    MoveKeepsOneEach(x, y, move.1, promise);
  }

  lemma {:induction false} RunsStayHeard(start: System, moves: seq<(bool, Move)>, promise: Promise)
    requires Fresh(start.a) && Fresh(start.b) && promise.timely
    ensures BothHeard(AfterMoves(start, moves, promise))
    decreases |moves|
  {
    if moves != [] {
      var n := |moves| - 1;
      RunsStayHeard(start, moves[..n], promise);
      RunsStayFaithful(start, moves[..n], promise);
      RunsStayOwn(start, moves[..n], promise);
      NextKeepsHeard(AfterMoves(start, moves[..n], promise), moves[n], promise);
    }
  }

  /** What a refused duplicate carries is not lost: after every timely run, when a timely unfragmented datagram
      is refused because its packet is recorded, every tracked packet that it covers is marked already. */
  lemma DuplicatesCarryNothingNew(start: System, moves: seq<(bool, Move)>, promise: Promise, receiver: bool, i: nat)
    requires Fresh(start.a) && Fresh(start.b) && promise.timely
    requires i < |Side(AfterMoves(start, moves, promise), !receiver).emitted|
    ensures var s := AfterMoves(start, moves, promise);
      var x, y := Side(s, receiver), Side(s, !receiver); var em := y.emitted[i];
      Integrity.Unfragmented(y, em.number) && TimelyFor(x.ep.received, em.number) && x.ep.received.Exists(em.number % 65536) ==>
        Settled(x.ep.sent, em)
  {
    RunsStayHeard(start, moves, promise);
    RunsStayFaithful(start, moves, promise);
    RunsStayOwn(start, moves, promise);
    var s := AfterMoves(start, moves, promise);
    var x, y := Side(s, receiver), Side(s, !receiver);
    var em := y.emitted[i];
    if TimelyFor(x.ep.received, em.number) && x.ep.received.Exists(em.number % 65536) {
      ReassemblyRuns.TrackedIsAccepted(x.ep.received, em.number % 65536);
      assert em.number in x.recorded;
    }
  }
}
