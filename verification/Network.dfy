/**
  Two endpoints joined by a network that loses, duplicates and reorders datagrams. Whatever a node
  has emitted may be delivered to its peer any number of times, in any order, or never. What a theorem
  needs of the network beyond that is a promise, which the network keeps by not delivering.
 */
module Network {
  import opened Arithmetic
  import opened Bits
  import Datagram
  import opened EndpointModel
  import opened EndpointRuns
  import Fragments
  import Packets
  import ReassemblyRuns
  import opened Sequence
  import opened Windows

  /** A datagram, with the number of the packet it belongs to, and its sender's receive head and the
      numbers its sender's receive window held when it was composed. */
  datatype Emission = Emission(bytes: seq<u8>, number: int, ackHead: int, seen: set<int>)

  datatype Delivery = Delivery(number: int, packet: Packet)

  /** An endpoint with the history of its run: payloads sent, datagrams queued and emitted, peer packets
      recorded, the packet whose fragment last opened a reassembly slot for a sequence, and what reached
      its incoming queue. */
  datatype Node = Node(
    ep: EndpointState, sends: seq<seq<u8>>, queued: seq<Emission>, emitted: seq<Emission>,
    recorded: set<int>, openers: map<u16, int>, inbox: seq<Delivery>)

  datatype Move =
    | Submit(data: seq<u8>)
    | Flush
    | Deliver(i: nat)
    | Housekeep(step: Step)

  // ---- What a network may promise ----

  /** The endpoint does not mistake the packet for a later one with the same sequence. */
  ghost predicate TimelyFor<T>(w: Window<T>, number: int) {
    w.CanInsert(number % 65536) ==> w.Resolve(number % 65536) == number
  }

  /** The acknowledgements are about packets of the last cycle. */
  ghost predicate TimelyAcks(e: EndpointState, ackHead: int) {
    e.sent.head - (ackHead - 32) <= 65536
  }

  ghost predicate Timely(e: EndpointState, em: Emission) {
    TimelyFor(e.received, em.number) && TimelyAcks(e, em.ackHead)
  }

  /** If the datagram is a fragment that will be stored in an open slot, a fragment of the same packet opened it. */
  ghost predicate Unmixed(me: Node, em: Emission)
    requires me.ep.reassembly.Shape()
  {
    match FragmentInput(me.ep, em.bytes)
    case None => true
    case Some((h, _)) =>
      ReassemblyRuns.Accepted(me.ep.reassembly, h) && me.ep.reassembly.tracker.Exists(h.sequence) ==>
        h.sequence in me.openers && me.openers[h.sequence] == em.number
  }

  /** What the network keeps by not delivering: the receive window does not mistake the packet, its
      acknowledgements are recent, it spoils no slot. `Promise(false, false, false)` delivers anything emitted. */
  datatype Promise = Promise(timely: bool, recent: bool, unmixed: bool)

  ghost predicate Deliverable(me: Node, em: Emission, promise: Promise)
    requires me.ep.reassembly.Shape()
  {
    && (promise.timely ==> TimelyFor(me.ep.received, em.number))
    && (promise.recent ==> TimelyAcks(me.ep, em.ackHead))
    && (promise.unmixed ==> Unmixed(me, em))
  }

  /** A packet is mistaken exactly if its sequence is accepted although it is not within the cycle from the
      window's oldest number. Bounded staleness rules that out: less than half a cycle behind that number,
      and less than a cycle past it. */
  lemma BoundedStalenessIsTimely<T>(w: Window<T>, number: int)
    ensures TimelyFor(w, number) <==> (w.CanInsert(number % 65536) ==> w.Base() <= number < w.Base() + 65536)
    ensures -32768 < number - w.Base() < 65536 ==> TimelyFor(w, number)
  {
    w.ResolveExact(number);
    w.ResolveExact(number + 65536);
  }

  // ---- Moves ----

  ghost function Tagged(packets: seq<Packet>, e: EndpointState): seq<Emission> {
    seq(|packets|, i requires 0 <= i < |packets| => Tag(packets[i].data, e))
  }

  /** The tag of a datagram that state `e` composes next. */
  ghost function Tag(bytes: seq<u8>, e: EndpointState): Emission {
    Emission(bytes, e.sent.head, e.received.head, e.received.live.Keys)
  }

  ghost function SubmitPayload(me: Node, data: seq<u8>): Node
    requires Runnable(me.ep)
  {
    var e' := SendPacket(me.ep, data);
    if |data| > me.ep.config.maxPacketSize then me.(ep := e')
    else
      me.(ep := e', sends := me.sends + [data],
          queued := me.queued + Tagged(NewPackets(me.ep.outgoing, e'.outgoing), me.ep))
  }

  ghost function NewPackets(before: seq<Packet>, after: seq<Packet>): seq<Packet> {
    if |before| <= |after| then after[|before|..] else []
  }

  ghost function ReceiveEmission(me: Node, em: Emission): Node
    requires Runnable(me.ep)
  {
    var e' := ReceivePacket(me.ep, em.bytes);
    var counted := e'.counters.packetsReceived > me.ep.counters.packetsReceived;
    var arrived := NewPackets(me.ep.incoming, e'.incoming);
    me.(ep := e',
        recorded := if counted && em.number in e'.received.live then me.recorded + {em.number} else me.recorded,
        openers := Opened(me.openers, me.ep.reassembly.tracker, e'.reassembly.tracker, em.number),
        inbox := me.inbox + Labelled(arrived, em.number))
  }

  /** A slot that is open only now was opened by packet `number`. */
  ghost function Opened(openers: map<u16, int>, before: Window<()>, after: Window<()>, number: int): map<u16, int> {
    var q: u16 := number % 65536;
    if !before.Exists(q) && after.Exists(q) then openers[q := number] else openers
  }

  ghost function Labelled(packets: seq<Packet>, number: int): seq<Delivery> {
    seq(|packets|, i requires 0 <= i < |packets| => Delivery(number, packets[i]))
  }

  /** One move of `me`. */
  ghost function Move1(me: Node, peer: Node, move: Move, promise: Promise): Node
    requires Runnable(me.ep)
  {
    match move
    case Submit(data) => SubmitPayload(me, data)
    case Flush => me.(ep := DrainOutgoing(me.ep), queued := [], emitted := me.emitted + me.queued)
    case Deliver(i) =>
      if i < |peer.emitted| && Deliverable(me, peer.emitted[i], promise) then ReceiveEmission(me, peer.emitted[i])
      else me
    case Housekeep(step) =>
      if step.DrainIn? || step.Clear? || step.Update? then me.(ep := Apply(me.ep, step)) else me
  }

  // ---- Acknowledgement soundness ----

  /** Bit `i` of `h` says whether the number `i` below its ack was in `seen`. */
  ghost predicate BitsExact(h: Packets.PacketHeader, ackHead: int, seen: set<int>) {
    && h.ack == (ackHead - 1) % 65536
    && (forall i :: 0 <= i < 32 ==> (BitSet(h.ackBits, i) <==> ackHead - 1 - i in seen))
  }

  /** `em` is datagram `k` of the packet it is tagged with, under header `h`. */
  ghost predicate Carries(x: Node, em: Emission, h: Packets.PacketHeader, k: nat) {
    && 0 <= em.number < |x.sends|
    && x.ep.config.fragmentSize > 0
    && h.sequence == em.number % 65536
    && BitsExact(h, em.ackHead, em.seen)
    && k < |Datagrams(x.ep.config, h, x.sends[em.number])|
    && em.bytes == Datagrams(x.ep.config, h, x.sends[em.number])[k].data
  }

  ghost predicate Honest(x: Node, em: Emission) {
    exists h, k :: Carries(x, em, h, k)
  }

  ghost predicate Own(x: Node) {
    && Invariant(x.ep)
    && |x.sends| == x.ep.sent.head
    && (forall data <- x.sends :: |data| <= x.ep.config.maxPacketSize)
    && |x.queued| == |x.ep.outgoing|
    && (forall i | 0 <= i < |x.queued| :: x.queued[i].bytes == x.ep.outgoing[i].data)
    && (forall em <- x.queued :: Honest(x, em))
    && (forall em <- x.emitted :: Honest(x, em))
  }

  /** The receive window holds, and datagrams acknowledge, only what was recorded, and that is only what
      the peer sent. */
  ghost predicate Faithful(x: Node, y: Node) {
    && x.ep.received.live.Keys <= x.recorded
    && (forall em <- x.queued :: em.seen <= x.recorded)
    && (forall em <- x.emitted :: em.seen <= x.recorded)
    && (forall u <- x.recorded :: 0 <= u < |y.sends|)
  }

  /** Acknowledged means recorded by the peer. */
  ghost predicate Sound(x: Node, y: Node) {
    forall u <- x.ep.sent.live :: x.ep.sent.live[u].acked ==> u in y.recorded
  }

  ghost predicate Grows(x: Node, x': Node) {
    && x'.ep.config == x.ep.config
    && x.sends <= x'.sends
    && x.recorded <= x'.recorded
  }

  lemma HonestGrows(x: Node, x': Node, em: Emission)
    requires Honest(x, em) && Grows(x, x')
    ensures Honest(x', em)
  {
    var h, k :| Carries(x, em, h, k);
    assert x'.sends[em.number] == x.sends[em.number];
    assert Carries(x', em, h, k);
  }

  lemma OutgoingBitsExact(x: Node)
    requires Own(x)
    ensures BitsExact(OutgoingHeader(x.ep), x.ep.received.head, x.ep.received.live.Keys)
    ensures OutgoingHeader(x.ep).sequence == x.ep.sent.head % 65536
  {
    WrappingSteps(x.ep.received.head, 1);
    x.ep.received.AckBitsExact(32);
  }

  lemma AcceptIsPrefix<T>(queue: seq<T>, capacity: nat, items: seq<T>)
    ensures var q := Accept(queue, capacity, items);
      && |queue| <= |q| <= |queue| + |items|
      && q[..|queue|] == queue && q[|queue|..] == items[..|q| - |queue|]
  {
  }

  lemma SubmitState(x: Node, data: seq<u8>)
    requires Own(x) && |data| <= x.ep.config.maxPacketSize
    ensures var x' := SubmitPayload(x, data);
      && Invariant(x'.ep) && Grows(x, x') && x'.sends == x.sends + [data] && |x'.sends| == x'.ep.sent.head
      && x'.emitted == x.emitted && x'.recorded == x.recorded && x'.ep.received == x.ep.received
  {
    SendKeepsInvariant(x.ep, data);
    NextIsInsertable(x.ep.sent, SentData(false, PacketBytes(x.ep.config, |data|)));
  }

  /** The datagrams a submission adds to the queue, with their tags. */
  lemma SubmitQueues(x: Node, data: seq<u8>)
    requires Runnable(x.ep) && |data| <= x.ep.config.maxPacketSize
    requires |x.queued| == |x.ep.outgoing|
    requires forall i | 0 <= i < |x.queued| :: x.queued[i].bytes == x.ep.outgoing[i].data
    ensures var x' := SubmitPayload(x, data);
      var packets := Datagrams(x.ep.config, OutgoingHeader(x.ep), data);
      && |x'.queued| == |x'.ep.outgoing| >= |x.queued|
      && x'.queued[..|x.queued|] == x.queued
      && (forall i | 0 <= i < |x'.queued| :: x'.queued[i].bytes == x'.ep.outgoing[i].data)
      && (forall i | |x.queued| <= i < |x'.queued| ::
            && i - |x.queued| < |packets|
            && x'.queued[i] == Tag(packets[i - |x.queued|].data, x.ep))
  {
    var packets := Datagrams(x.ep.config, OutgoingHeader(x.ep), data);
    var after := SendPacket(x.ep, data).outgoing;
    AcceptIsPrefix(x.ep.outgoing, x.ep.config.outgoingSize, packets);
    assert after == Accept(x.ep.outgoing, x.ep.config.outgoingSize, packets);
    forall i | |x.ep.outgoing| <= i < |after|
      ensures after[i] == NewPackets(x.ep.outgoing, after)[i - |x.ep.outgoing|] == packets[i - |x.ep.outgoing|]
    {
      assert after[|x.ep.outgoing|..][i - |x.ep.outgoing|] == after[i];
    }
    forall i | 0 <= i < |x.ep.outgoing|
      ensures after[i] == x.ep.outgoing[i]
    {
      assert after[..|x.ep.outgoing|][i] == after[i];
    }
  }

  lemma AllHonest(x: Node, x': Node, ems: seq<Emission>)
    requires Grows(x, x') && forall em <- ems :: Honest(x, em)
    ensures forall em <- ems :: Honest(x', em)
  {
    forall em | em in ems
      ensures Honest(x', em)
    {
      HonestGrows(x, x', em);
    }
  }

  lemma SubmitKeepsOwn(x: Node, data: seq<u8>)
    requires Own(x)
    ensures var x' := SubmitPayload(x, data); Own(x') && Grows(x, x')
  {
    var x' := SubmitPayload(x, data);
    if |data| > x.ep.config.maxPacketSize {
      AllHonest(x, x', x.queued);
      AllHonest(x, x', x.emitted);
    } else {
      var h := OutgoingHeader(x.ep);
      SubmitState(x, data);
      SubmitQueues(x, data);
      OutgoingBitsExact(x);
      AllHonest(x, x', x.queued);
      AllHonest(x, x', x.emitted);
      forall i | 0 <= i < |x'.queued|
        ensures Honest(x', x'.queued[i])
      {
        if i < |x.queued| {
          assert x'.queued[i] == x'.queued[..|x.queued|][i] == x.queued[i];
        } else {
          assert Carries(x', x'.queued[i], h, i - |x.queued|);
        }
      }
    }
  }

  // ---- Reading an honest datagram ----

  /** A receiver sees in an honest datagram the sequence, acknowledgements and content that were put there. */
  lemma HonestReads(e: EndpointState, y: Node, em: Emission, h: Packets.PacketHeader, k: nat)
    requires e.Valid() && Carries(y, em, h, k)
    ensures AckInput(e, em.bytes).Some? ==>
      AckInput(e, em.bytes).value.1 == h.ack && AckInput(e, em.bytes).value.2 == h.ackBits
    ensures Recording(e, em.bytes).Some? ==> Recording(e, em.bytes).value.0 == em.number % 65536
    ensures var data := y.sends[em.number]; var c := y.ep.config;
      match FragmentInput(e, em.bytes)
      case Some((fragment, body)) =>
        && |data| > c.fragmentAbove
        && fragment == Fragments.FragmentHeader(em.number % 65536, k, Fragments.DivCeil(|data|, c.fragmentSize)) && k < fragment.count
        && k * c.fragmentSize <= |data| && body == Fragments.Chunk(data, c.fragmentSize, k)
      case None =>
        AcceptsRegular(e, em.bytes, em.number % 65536) ==>
          && |data| <= c.fragmentAbove
          && em.bytes == RegularDatagram(h, data, c.MaxDatagramSize())
          && Packets.Decode(em.bytes) == Some((h, |Packets.Encode(h)|))
  {
    Datagram.ReadDatagram(e, y.ep.config, h, y.sends[em.number], k);
  }

  // ---- What every move keeps, whatever the network does ----

  lemma ReceivedKeepsOwn(x: Node, em: Emission)
    requires Own(x)
    ensures var x' := ReceiveEmission(x, em);
      Own(x') && Grows(x, x') && x'.sends == x.sends && x'.queued == x.queued && x'.emitted == x.emitted
  {
    var x' := ReceiveEmission(x, em);
    ReceiveKeepsInvariant(x.ep, em.bytes);
    ReceiveAcks(x.ep, em.bytes);
    match AckInput(x.ep, em.bytes) {
      case None =>
      case Some((base, ack, ackBits)) => AckingMarksExactly(base, ack, ackBits, 32);
    }
    AllHonest(x, x', x.queued);
    AllHonest(x, x', x.emitted);
  }

  /** Flushing and housekeeping leave what was sent and received in place. */
  lemma LocalKeepsOwn(x: Node, y: Node, move: Move, promise: Promise)
    requires Own(x) && (move.Flush? || move.Housekeep?)
    ensures var x' := Move1(x, y, move, promise);
      && Own(x') && Grows(x, x') && x'.sends == x.sends && x'.recorded == x.recorded
      && x'.ep.sent == x.ep.sent && x'.ep.received == x.ep.received
      && (forall em | em in x'.queued || em in x'.emitted :: em in x.queued || em in x.emitted)
  {
    var x' := Move1(x, y, move, promise);
    if move.Housekeep? && (move.step.DrainIn? || move.step.Clear? || move.step.Update?) {
      ApplyKeepsInvariant(x.ep, move.step);
    }
    AllHonest(x, x', x.queued);
    AllHonest(x, x', x.emitted);
  }

  lemma MoveKeepsOwn(x: Node, y: Node, move: Move, promise: Promise)
    requires Own(x)
    ensures var x' := Move1(x, y, move, promise); Own(x') && Grows(x, x')
  {
    match move {
      case Submit(data) => SubmitKeepsOwn(x, data);
      case Deliver(i) => if i < |y.emitted| { ReceivedKeepsOwn(x, y.emitted[i]); }
      case _ => LocalKeepsOwn(x, y, move, promise);
    }
  }

  // ---- What a timely network with recent acknowledgements keeps ----

  /** A tracked number that an acknowledgement of `r` resolves to is `r`, exactly if `r` is of the last cycle. */
  lemma AckAttribution(w: Window<SentData>, r: int)
    requires w.Valid() && r < w.head && w.Exists(r % 65536)
    ensures w.Resolve(r % 65536) == r <==> w.head - r <= 65536
  {
    w.ResolveExact(r);
    if w.head - 65536 <= r {
      w.ExistsIsMembership(r);
    }
  }

  /** A tracked number that exact and recent acknowledgements announce is one the peer recorded. */
  lemma AnnouncedWasSeen(w: Window<SentData>, h: Packets.PacketHeader, ackHead: int, seen: set<int>, v: int)
    requires w.Valid() && BitsExact(h, ackHead, seen) && w.head - (ackHead - 32) <= 65536
    requires forall u <- seen :: u < w.head
    requires v in w.live && Announced(w, h.ack, h.ackBits, 32, v)
    ensures v in seen && ackHead - 32 <= v < ackHead
  {
    var i :| 0 <= i < 32 && BitSet(h.ackBits, i) && w.Resolve(WrappingSub(h.ack, i)) == v;
    AckNumber(ackHead, i);
    AckAttribution(w, ackHead - 1 - i);
  }

  lemma AckNumber(ackHead: int, i: nat)
    requires i < 32
    ensures WrappingSub((ackHead - 1) % 65536, i) == (ackHead - 1 - i) % 65536
  {
    WrappingSteps(ackHead - 1, i);
  }

  /** A timely number is inserted as itself or not at all. */
  lemma TimelyInsertsItself<T>(w: Window<T>, number: int, data: T)
    requires TimelyFor(w, number)
    ensures w.Insert(number % 65536, data).live.Keys <= w.live.Keys + {number}
  {
  }

  lemma HonestNumber(y: Node, em: Emission)
    requires Honest(y, em)
    ensures 0 <= em.number < |y.sends|
  {
    var h, k :| Carries(y, em, h, k);
  }

  lemma ReceivedKeepsFaithful(x: Node, y: Node, em: Emission)
    requires Own(x) && Faithful(x, y) && Honest(y, em) && TimelyFor(x.ep.received, em.number)
    ensures Faithful(ReceiveEmission(x, em), y)
  {
    var h, k :| Carries(y, em, h, k);
    HonestReads(x.ep, y, em, h, k);
    ReceiveRecords(x.ep, em.bytes);
    match Recording(x.ep, em.bytes) {
      case None =>
      case Some((s, d)) => TimelyInsertsItself(x.ep.received, em.number, d);
    }
  }

  lemma SubmitKeepsFaithful(x: Node, y: Node, data: seq<u8>)
    requires Own(x) && Faithful(x, y)
    ensures Faithful(SubmitPayload(x, data), y)
  {
    var x' := SubmitPayload(x, data);
    if |data| <= x.ep.config.maxPacketSize {
      SubmitState(x, data);
      SubmitQueues(x, data);
      forall i | 0 <= i < |x'.queued|
        ensures x'.queued[i].seen <= x'.recorded
      {
        if i < |x.queued| {
          assert x'.queued[i] == x'.queued[..|x.queued|][i] == x.queued[i];
        }
      }
    }
  }

  lemma MoveKeepsFaithful(x: Node, y: Node, move: Move, promise: Promise)
    requires Own(x) && Own(y) && Faithful(x, y) && promise.timely
    ensures Faithful(Move1(x, y, move, promise), y)
  {
    match move {
      case Submit(data) => SubmitKeepsFaithful(x, y, data);
      case Deliver(i) =>
        if i < |y.emitted| && Deliverable(x, y.emitted[i], promise) { ReceivedKeepsFaithful(x, y, y.emitted[i]); }
      case _ => LocalKeepsOwn(x, y, move, promise);
    }
  }

  lemma ReceivedKeepsSound(x: Node, y: Node, em: Emission)
    requires Own(x) && Own(y) && Faithful(y, x) && Sound(x, y) && em in y.emitted && TimelyAcks(x.ep, em.ackHead)
    ensures Sound(ReceiveEmission(x, em), y)
  {
    var h, k :| Carries(y, em, h, k);
    HonestReads(x.ep, y, em, h, k);
    ReceiveAcks(x.ep, em.bytes);
    if AckInput(x.ep, em.bytes).Some? {
      var base := AckInput(x.ep, em.bytes).value.0;
      AckingMarksExactly(base, h.ack, h.ackBits, 32);
      var w := ReceivePacket(x.ep, em.bytes).sent;
      forall v | v in w.live && w.live[v].acked
        ensures v in y.recorded
      {
        if !x.ep.sent.live[v].acked {
          AnnouncedWasSeen(x.ep.sent, h, em.ackHead, em.seen, v);
        }
      }
    }
  }

  lemma SubmitKeepsSound(x: Node, y: Node, data: seq<u8>)
    requires Own(x) && Sound(x, y)
    ensures Sound(SubmitPayload(x, data), y)
  {
    NextIsInsertable(x.ep.sent, SentData(false, PacketBytes(x.ep.config, |data|)));
  }

  lemma MoveKeepsSound(x: Node, y: Node, move: Move, promise: Promise)
    requires Own(x) && Own(y) && Faithful(y, x) && Sound(x, y) && promise.recent
    ensures Sound(Move1(x, y, move, promise), y)
  {
    match move {
      case Submit(data) => SubmitKeepsSound(x, y, data);
      case Deliver(i) =>
        if i < |y.emitted| && Deliverable(x, y.emitted[i], promise) { ReceivedKeepsSound(x, y, y.emitted[i]); }
      case _ => LocalKeepsOwn(x, y, move, promise);
    }
  }

  lemma PeerGrowthKeeps(x: Node, y: Node, y': Node)
    requires Grows(y, y')
    ensures Faithful(x, y) ==> Faithful(x, y')
    ensures Sound(x, y) ==> Sound(x, y')
  {
  }

  // ---- Runs of the pair ----

  datatype System = System(a: Node, b: Node)

  ghost predicate Fresh(x: Node) {
    x == Node(x.ep, [], [], [], {}, map[], []) && x.ep.Initial()
  }

  /** One move of either side, `(true, m)` being a move of `a`. */
  ghost function Next(s: System, move: (bool, Move), promise: Promise): System
    requires Runnable(s.a.ep) && Runnable(s.b.ep)
  {
    if move.0 then System(Move1(s.a, s.b, move.1, promise), s.b)
    else System(s.a, Move1(s.b, s.a, move.1, promise))
  }

  /** The pair after any sequence of moves. */
  ghost function AfterMoves(start: System, moves: seq<(bool, Move)>, promise: Promise): System
    decreases |moves|
  {
    if moves == [] then start
    else
      var s := AfterMoves(start, moves[..|moves| - 1], promise);
      if Runnable(s.a.ep) && Runnable(s.b.ep) then Next(s, moves[|moves| - 1], promise) else s
  }

  ghost predicate SameConfigs(s: System, s': System) {
    s'.a.ep.config == s.a.ep.config && s'.b.ep.config == s.b.ep.config
  }

  /** Both sides' own invariants hold after every run, whatever the network delivers. */
  lemma {:induction false} RunsStayOwn(start: System, moves: seq<(bool, Move)>, promise: Promise)
    requires Fresh(start.a) && Fresh(start.b)
    ensures var s := AfterMoves(start, moves, promise); Own(s.a) && Own(s.b) && SameConfigs(start, s)
    decreases |moves|
  {
    if moves != [] {
      var n := |moves| - 1;
      RunsStayOwn(start, moves[..n], promise);
      var s, move := AfterMoves(start, moves[..n], promise), moves[n];
      if move.0 { MoveKeepsOwn(s.a, s.b, move.1, promise); } else { MoveKeepsOwn(s.b, s.a, move.1, promise); }
    }
  }

  ghost predicate BothFaithful(s: System) {
    Faithful(s.a, s.b) && Faithful(s.b, s.a)
  }

  lemma NextKeepsFaithful(s: System, move: (bool, Move), promise: Promise)
    requires Own(s.a) && Own(s.b) && BothFaithful(s) && promise.timely
    ensures BothFaithful(Next(s, move, promise))
  {
    var x, y := Side(s, move.0), Side(s, !move.0);
    MoveKeepsOwn(x, y, move.1, promise);
    MoveKeepsFaithful(x, y, move.1, promise);
    PeerGrowthKeeps(y, x, Move1(x, y, move.1, promise));
  }

  /** After every run on a timely network, only what was recorded is tracked and acknowledged, and only
      what the peer sent was recorded. */
  lemma {:induction false} RunsStayFaithful(start: System, moves: seq<(bool, Move)>, promise: Promise)
    requires Fresh(start.a) && Fresh(start.b) && promise.timely
    ensures BothFaithful(AfterMoves(start, moves, promise))
    decreases |moves|
  {
    if moves != [] {
      var n := |moves| - 1;
      RunsStayFaithful(start, moves[..n], promise);
      RunsStayOwn(start, moves[..n], promise);
      NextKeepsFaithful(AfterMoves(start, moves[..n], promise), moves[n], promise);
    }
  }

  lemma NextKeepsSound(s: System, move: (bool, Move), promise: Promise)
    requires Own(s.a) && Own(s.b) && BothFaithful(s) && Sound(s.a, s.b) && Sound(s.b, s.a) && promise.recent
    ensures var s' := Next(s, move, promise); Sound(s'.a, s'.b) && Sound(s'.b, s'.a)
  {
    var x, y := Side(s, move.0), Side(s, !move.0);
    MoveKeepsOwn(x, y, move.1, promise);
    MoveKeepsSound(x, y, move.1, promise);
    PeerGrowthKeeps(y, x, Move1(x, y, move.1, promise));
  }

  /** After every run on a timely network that delivers only recent acknowledgements, acknowledged means
      recorded by the peer, on both sides. */
  lemma {:induction false} RunsStaySound(start: System, moves: seq<(bool, Move)>, promise: Promise)
    requires Fresh(start.a) && Fresh(start.b) && promise.timely && promise.recent
    ensures var s := AfterMoves(start, moves, promise); Sound(s.a, s.b) && Sound(s.b, s.a)
    decreases |moves|
  {
    if moves != [] {
      var n := |moves| - 1;
      RunsStaySound(start, moves[..n], promise);
      RunsStayFaithful(start, moves[..n], promise);
      RunsStayOwn(start, moves[..n], promise);
      NextKeepsSound(AfterMoves(start, moves[..n], promise), moves[n], promise);
    }
  }

  function Side(s: System, first: bool): Node {
    if first then s.a else s.b
  }

  /** Move `j` delivered a datagram of the sender's packet `u`, which the peer counted and tracked. */
  ghost predicate RecordsAt(start: System, moves: seq<(bool, Move)>, promise: Promise, sender: bool, j: nat, u: int)
    requires j < |moves|
  {
    var before, after := AfterMoves(start, moves[..j], promise), AfterMoves(start, moves[..j + 1], promise);
    && moves[j].0 == !sender
    && Records(Side(before, !sender), Side(before, sender), moves[j].1, Side(after, !sender), u)
  }

  ghost predicate Records(x: Node, y: Node, move: Move, x': Node, u: int) {
    && move.Deliver? && move.i < |y.emitted| && y.emitted[move.i].number == u
    && x.ep.counters.packetsReceived < x'.ep.counters.packetsReceived
    && u in x'.ep.received.live
  }

  lemma RecordedByMove(s: System, move: (bool, Move), promise: Promise, sender: bool, u: int)
    requires Runnable(s.a.ep) && Runnable(s.b.ep) && u in Side(Next(s, move, promise), !sender).recorded
    requires u !in Side(s, !sender).recorded
    ensures move.0 == !sender
    ensures Records(Side(s, !sender), Side(s, sender), move.1, Side(Next(s, move, promise), !sender), u)
  {
  }

  lemma MovesStep(start: System, moves: seq<(bool, Move)>, promise: Promise, n: nat)
    requires n < |moves|
    ensures var s := AfterMoves(start, moves[..n], promise);
      AfterMoves(start, moves[..n + 1], promise) == if Runnable(s.a.ep) && Runnable(s.b.ep) then Next(s, moves[n], promise) else s
  {
    assert moves[..n + 1][..n] == moves[..n];
  }

  /** Move `n` of the run recorded `u`, or `u` had been recorded before. */
  lemma RecordedAtOrBefore(start: System, moves: seq<(bool, Move)>, promise: Promise, sender: bool, u: int, n: nat)
    requires n < |moves| && u in Side(AfterMoves(start, moves[..n + 1], promise), !sender).recorded
    ensures u in Side(AfterMoves(start, moves[..n], promise), !sender).recorded
         || RecordsAt(start, moves, promise, sender, n, u)
  {
    var before := AfterMoves(start, moves[..n], promise);
    MovesStep(start, moves, promise, n);
    if u !in Side(before, !sender).recorded {
      RecordedByMove(before, moves[n], promise, sender, u);
    }
  }

  lemma AtStart(start: System, moves: seq<(bool, Move)>, promise: Promise)
    ensures AfterMoves(start, moves[..0], promise) == start
  {
  }

  lemma {:induction false} RecordedHasCause(start: System, moves: seq<(bool, Move)>, promise: Promise, sender: bool, u: int, n: nat)
    returns (j: nat)
    requires Side(start, !sender).recorded == {} && n <= |moves|
    requires u in Side(AfterMoves(start, moves[..n], promise), !sender).recorded
    ensures j < n && RecordsAt(start, moves, promise, sender, j, u)
    decreases n
  {
    AtStart(start, moves, promise);
    if u in Side(AfterMoves(start, moves[..n - 1], promise), !sender).recorded {
      j := RecordedHasCause(start, moves, promise, sender, u, n - 1);
    } else {
      j := n - 1;
      RecordedAtOrBefore(start, moves, promise, sender, u, j);
    }
  }

  /**
    Acknowledgement soundness: over every run on a losing, duplicating, reordering network of bounded
    staleness, a packet marked acknowledged was sent, and an earlier move of the run delivered that very
    packet to the peer, which recorded it.
   */
  lemma AcknowledgedMeansRecorded(start: System, moves: seq<(bool, Move)>, promise: Promise, sender: bool, u: int)
    requires Fresh(start.a) && Fresh(start.b) && promise.timely && promise.recent
    requires var sent := Side(AfterMoves(start, moves, promise), sender).ep.sent; u in sent.live && sent.live[u].acked
    ensures 0 <= u < |Side(AfterMoves(start, moves, promise), sender).sends|
    ensures exists j :: 0 <= j < |moves| && RecordsAt(start, moves, promise, sender, j, u)
  {
    RunsStaySound(start, moves, promise);
    RunsStayFaithful(start, moves, promise);
    assert moves[..|moves|] == moves;
    var j := RecordedHasCause(start, moves, promise, sender, u, |moves|);
  }
}
