/**
  Runs in which a fragmented packet is lost or spoiled although nothing need be late or lost: the reassembly
  window does not move with unfragmented traffic. And exactly when a fragmented packet is lost that way.
 */
module Sessions {
  import opened Bits
  import Datagram
  import opened EndpointModel
  import EndpointRuns
  import Fragments
  import Integrity
  import opened Network
  import Packets
  import RoundTrip
  import opened Sequence
  import opened Windows

  // ---- Sending and delivering at once ----

  /** `b` has been delivered everything of `a` it was to be, the last packet included, and sent nothing;
      its reassembly, openers and inbox are as given. `sent` packets were sent, in `emitted` datagrams. */
  ghost predicate Synced(s: System, sent: nat, emitted: nat, r: Fragments.Reassembly, openers: map<u16, int>) {
    && Own(s.a) && Own(s.b)
    && |s.a.sends| == sent && s.a.queued == [] && |s.a.emitted| == emitted && s.a.ep.received.head == 0
    && s.b.ep.sent.head == 0 && sent - 1 <= s.b.ep.received.head <= sent
    && s.b.ep.reassembly == r && s.b.openers == openers
    && s.b.ep.incoming == [] && s.b.inbox == []
  }

  ghost function SendAndFlush(x: Node, y: Node, data: seq<u8>, promise: Promise): (x': Node)
    requires Own(x)
    ensures Own(x') && x'.ep.config == x.ep.config
  {
    MoveKeepsOwn(x, y, Submit(data), promise);
    MoveKeepsOwn(Move1(x, y, Submit(data), promise), y, Flush, promise);
    Move1(Move1(x, y, Submit(data), promise), y, Flush, promise)
  }

  lemma QueuesAll(x: Node, data: seq<u8>)
    requires Own(x) && x.queued == [] && |data| <= x.ep.config.maxPacketSize
    requires |Datagrams(x.ep.config, OutgoingHeader(x.ep), data)| <= x.ep.config.outgoingSize
    ensures var x' := SubmitPayload(x, data); var packets := Datagrams(x.ep.config, OutgoingHeader(x.ep), data);
      && x'.sends == x.sends + [data] && x'.emitted == x.emitted && x'.ep.received == x.ep.received
      && |x'.queued| == |packets| && forall k | 0 <= k < |packets| :: x'.queued[k] == Tag(packets[k].data, x.ep)
  {
    RoundTrip.SendQueuesAll(x.ep, data);
    SubmitState(x, data);
    SubmitQueues(x, data);
    assert x.ep.outgoing == [];
  }

  /** Flushing after a submission emits exactly the datagrams of the payload. */
  lemma Emits(x: Node, y: Node, data: seq<u8>, promise: Promise)
    requires Own(x) && x.queued == [] && |data| <= x.ep.config.maxPacketSize
    requires |Datagrams(x.ep.config, OutgoingHeader(x.ep), data)| <= x.ep.config.outgoingSize
    ensures var x' := SendAndFlush(x, y, data, promise); var packets := Datagrams(x.ep.config, OutgoingHeader(x.ep), data);
      && x'.sends == x.sends + [data] && x'.queued == [] && x'.ep.received == x.ep.received
      && |x'.emitted| == |x.emitted| + |packets|
      && forall k | 0 <= k < |packets| :: x'.emitted[|x.emitted| + k] == Tag(packets[k].data, x.ep)
  {
    QueuesAll(x, data);
    var x1 := SubmitPayload(x, data);
    assert SendAndFlush(x, y, data, promise) == x1.(ep := DrainOutgoing(x1.ep), queued := [], emitted := x.emitted + x1.queued);
  }

  /** The receiver is about to be delivered a datagram of the newest packet, composed by a sender that has
      received nothing: there is no staleness at all. */
  ghost predicate Newest(x: Node, em: Emission) {
    && Own(x) && x.ep.sent.head == 0 && em.ackHead == 0
    && 0 <= em.number && em.number - 1 <= x.ep.received.head <= em.number
  }

  lemma NewestIsTimely(x: Node, em: Emission)
    requires Newest(x, em)
    ensures Timely(x.ep, em)
    ensures var w, q := x.ep.received, em.number % 65536;
      w.CanInsert(q) && w.Resolve(q) == em.number && !w.Exists(q)
  {
    x.ep.received.ResolveExact(em.number);
  }

  /** An unfragmented packet moves the receive window, and nothing of reassembly. */
  lemma ReceiveEmpty(x: Node, em: Emission, h: Packets.PacketHeader, capacity: nat)
    requires Newest(x, em) && capacity >= Packets.MAX_PACKET_HEADER_BYTES
    requires em.bytes == RegularDatagram(h, [], capacity) && h.sequence == em.number % 65536
    ensures Timely(x.ep, em) && Unmixed(x, em)
    ensures var x' := ReceiveEmission(x, em);
      && Own(x') && x'.ep.config == x.ep.config && x'.ep.sent.head == 0 && x'.ep.received.head == em.number + 1
      && x'.ep.reassembly == x.ep.reassembly && x'.openers == x.openers
      && x'.ep.incoming == x.ep.incoming && x'.inbox == x.inbox
  {
    NewestIsTimely(x, em);
    Datagram.ReadRegularDatagram(h, [], capacity);
    assert EndpointRuns.AcceptsRegular(x.ep, em.bytes, h.sequence);
    ReceivedKeepsOwn(x, em);
    EndpointRuns.ReceiveRecords(x.ep, em.bytes);
    EndpointRuns.ReceiveDelivers(x.ep, em.bytes);
    assert x.ep.incoming + [] == x.ep.incoming;
    assert x.inbox + [] == x.inbox;
  }

  // ---- Prompt empty packets ----

  /** Runs compose. */
  lemma {:induction false} AfterMore(s: System, moves: seq<(bool, Move)>, more: seq<(bool, Move)>, promise: Promise)
    ensures AfterMoves(s, moves + more, promise) == AfterMoves(AfterMoves(s, moves, promise), more, promise)
    decreases |more|
  {
    if more == [] {
      assert moves + more == moves;
    } else {
      var n := |more| - 1;
      AfterMore(s, moves, more[..n], promise);
      assert (moves + more)[..|moves + more| - 1] == moves + more[..n];
    }
  }

  lemma OneMove(s: System, move: (bool, Move), promise: Promise)
    requires Own(s.a) && Own(s.b)
    ensures AfterMoves(s, [move], promise) == Next(s, move, promise)
  {
    assert [move][..0] == [];
  }

  /** `a` submits a payload and flushes. */
  function Sending(data: seq<u8>): seq<(bool, Move)> {
    [(true, Submit(data))] + [(true, Flush)]
  }

  lemma SendMoves(s: System, data: seq<u8>, promise: Promise)
    requires Own(s.a) && Own(s.b)
    ensures AfterMoves(s, Sending(data), promise) == System(SendAndFlush(s.a, s.b, data, promise), s.b)
  {
    MoveKeepsOwn(s.a, s.b, Submit(data), promise);
    OneMove(s, (true, Submit(data)), promise);
    OneMove(Next(s, (true, Submit(data)), promise), (true, Flush), promise);
    AfterMore(s, [(true, Submit(data))], [(true, Flush)], promise);
  }

  lemma DeliverMove(s: System, i: nat, promise: Promise)
    requires Own(s.a) && Own(s.b) && i < |s.a.emitted| && Deliverable(s.b, s.a.emitted[i], promise)
    ensures AfterMoves(s, [(false, Deliver(i))], promise) == System(s.a, ReceiveEmission(s.b, s.a.emitted[i]))
  {
    OneMove(s, (false, Deliver(i)), promise);
  }

  /** `a` sends an empty packet, and its datagram, the one after `emitted` others, arrives at once. */
  function Prompt(emitted: nat): seq<(bool, Move)> {
    Sending([]) + [(false, Deliver(emitted))]
  }

  function Prompts(emitted: nat, k: nat): seq<(bool, Move)> {
    if k == 0 then [] else Prompts(emitted, k - 1) + Prompt(emitted + k - 1)
  }

  ghost predicate Extends(s: System, s': System) {
    SameConfigs(s, s') && s.a.sends <= s'.a.sends
  }

  lemma PromptStaysSynced(s: System, promise: Promise, sent: nat, emitted: nat, r: Fragments.Reassembly,
                          openers: map<u16, int>) returns (s': System)
    requires Synced(s, sent, emitted, r, openers)
    ensures s' == AfterMoves(s, Prompt(emitted), promise)
    ensures Synced(s', sent + 1, emitted + 1, r, openers) && Extends(s, s')
  {
    SendMoves(s, [], promise);
    Emits(s.a, s.b, [], promise);
    OutgoingBitsExact(s.a);
    var mid := System(SendAndFlush(s.a, s.b, [], promise), s.b);
    var em := mid.a.emitted[emitted];
    ReceiveEmpty(s.b, em, OutgoingHeader(s.a.ep), s.a.ep.config.MaxDatagramSize());
    DeliverMove(mid, emitted, promise);
    AfterMore(s, Sending([]), [(false, Deliver(emitted))], promise);
    s' := System(mid.a, ReceiveEmission(s.b, em));
  }

  lemma ExtendsFurther(s: System, s': System, s'': System)
    requires Extends(s, s') && Extends(s', s'')
    ensures Extends(s, s'')
  {
  }

  lemma PromptsNext(emitted: nat, k: nat, next: nat)
    requires next == emitted + k
    ensures Prompts(emitted, k + 1) == Prompts(emitted, k) + Prompt(next)
  {
  }

  /** Empty packets that all arrive at once leave reassembly where it was. */
  lemma PromptsStaySynced(s: System, promise: Promise, sent: nat, emitted: nat, r: Fragments.Reassembly,
                          openers: map<u16, int>, k: nat) returns (s': System)
    requires Synced(s, sent, emitted, r, openers)
    ensures s' == AfterMoves(s, Prompts(emitted, k), promise)
    ensures Synced(s', sent + k, emitted + k, r, openers) && Extends(s, s')
  {
    s' := s;
    var moves, count, next := [], sent, emitted;
    for n := 0 to k
      invariant moves == Prompts(emitted, n) && count == sent + n && next == emitted + n
      invariant s' == AfterMoves(s, moves, promise)
      invariant Synced(s', count, next, r, openers) && Extends(s, s')
    {
      var after := PromptStaysSynced(s', promise, count, next, r, openers);
      AfterMore(s, moves, Prompt(next), promise);
      ExtendsFurther(s, s', after);
      PromptsNext(emitted, n, next);
      s', moves, count, next := after, moves + Prompt(next), count + 1, next + 1;
    }
  }

  // ---- Unfragmented traffic shuts the reassembly window ----

  /** The sequences that a reassembly window which has never moved accepts. */
  lemma UnmovedWindowAccepts(w: Window<()>, q: u16)
    requires 2 <= w.size <= 16384 && w.head == 0
    ensures w.CanInsert(q) <==> q < 32768 - w.size || q >= 65536 - w.size
  {
  }

  lemma FreshIsSynced(start: System)
    requires Fresh(start.a) && Fresh(start.b)
    ensures Synced(start, 0, 0, start.b.ep.reassembly, map[])
  {
    EndpointRuns.InitialInvariant(start.a.ep);
    EndpointRuns.InitialInvariant(start.b.ep);
  }

  /** A datagram of an unfragmented packet leaves reassembly alone, whatever becomes of it. */
  lemma UnfragmentedLeavesReassembly(x: Node, y: Node, em: Emission)
    requires Own(x) && Honest(y, em) && Integrity.Unfragmented(y, em.number)
    ensures ReceiveEmission(x, em).ep.reassembly == x.ep.reassembly
  {
    var h, k :| Carries(y, em, h, k);
    HonestReads(x.ep, y, em, h, k);
    EndpointRuns.ReceiveRecords(x.ep, em.bytes);
  }

  /** Nothing sent so far was long enough to be fragmented. */
  ghost predicate AllUnfragmented(y: Node) {
    forall data <- y.sends :: |data| <= y.ep.config.fragmentAbove
  }

  lemma MoveLeavesReassembly(x: Node, y: Node, move: Move, promise: Promise)
    requires Own(x) && Own(y) && AllUnfragmented(y)
    ensures Move1(x, y, move, promise).ep.reassembly == x.ep.reassembly
  {
    if move.Deliver? {
      if move.i < |y.emitted| {
        HonestNumber(y, y.emitted[move.i]);
        UnfragmentedLeavesReassembly(x, y, y.emitted[move.i]);
      }
    } else {
      Integrity.LocalKeepsReassembly(x, y, move, promise);
    }
  }

  lemma NextLeavesReassembly(s: System, move: (bool, Move), promise: Promise, sender: bool)
    requires Own(s.a) && Own(s.b) && AllUnfragmented(Side(Next(s, move, promise), sender))
    ensures AllUnfragmented(Side(s, sender))
    ensures Side(Next(s, move, promise), !sender).ep.reassembly == Side(s, !sender).ep.reassembly
  {
    var x, y := Side(s, !sender), Side(s, sender);
    MoveKeepsOwn(y, x, move.1, promise);
    FewerUnfragmented(y, Move1(y, x, move.1, promise));
    MoveLeavesReassembly(x, y, move.1, promise);
  }

  lemma FewerUnfragmented(y: Node, y': Node)
    requires Grows(y, y')
    ensures AllUnfragmented(y') ==> AllUnfragmented(y)
  {
    assert forall data <- y.sends :: data in y'.sends;
  }

  /** Over every run, whatever the network delivers and the other side sends: unfragmented packets, however
      many, leave the reassembly of their receiver as it was at the start. */
  lemma {:induction false} UnfragmentedNeverMoveReassembly(start: System, moves: seq<(bool, Move)>, promise: Promise,
                                                           sender: bool)
    requires Fresh(start.a) && Fresh(start.b) && AllUnfragmented(Side(AfterMoves(start, moves, promise), sender))
    ensures Side(AfterMoves(start, moves, promise), !sender).ep.reassembly == Side(start, !sender).ep.reassembly
    decreases |moves|
  {
    if moves != [] {
      var n := |moves| - 1;
      RunsStayOwn(start, moves[..n], promise);
      NextLeavesReassembly(AfterMoves(start, moves[..n], promise), moves[n], promise, sender);
      UnfragmentedNeverMoveReassembly(start, moves[..n], promise, sender);
    }
  }

  /** The payload can be sent in fragments that all can arrive. */
  ghost predicate Fragmentable(c: Config, f: Config, data: seq<u8>) {
    Integrity.Compatible(c, f) && RoundTrip.Splits(c, f, data) && |data| <= c.maxPacketSize
  }

  /** What `f` has received when all fragments of `data`, which `e` sends next, arrived in the given order. */
  ghost function ReceivedAfter(e: EndpointState, data: seq<u8>, f: EndpointState, order: seq<nat>): seq<Packet>
    requires EndpointRuns.Runnable(e)
  {
    RoundTrip.ReceiveInOrder(f, NewPackets(e.outgoing, SendPacket(e, data).outgoing), order).incoming
  }

  lemma FragmentedNow(e: EndpointState, data: seq<u8>, f: EndpointState, order: seq<nat>)
    requires EndpointRuns.Invariant(e) && EndpointRuns.Invariant(f) && f.reassembly.Initial()
    requires Fragmentable(e.config, f.config, data) && |f.incoming| < f.config.incomingSize
    requires |e.outgoing| + Fragments.DivCeil(|data|, e.config.fragmentSize) <= e.config.outgoingSize
    requires RoundTrip.Permutation(order, Fragments.DivCeil(|data|, e.config.fragmentSize))
    ensures var q, size := e.sequence, f.config.reassemblySize;
      ReceivedAfter(e, data, f, order) ==
        f.incoming + if q < 32768 - size || q >= 65536 - size then [Packet(q, data)] else []
  {
    UnmovedWindowAccepts(f.reassembly.tracker, e.sequence);
    RoundTrip.PayloadRoundTrip(e, data, f, order);
  }

  /**
    For every run from a fresh pair, whatever the network did and the other side sent, in which everything
    this side sent was unfragmented: a fragmented payload, all of whose datagrams then arrive, in whatever
    order, is delivered exactly if its sequence is still within half a cycle of the reassembly window, which
    has not moved since the start.
   */
  lemma FragmentedAfterUnfragmented(start: System, moves: seq<(bool, Move)>, promise: Promise, sender: bool,
                                    data: seq<u8>, order: seq<nat>)
    requires Fresh(start.a) && Fresh(start.b)
    requires Fragmentable(Side(start, sender).ep.config, Side(start, !sender).ep.config, data)
    requires RoundTrip.Permutation(order, Fragments.DivCeil(|data|, Side(start, sender).ep.config.fragmentSize))
    requires var s := AfterMoves(start, moves, promise); var y, x := Side(s, sender), Side(s, !sender);
      && AllUnfragmented(y) && |x.ep.incoming| < x.ep.config.incomingSize
      && |y.ep.outgoing| + |order| <= y.ep.config.outgoingSize
    ensures EndpointRuns.Runnable(Side(AfterMoves(start, moves, promise), sender).ep)
    ensures var s := AfterMoves(start, moves, promise); var y, x := Side(s, sender), Side(s, !sender);
      var q, size := |y.sends| % 65536, Side(start, !sender).ep.config.reassemblySize;
      ReceivedAfter(y.ep, data, x.ep, order) ==
        x.ep.incoming + if q < 32768 - size || q >= 65536 - size then [Packet(q, data)] else []
  {
    RunsStayOwn(start, moves, promise);
    UnfragmentedNeverMoveReassembly(start, moves, promise, sender);
    var s := AfterMoves(start, moves, promise);
    FragmentedNow(Side(s, sender).ep, data, Side(s, !sender).ep, order);
  }

  /** So fragmented payloads can be shut out without any loss or delay: with 64 reassembly slots, say, after
      40000 unfragmented packets, here empty ones, each of which arrived at once. */
  lemma FragmentsShutOut(start: System, k: nat, data: seq<u8>, order: seq<nat>) returns (s: System)
    requires Fresh(start.a) && Fresh(start.b) && Fragmentable(start.a.ep.config, start.b.ep.config, data)
    requires RoundTrip.Permutation(order, Fragments.DivCeil(|data|, start.a.ep.config.fragmentSize))
    requires |order| <= start.a.ep.config.outgoingSize
    requires 32768 <= k + start.b.ep.config.reassemblySize < 65536
    ensures s == AfterMoves(start, Prompts(0, k), Promise(true, true, true)) && EndpointRuns.Runnable(s.a.ep)
    ensures |s.a.sends| == k && ReceivedAfter(s.a.ep, data, s.b.ep, order) == []
  {
    SmallRemainder(k);
    FreshIsSynced(start);
    s := PromptsStaySynced(start, Promise(true, true, true), 0, 0, start.b.ep.reassembly, map[], k);
    FragmentedNow(s.a.ep, data, s.b.ep, order);
  }
}
