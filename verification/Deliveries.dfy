/**
  What a fragmented packet is delivered as, and how often: over every run, a completed packet is put
  together from chunks of packets sent under its sequence; over unmixed runs, it is delivered no more
  often than any one of its fragments.
 */
module Deliveries {
  import opened Arithmetic
  import opened Bits
  import opened EndpointModel
  import EndpointRuns
  import Fragments
  import Integrity
  import Mixing
  import opened Network
  import opened ReassemblyRuns

  // ---- What is delivered, whatever the network does ----

  /** `part` is chunk `i` of a payload sent under sequence `q`, of `count` chunks. */
  ghost predicate Sourced(part: seq<u8>, i: nat, q: u16, count: nat, sends: seq<seq<u8>>, size: nat)
    requires size > 0
  {
    exists u :: 0 <= u < |sends| && u % 65536 == q && IsChunk(part, i, sends[u], count, size)
  }

  ghost predicate IsChunk(part: seq<u8>, i: nat, payload: seq<u8>, count: nat, size: nat)
    requires size > 0
  {
    && i < count == Fragments.DivCeil(|payload|, size)
    && i * size <= |payload| && part == Fragments.Chunk(payload, size, i)
  }

  ghost predicate AllSourced(parts: map<nat, seq<u8>>, q: u16, count: nat, sends: seq<seq<u8>>, size: nat)
    requires size > 0
  {
    forall i <- parts :: Sourced(parts[i], i, q, count, sends, size)
  }

  ghost predicate SlotsSourced(r: Fragments.Reassembly, sends: seq<seq<u8>>, size: nat)
    requires r.Shape() && size > 0
  {
    forall q: u16 | Open(r, q).Some? :: AllSourced(Open(r, q).value.parts, q, Open(r, q).value.count, sends, size)
  }

  /** The slot that fragment `a` joins, with it. */
  function Joined(r: Fragments.Reassembly, a: Arrival): map<nat, seq<u8>>
    requires r.Shape()
  {
    PartsSoFar(r, a.h.sequence)[a.h.id := a.data]
  }

  /** A fragment of packet `u` keeps every slot filled with chunks of packets of its sequence, and completes
      with such chunks only. */
  lemma FragmentKeepsSourced(r: Fragments.Reassembly, a: Arrival, sends: seq<seq<u8>>, u: int, size: nat)
    requires r.Valid() && 0 < size <= r.fragmentSize <= 65535 && SlotsSourced(r, sends, size)
    requires 0 <= u < |sends| && a.h.sequence == u % 65536 && FromSplit(a, sends[u], size)
    ensures var (r', done) := Fragments.ProcessFragment(r, a.h, a.data);
      && r'.Shape() && SlotsSourced(r', sends, size)
      && (done.Some? ==>
            && Full(Joined(r, a), a.h.count) && (forall i <- Joined(r, a) :: i < a.h.count)
            && AllSourced(Joined(r, a), a.h.sequence, a.h.count, sends, size)
            && done.value == Fragments.Assemble(Joined(r, a), a.h.count))
  {
    var r' := Fragments.ProcessFragment(r, a.h, a.data).0;
    SameSequence(r, a.h, a.data);
    StoredWhole(sends[u], size, r.fragmentSize, a.h.id);
    forall q: u16 | q != a.h.sequence
      ensures Open(r', q) == Open(r, q) || Open(r', q) == None
    {
      OtherSequence(r, a.h, a.data, q);
    }
    if Accepted(r, a.h) {
      assert IsChunk(a.data, a.h.id, sends[u], a.h.count, size);
      assert AllSourced(Joined(r, a), a.h.sequence, a.h.count, sends, size);
    }
  }

  lemma SourcedAreSized(parts: map<nat, seq<u8>>, q: u16, count: nat, sends: seq<seq<u8>>, size: nat)
    requires size > 0 && Full(parts, count) && AllSourced(parts, q, count, sends, size)
    ensures Mixing.ChunkSized(parts, size, count)
  {
    forall i | 0 <= i < count
      ensures i in parts && Mixing.HasChunkSize(|parts[i]|, size, count, i)
    {
      assert i in parts && Sourced(parts[i], i, q, count, sends, size);
      var u :| 0 <= u < |sends| && u % 65536 == q && IsChunk(parts[i], i, sends[u], count, size);
      Mixing.ChunkSize(sends[u], size, i);
    }
  }

  /** The receiver's slots are no smaller than the sender's chunks. */
  ghost predicate Sized(x: Node, y: Node) {
    0 < y.ep.config.fragmentSize <= x.ep.config.fragmentSize <= 65535
  }

  ghost predicate SourcedBy(x: Node, y: Node) {
    Sized(x, y) && x.ep.reassembly.Shape() && SlotsSourced(x.ep.reassembly, y.sends, y.ep.config.fragmentSize)
  }

  lemma ReceivedKeepsSourced(x: Node, y: Node, em: Emission)
    requires Own(x) && Own(y) && SourcedBy(x, y) && Honest(y, em)
    ensures SourcedBy(ReceiveEmission(x, em), y)
  {
    var h, k :| Carries(y, em, h, k);
    HonestReads(x.ep, y, em, h, k);
    EndpointRuns.ReceiveRecords(x.ep, em.bytes);
    ReceivedKeepsOwn(x, em);
    match EndpointRuns.FragmentInput(x.ep, em.bytes) {
      case None =>
      case Some((fragment, body)) =>
        FragmentKeepsSourced(x.ep.reassembly, Arrival(fragment, body), y.sends, em.number, y.ep.config.fragmentSize);
    }
  }

  lemma GrowthKeepsSourced(x: Node, y: Node, y': Node)
    requires SourcedBy(x, y) && Grows(y, y')
    ensures SourcedBy(x, y')
  {
    var r, size := x.ep.reassembly, y.ep.config.fragmentSize;
    forall q: u16, i | Open(r, q).Some? && i in Open(r, q).value.parts
      ensures Sourced(Open(r, q).value.parts[i], i, q, Open(r, q).value.count, y'.sends, size)
    {
      var slot := Open(r, q).value;
      assert Sourced(slot.parts[i], i, q, slot.count, y.sends, size);
      var u :| 0 <= u < |y.sends| && u % 65536 == q && IsChunk(slot.parts[i], i, y.sends[u], slot.count, size);
      assert y'.sends[u] == y.sends[u];
    }
  }

  lemma MoveKeepsSourced(x: Node, y: Node, move: Move, promise: Promise)
    requires Own(x) && Own(y) && SourcedBy(x, y)
    ensures SourcedBy(Move1(x, y, move, promise), y)
  {
    if move.Deliver? {
      if move.i < |y.emitted| { ReceivedKeepsSourced(x, y, y.emitted[move.i]); }
    } else {
      MoveKeepsOwn(x, y, move, promise);
      Integrity.LocalKeepsReassembly(x, y, move, promise);
    }
  }

  lemma NextKeepsSourced(s: System, move: (bool, Move), promise: Promise, receiver: bool)
    requires Own(s.a) && Own(s.b) && SourcedBy(Side(s, receiver), Side(s, !receiver))
    ensures var s' := Next(s, move, promise); SourcedBy(Side(s', receiver), Side(s', !receiver))
  {
    var x, y := Side(s, receiver), Side(s, !receiver);
    if move.0 == receiver {
      MoveKeepsSourced(x, y, move.1, promise);
    } else {
      MoveKeepsOwn(y, x, move.1, promise);
      GrowthKeepsSourced(x, y, Move1(y, x, move.1, promise));
    }
  }

  lemma {:induction false} RunsStaySourced(start: System, moves: seq<(bool, Move)>, promise: Promise, receiver: bool)
    requires Fresh(start.a) && Fresh(start.b) && Sized(Side(start, receiver), Side(start, !receiver))
    ensures var s := AfterMoves(start, moves, promise); SourcedBy(Side(s, receiver), Side(s, !receiver))
    decreases |moves|
  {
    if moves != [] {
      var n := |moves| - 1;
      RunsStaySourced(start, moves[..n], promise, receiver);
      RunsStayOwn(start, moves[..n], promise);
      NextKeepsSourced(AfterMoves(start, moves[..n], promise), moves[n], promise, receiver);
    }
  }

  /** If the datagram completes its slot: the slot holds one chunk for each id, every one from some packet sent
      under this sequence and in this many fragments, and what is delivered is `payload` exactly if all these
      are its chunks. */
  ghost predicate CompletesExactly(x: Node, y: Node, em: Emission, payload: seq<u8>)
    requires x.ep.reassembly.Shape() && y.ep.config.fragmentSize > 0
  {
    var size := y.ep.config.fragmentSize;
    match EndpointRuns.FragmentInput(x.ep, em.bytes)
    case None => true
    case Some((h, body)) =>
      var parts := Joined(x.ep.reassembly, Arrival(h, body));
      var done := Fragments.ProcessFragment(x.ep.reassembly, h, body).1;
      done.Some? ==>
        && Full(parts, h.count) && AllSourced(parts, em.number % 65536, h.count, y.sends, size)
        && (done.value == payload <==>
              h.count == Fragments.DivCeil(|payload|, size) && forall k | 0 <= k < h.count :: Mixing.PartIs(parts, payload, size, k))
  }

  lemma CompletesExactlyNow(x: Node, y: Node, em: Emission, payload: seq<u8>)
    requires Own(x) && SourcedBy(x, y) && Honest(y, em)
    ensures CompletesExactly(x, y, em, payload)
  {
    var h, k :| Carries(y, em, h, k);
    HonestReads(x.ep, y, em, h, k);
    match EndpointRuns.FragmentInput(x.ep, em.bytes) {
      case None =>
      case Some((fragment, body)) =>
        var a, size := Arrival(fragment, body), y.ep.config.fragmentSize;
        FragmentKeepsSourced(x.ep.reassembly, a, y.sends, em.number, size);
        if Fragments.ProcessFragment(x.ep.reassembly, a.h, a.data).1.Some? {
          SourcedAreSized(Joined(x.ep.reassembly, a), a.h.sequence, a.h.count, y.sends, size);
          Mixing.AssemblesToIff(Joined(x.ep.reassembly, a), payload, size, a.h.count);
        }
    }
  }

  /** After every run, whatever the network delivered, any datagram the peer ever emitted completes its slot,
      if it does, with chunks of packets sent under its sequence, and with a given payload exactly if all of
      them are that payload's. */
  lemma CompletionIsExact(start: System, moves: seq<(bool, Move)>, promise: Promise, receiver: bool, i: nat,
                          payload: seq<u8>)
    requires Fresh(start.a) && Fresh(start.b) && Sized(Side(start, receiver), Side(start, !receiver))
    requires i < |Side(AfterMoves(start, moves, promise), !receiver).emitted|
    ensures Sized(Side(AfterMoves(start, moves, promise), receiver), Side(AfterMoves(start, moves, promise), !receiver))
    ensures Side(AfterMoves(start, moves, promise), receiver).ep.reassembly.Shape()
    ensures var s := AfterMoves(start, moves, promise); var x, y := Side(s, receiver), Side(s, !receiver);
      CompletesExactly(x, y, y.emitted[i], payload)
  {
    RunsStaySourced(start, moves, promise, receiver);
    RunsStayOwn(start, moves, promise);
    var s := AfterMoves(start, moves, promise);
    CompletesExactlyNow(Side(s, receiver), Side(s, !receiver), Side(s, !receiver).emitted[i], payload);
  }

  // ---- How often ----

  /** `em` is fragment `id` of packet `u`. */
  predicate IsFragment(em: Emission, u: int, id: nat) {
    em.number == u && Fragments.DecodeFragment(em.bytes).Some? && Fragments.DecodeFragment(em.bytes).value.0.id == id
  }

  ghost predicate Brings(s: System, move: (bool, Move), promise: Promise, receiver: bool, u: int, id: nat) {
    var x, y := Side(s, receiver), Side(s, !receiver);
    && move.0 == receiver && move.1.Deliver? && move.1.i < |y.emitted| && x.ep.reassembly.Shape()
    && Deliverable(x, y.emitted[move.1.i], promise) && IsFragment(y.emitted[move.1.i], u, id)
  }

  /** How many of the moves brought the receiver fragment `id` of packet `u`. */
  ghost function TimesBrought(start: System, moves: seq<(bool, Move)>, promise: Promise, receiver: bool, u: int,
                              id: nat): nat
    decreases |moves|
  {
    if moves == [] then 0
    else
      TimesBrought(start, ButLast(moves), promise, receiver, u, id)
      + if Brings(AfterMoves(start, ButLast(moves), promise), Last(moves), promise, receiver, u, id) then 1 else 0
  }

  /** How often packet `u` reached the incoming queue. */
  function Received(inbox: seq<Delivery>, u: int): nat
    decreases |inbox|
  {
    if inbox == [] then 0 else Received(ButLast(inbox), u) + if Last(inbox).number == u then 1 else 0
  }

  /** Fragment `id` is held in a slot that packet `u` opened. */
  ghost function HeldOf(r: Fragments.Reassembly, openers: map<u16, int>, u: int, id: nat): nat
    requires r.Shape()
  {
    var q: u16 := u % 65536;
    if id in PartsSoFar(r, q) && q in openers && openers[q] == u then 1 else 0
  }

  lemma ReceivedGrows(x: Node, em: Emission, u: int)
    requires x.ep.Valid() && EndpointRuns.Runnable(x.ep)
    ensures Received(ReceiveEmission(x, em).inbox, u)
         <= Received(x.inbox, u) + if em.number == u then |EndpointRuns.Arriving(x.ep, em.bytes)| else 0
  {
    var x' := ReceiveEmission(x, em);
    Integrity.InboxGrows(x, em);
    if |x'.inbox| == |x.inbox| {
      assert x'.inbox == x.inbox;
    } else {
      assert ButLast(x'.inbox) == x.inbox;
    }
  }

  /** Completing packet `u`, and holding its fragment `id`, uses up an arrival of that fragment. */
  lemma OwnFragmentIsUsed(r: Fragments.Reassembly, openers: map<u16, int>, a: Arrival, u: int, id: nat)
    requires r.Valid() && a.h.sequence == u % 65536 && id < a.h.count && Integrity.Meets(r, openers, a, u)
    ensures Fragments.ProcessFragment(r, a.h, a.data).0.Shape()
    ensures var (r', done) := Fragments.ProcessFragment(r, a.h, a.data);
      (if done.Some? then 1 else 0) + HeldOf(r', Opened(openers, r.tracker, r'.tracker, u), u, id)
      <= HeldOf(r, openers, u, id) + if a.h.id == id then 1 else 0
  {
    SameSequence(r, a.h, a.data);
    var parts := PartsSoFar(r, a.h.sequence)[a.h.id := Fragments.Stored(a.data, r.fragmentSize)];
    assert Full(parts, a.h.count) ==> id in parts;
  }

  /** A fragment of another packet adds nothing. */
  lemma OtherFragmentAddsNothing(r: Fragments.Reassembly, openers: map<u16, int>, a: Arrival, number: int, u: int, id: nat)
    requires r.Valid() && a.h.sequence == number % 65536 && number != u && Integrity.Meets(r, openers, a, number)
    ensures Fragments.ProcessFragment(r, a.h, a.data).0.Shape()
    ensures var r' := Fragments.ProcessFragment(r, a.h, a.data).0;
      HeldOf(r', Opened(openers, r.tracker, r'.tracker, number), u, id) <= HeldOf(r, openers, u, id)
  {
    var q: u16 := u % 65536;
    SameSequence(r, a.h, a.data);
    if q != a.h.sequence {
      OtherSequence(r, a.h, a.data, q);
    }
  }

  /** If packet `u` has been sent, it is `payload`. */
  ghost predicate Is(y: Node, u: int, payload: seq<u8>) {
    0 <= u < |y.sends| ==> y.sends[u] == payload
  }

  ghost predicate Fragmented(y: Node, payload: seq<u8>, id: nat) {
    && y.ep.config.fragmentSize > 0
    && |payload| > y.ep.config.fragmentAbove && id < Fragments.DivCeil(|payload|, y.ep.config.fragmentSize)
  }

  /** How often packet `u` was received, and whether its fragment `id` is held. */
  ghost function Used(x: Node, u: int, id: nat): nat
    requires x.ep.reassembly.Shape()
  {
    Received(x.inbox, u) + HeldOf(x.ep.reassembly, x.openers, u, id)
  }

  lemma OwnUsesDelivery(x: Node, y: Node, em: Emission, id: nat)
    requires Own(x) && Honest(y, em) && Unmixed(x, em) && Fragmented(y, y.sends[em.number], id)
    ensures ReceiveEmission(x, em).ep.reassembly.Shape()
    ensures Used(ReceiveEmission(x, em), em.number, id) <= Used(x, em.number, id) + if IsFragment(em, em.number, id) then 1 else 0
  {
    var h, k :| Carries(y, em, h, k);
    HonestReads(x.ep, y, em, h, k);
    ReceivedGrows(x, em, em.number);
    EndpointRuns.ReceiveRecords(x.ep, em.bytes);
    match EndpointRuns.FragmentInput(x.ep, em.bytes) {
      case None => assert EndpointRuns.Arriving(x.ep, em.bytes) == [];
      case Some((fragment, body)) => OwnFragmentIsUsed(x.ep.reassembly, x.openers, Arrival(fragment, body), em.number, id);
    }
  }

  lemma OtherUsesNothing(x: Node, y: Node, em: Emission, u: int, id: nat)
    requires Own(x) && Honest(y, em) && Unmixed(x, em) && em.number != u
    ensures ReceiveEmission(x, em).ep.reassembly.Shape()
    ensures Used(ReceiveEmission(x, em), u, id) <= Used(x, u, id)
  {
    var h, k :| Carries(y, em, h, k);
    HonestReads(x.ep, y, em, h, k);
    ReceivedGrows(x, em, u);
    EndpointRuns.ReceiveRecords(x.ep, em.bytes);
    match EndpointRuns.FragmentInput(x.ep, em.bytes) {
      case None =>
      case Some((fragment, body)) =>
        OtherFragmentAddsNothing(x.ep.reassembly, x.openers, Arrival(fragment, body), em.number, u, id);
    }
  }

  lemma NextUsesDelivery(s: System, move: (bool, Move), promise: Promise, receiver: bool, u: int, payload: seq<u8>, id: nat)
    requires Own(s.a) && Own(s.b) && promise.unmixed
    requires Is(Side(Next(s, move, promise), !receiver), u, payload) && Fragmented(Side(s, !receiver), payload, id)
    ensures Is(Side(s, !receiver), u, payload) && Side(Next(s, move, promise), receiver).ep.reassembly.Shape()
    ensures Used(Side(Next(s, move, promise), receiver), u, id)
         <= Used(Side(s, receiver), u, id) + if Brings(s, move, promise, receiver, u, id) then 1 else 0
  {
    var x, y := Side(s, receiver), Side(s, !receiver);
    if move.0 != receiver {
      MoveKeepsOwn(y, x, move.1, promise);
    } else if move.1.Deliver? {
      if move.1.i < |y.emitted| && Deliverable(x, y.emitted[move.1.i], promise) {
        var em := y.emitted[move.1.i];
        HonestNumber(y, em);
        if em.number == u { OwnUsesDelivery(x, y, em, id); } else { OtherUsesNothing(x, y, em, u, id); }
      }
    } else {
      Integrity.LocalKeepsReassembly(x, y, move.1, promise);
    }
  }

  lemma {:induction false} RunUsesDeliveries(start: System, moves: seq<(bool, Move)>, promise: Promise, receiver: bool,
                                             u: int, payload: seq<u8>, id: nat)
    requires Fresh(start.a) && Fresh(start.b) && promise.unmixed
    requires Is(Side(AfterMoves(start, moves, promise), !receiver), u, payload) && Fragmented(Side(start, !receiver), payload, id)
    ensures Side(AfterMoves(start, moves, promise), receiver).ep.reassembly.Shape()
    ensures Used(Side(AfterMoves(start, moves, promise), receiver), u, id) <= TimesBrought(start, moves, promise, receiver, u, id)
    decreases |moves|
  {
    if moves != [] {
      RunsStayOwn(start, ButLast(moves), promise);
      NextUsesDelivery(AfterMoves(start, ButLast(moves), promise), Last(moves), promise, receiver, u, payload, id);
      RunUsesDeliveries(start, ButLast(moves), promise, receiver, u, payload, id);
    }
  }

  /**
    Over every unmixed run, however long and stale: a packet sent in fragments reaches the incoming queue no
    more often than the network delivered any one of its fragments, packets of equal sequence told apart.
   */
  lemma DeliveredNoMoreThanFragments(start: System, moves: seq<(bool, Move)>, promise: Promise, receiver: bool,
                                     u: nat, id: nat)
    requires Fresh(start.a) && Fresh(start.b) && promise.unmixed
    requires u < |Side(AfterMoves(start, moves, promise), !receiver).sends|
    requires Fragmented(Side(start, !receiver), Side(AfterMoves(start, moves, promise), !receiver).sends[u], id)
    ensures Received(Side(AfterMoves(start, moves, promise), receiver).inbox, u)
         <= TimesBrought(start, moves, promise, receiver, u, id)
  {
    RunUsesDeliveries(start, moves, promise, receiver, u, Side(AfterMoves(start, moves, promise), !receiver).sends[u], id);
  }
}
