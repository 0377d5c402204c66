/** One payload, sent by one endpoint and received by another, its datagrams in any order. */
module RoundTrip {
  import opened Arithmetic
  import opened Bits
  import Datagram
  import opened EndpointModel
  import opened EndpointRuns
  import opened Fragments
  import Integrity
  import Packets
  import ReassemblyRuns

  /** The receiver after the datagrams `order[0]`, `order[1]`, ... of `packets` arrived. */
  ghost function ReceiveInOrder(f: EndpointState, packets: seq<Packet>, order: seq<nat>): EndpointState
    decreases |order|
  {
    if order == [] then f
    else
      var n := |order| - 1;
      var before := ReceiveInOrder(f, packets, order[..n]);
      if Runnable(before) && order[n] < |packets| then ReceivePacket(before, packets[order[n]].data) else before
  }

  /** `order` names each of `0 .. n - 1` once. */
  ghost predicate Permutation(order: seq<nat>, n: nat) {
    |order| == n && Distinct(order) && forall i | 0 <= i < |order| :: order[i] < n
  }

  /** The path that the payload takes accepts sequence `q`: each path asks its own window. */
  ghost predicate Accepts(f: EndpointState, c: Config, data: seq<u8>, q: u16) {
    if |data| > c.fragmentAbove then f.reassembly.tracker.CanInsert(q)
    else f.received.CanInsert(q) && !f.received.Exists(q)
  }

  /** The payload can be sent: within the size limits, and in at most 255 and `maxFragments` fragments. */
  ghost predicate Sendable(c: Config, f: Config, data: seq<u8>)
    requires c.fragmentSize > 0
  {
    && 0 < |data| <= c.maxPacketSize
    && (|data| > c.fragmentAbove ==>
          && DivCeil(|data|, c.fragmentSize) <= Min(255, Min(c.maxFragments, f.maxFragments))
          && c.fragmentSize + FRAGMENT_HEADER_BYTES <= f.maxPacketSize)
  }

  // ---- The fragmented path ----

  /** `c` splits the payload into fragments that the reassembly of `f` can take: neither too many, nor cut. */
  ghost predicate Chunked(c: Config, f: Config, data: seq<u8>) {
    && 0 < c.fragmentSize <= f.fragmentSize <= 65535
    && c.fragmentAbove < |data|
    && DivCeil(|data|, c.fragmentSize) <= Min(255, Min(c.maxFragments, f.maxFragments))
  }

  /** Under any header none of them is refused as too large either. */
  ghost predicate Splits(c: Config, f: Config, data: seq<u8>) {
    Chunked(c, f, data) && c.fragmentSize + FRAGMENT_HEADER_BYTES <= f.maxPacketSize
  }

  /** Under header `h` none of them is. */
  ghost predicate Reaches(c: Config, f: Config, h: Packets.PacketHeader, data: seq<u8>) {
    && Chunked(c, f, data)
    && FRAGMENT_HEADER_BYTES + |Packets.Encode(h)| + c.fragmentSize <= f.maxPacketSize + Packets.MAX_PACKET_HEADER_BYTES
  }

  /** The slot of `q` holds exactly the chunks of `data` that arrived; none is open before the first. */
  ghost predicate SlotGathers(r: Reassembly, q: u16, data: seq<u8>, size: nat, arrived: seq<nat>)
    requires r.Shape() && size > 0
  {
    if arrived == [] then ReassemblyRuns.Open(r, q) == None && r.tracker.CanInsert(q)
    else
      && ReassemblyRuns.Open(r, q).Some?
      && ReassemblyRuns.Open(r, q).value.count == DivCeil(|data|, size)
      && ReassemblyRuns.HoldsChunks(ReassemblyRuns.Open(r, q).value.parts, data, size)
      && (forall i: nat :: i in ReassemblyRuns.Open(r, q).value.parts <==> i in arrived)
  }

  /** Some but not all fragments arrived: nothing was delivered yet. */
  ghost predicate Gathering(f: EndpointState, g: EndpointState, q: u16, c: Config, data: seq<u8>, arrived: seq<nat>)
    requires g.reassembly.Shape() && c.fragmentSize > 0
  {
    && g.incoming == f.incoming && g.received == f.received
    && SlotGathers(g.reassembly, q, data, c.fragmentSize, arrived)
  }

  lemma FullWhenAllArrived(parts: map<nat, seq<u8>>, arrived: seq<nat>, n: nat)
    requires Distinct(arrived) && (forall i <- arrived :: i < n) && forall i: nat :: i in parts <==> i in arrived
    ensures ReassemblyRuns.Full(parts, n) <==> |arrived| == n
  {
    DistinctCount(arrived);
    var s: set<int> := set i | i in arrived;
    BoundedSet(s, n);
    if |arrived| == n {
      forall i | 0 <= i < n
        ensures i in parts
      {
        assert i in s;
      }
    }
    assert ReassemblyRuns.Full(parts, n) ==> forall i | 0 <= i < n :: i in parts && i in s;
  }

  lemma SlotAfterFragment(r: Reassembly, q: u16, data: seq<u8>, size: nat, arrived: seq<nat>, a: ReassemblyRuns.Arrival)
    requires r.Valid() && 0 < size <= r.fragmentSize <= 65535 && DivCeil(|data|, size) <= r.maxFragments
    requires SlotGathers(r, q, data, size, arrived) && ReassemblyRuns.FromSplit(a, data, size) && a.h.sequence == q
    requires Distinct(arrived + [a.h.id]) && forall i <- arrived :: i < a.h.count
    ensures var (r', done) := ProcessFragment(r, a.h, a.data);
      && r'.Shape()
      && if |arrived| + 1 == a.h.count then done == Some(data)
         else done == None && SlotGathers(r', q, data, size, arrived + [a.h.id])
  {
    var parts := ReassemblyRuns.PartsSoFar(r, q)[a.h.id := a.data];
    ReassemblyRuns.ConsistentStep(r, a, data, size);
    forall i: nat
      ensures i in parts <==> i in arrived + [a.h.id]
    {
    }
    FullWhenAllArrived(parts, arrived + [a.h.id], a.h.count);
  }

  /** The payload was delivered and recorded, and the receiver would take its fragments again. */
  ghost predicate Complete(f: EndpointState, g: EndpointState, q: u16, data: seq<u8>) {
    && g.incoming == f.incoming + [Packet(q, data)]
    && (f.received.CanInsert(q) ==> g.received.Exists(q))
    && g.reassembly.tracker.CanInsert(q) && !g.reassembly.tracker.Exists(q)
  }

  lemma CompletedIsRecorded(e: EndpointState, data: seq<u8>, h: FragmentHeader, body: seq<u8>)
    requires e.Valid() && |e.incoming| < e.config.incomingSize && FragmentInput(e, data) == Some((h, body))
    requires ProcessFragment(e.reassembly, h, body).1.Some?
    ensures e.received.CanInsert(h.sequence) ==> ReceivePacket(e, data).received.Exists(h.sequence)
  {
    ReceiveRecords(e, data);
    var d := Recording(e, data).value.1;
    e.received.InsertValid(h.sequence, d);
    e.received.Insert(h.sequence, d).ResolveExact(e.received.Resolve(h.sequence));
  }

  lemma FragmentArrives(f: EndpointState, g: EndpointState, c: Config, h: Packets.PacketHeader, data: seq<u8>, arrived: seq<nat>, k: nat)
    requires Invariant(g) && g.config == f.config && Reaches(c, g.config, h, data)
    requires k < DivCeil(|data|, c.fragmentSize) && Distinct(arrived + [k])
    requires forall i <- arrived :: i < DivCeil(|data|, c.fragmentSize)
    requires Gathering(f, g, h.sequence, c, data, arrived) && |f.incoming| < f.config.incomingSize
    ensures k < |Datagrams(c, h, data)|
    ensures var g' := ReceivePacket(g, Datagrams(c, h, data)[k].data);
      g'.reassembly.Shape() && g'.config == f.config &&
      if |arrived| + 1 == DivCeil(|data|, c.fragmentSize)
      then Complete(f, g', h.sequence, data)
      else Gathering(f, g', h.sequence, c, data, arrived + [k])
  {
    var bytes := Datagrams(c, h, data)[k].data;
    Datagram.ReadDatagram(g, c, h, data, k);
    Datagram.FragmentReachesReassembly(g, c, h, data, k);
    var (fragment, body) := FragmentInput(g, bytes).value;
    ReceiveRecords(g, bytes);
    ReceiveAcks(g, bytes);
    ReceiveDelivers(g, bytes);
    SlotAfterFragment(g.reassembly, h.sequence, data, c.fragmentSize, arrived, ReassemblyRuns.Arrival(fragment, body));
    assert g.incoming + [] == g.incoming;
    if |arrived| + 1 == DivCeil(|data|, c.fragmentSize) {
      ReassemblyRuns.CompletionFrees(g.reassembly, fragment, body);
      CompletedIsRecorded(g, bytes, fragment, body);
    }
  }

  /** What the receiver looks like after the fragments `order` of one payload. */
  ghost predicate AfterFragments(f: EndpointState, g: EndpointState, q: u16, c: Config, data: seq<u8>, order: seq<nat>)
    requires c.fragmentSize > 0
  {
    && Invariant(g) && g.config == f.config
    && if |order| == DivCeil(|data|, c.fragmentSize)
       then Complete(f, g, q, data)
       else Gathering(f, g, q, c, data, order)
  }

  lemma NextFragment(f: EndpointState, g: EndpointState, c: Config, h: Packets.PacketHeader, data: seq<u8>, order: seq<nat>)
    requires Reaches(c, f.config, h, data)
    requires order != [] && Distinct(order) && |order| <= DivCeil(|data|, c.fragmentSize)
    requires forall i | 0 <= i < |order| :: order[i] < DivCeil(|data|, c.fragmentSize)
    requires AfterFragments(f, g, h.sequence, c, data, order[..|order| - 1]) && |f.incoming| < f.config.incomingSize
    ensures order[|order| - 1] < |Datagrams(c, h, data)|
    ensures AfterFragments(f, ReceivePacket(g, Datagrams(c, h, data)[order[|order| - 1]].data), h.sequence, c, data, order)
  {
    var n := |order| - 1;
    assert order == order[..n] + [order[n]];
    FragmentArrives(f, g, c, h, data, order[..n], order[n]);
    ReceiveKeepsInvariant(g, Datagrams(c, h, data)[order[n]].data);
  }

  lemma OneMoreInOrder(f: EndpointState, packets: seq<Packet>, order: seq<nat>)
    requires order != [] && order[|order| - 1] < |packets|
    requires Runnable(ReceiveInOrder(f, packets, order[..|order| - 1]))
    ensures ReceiveInOrder(f, packets, order)
         == ReceivePacket(ReceiveInOrder(f, packets, order[..|order| - 1]), packets[order[|order| - 1]].data)
  {
  }

  lemma NothingArrived(f: EndpointState, q: u16, c: Config, data: seq<u8>)
    requires Chunked(c, f.config, data) && Invariant(f)
    requires !f.reassembly.tracker.Exists(q) && f.reassembly.tracker.CanInsert(q)
    ensures AfterFragments(f, f, q, c, data, [])
  {
    DivCeilBounds(|data|, c.fragmentSize);
  }

  lemma OneMoreArrives(f: EndpointState, c: Config, h: Packets.PacketHeader, data: seq<u8>, order: seq<nat>)
    requires Reaches(c, f.config, h, data) && |f.incoming| < f.config.incomingSize
    requires order != [] && Distinct(order) && |order| <= DivCeil(|data|, c.fragmentSize)
    requires forall i | 0 <= i < |order| :: order[i] < DivCeil(|data|, c.fragmentSize)
    requires AfterFragments(f, ReceiveInOrder(f, Datagrams(c, h, data), order[..|order| - 1]), h.sequence, c, data, order[..|order| - 1])
    ensures AfterFragments(f, ReceiveInOrder(f, Datagrams(c, h, data), order), h.sequence, c, data, order)
  {
    NextFragment(f, ReceiveInOrder(f, Datagrams(c, h, data), order[..|order| - 1]), c, h, data, order);
    OneMoreInOrder(f, Datagrams(c, h, data), order);
  }

  /** Fragments of one payload, in any order, at a receiver with no slot open for it: the payload is in
      the queue, once, and recorded, exactly when all have come. What was received before does not matter,
      and the receiver is then ready to take them again. */
  lemma {:induction false} FragmentsArrive(f: EndpointState, c: Config, h: Packets.PacketHeader, data: seq<u8>, order: seq<nat>)
    requires Reaches(c, f.config, h, data) && Invariant(f) && |f.incoming| < f.config.incomingSize
    requires !f.reassembly.tracker.Exists(h.sequence) && f.reassembly.tracker.CanInsert(h.sequence)
    requires Distinct(order) && |order| <= DivCeil(|data|, c.fragmentSize)
    requires forall i | 0 <= i < |order| :: order[i] < DivCeil(|data|, c.fragmentSize)
    ensures AfterFragments(f, ReceiveInOrder(f, Datagrams(c, h, data), order), h.sequence, c, data, order)
    decreases |order|
  {
    if order == [] {
      NothingArrived(f, h.sequence, c, data);
    } else {
      FragmentsArrive(f, c, h, data, order[..|order| - 1]);
      OneMoreArrives(f, c, h, data, order);
    }
  }

  lemma FragmentRefused(g: EndpointState, c: Config, h: Packets.PacketHeader, data: seq<u8>, k: nat)
    requires Invariant(g) && Reaches(c, g.config, h, data) && k < |Datagrams(c, h, data)|
    requires !g.reassembly.tracker.Exists(h.sequence) && !g.reassembly.tracker.CanInsert(h.sequence)
    ensures var g' := ReceivePacket(g, Datagrams(c, h, data)[k].data);
      Invariant(g') && g'.config == g.config && g'.reassembly == g.reassembly && g'.incoming == g.incoming
  {
    var bytes := Datagrams(c, h, data)[k].data;
    Datagram.ReadDatagram(g, c, h, data, k);
    Datagram.FragmentReachesReassembly(g, c, h, data, k);
    var (fragment, body) := FragmentInput(g, bytes).value;
    ReassemblyRuns.SameSequence(g.reassembly, fragment, body);
    ReceiveRecords(g, bytes);
    ReceiveAcks(g, bytes);
    ReceiveDelivers(g, bytes);
    ReceiveKeepsInvariant(g, bytes);
    assert g.incoming + [] == g.incoming;
  }

  /** A sequence that the tracker refuses stays refused, whatever its fragments do. */
  lemma {:induction false} FragmentsRefused(f: EndpointState, c: Config, h: Packets.PacketHeader, data: seq<u8>, order: seq<nat>)
    requires Reaches(c, f.config, h, data) && Invariant(f)
    requires !f.reassembly.tracker.Exists(h.sequence) && !f.reassembly.tracker.CanInsert(h.sequence)
    ensures var g := ReceiveInOrder(f, Datagrams(c, h, data), order);
      Invariant(g) && g.config == f.config && g.reassembly == f.reassembly && g.incoming == f.incoming
    decreases |order|
  {
    if order != [] {
      var n := |order| - 1;
      FragmentsRefused(f, c, h, data, order[..n]);
      if order[n] < |Datagrams(c, h, data)| {
        FragmentRefused(ReceiveInOrder(f, Datagrams(c, h, data), order[..n]), c, h, data, order[n]);
      }
    }
  }

  // ---- The regular path ----

  /** An unfragmented payload arrives exactly if its sequence is in the receive window and new. */
  lemma RegularArrives(f: EndpointState, c: Config, h: Packets.PacketHeader, data: seq<u8>, order: seq<nat>)
    requires Invariant(f) && c.fragmentSize > 0 && Integrity.Compatible(c, f.config) && Sendable(c, f.config, data)
    requires |data| <= c.fragmentAbove && order == [0] && |f.incoming| < f.config.incomingSize
    ensures ReceiveInOrder(f, Datagrams(c, h, data), order).incoming ==
      f.incoming + if Accepts(f, c, data, h.sequence) then [Packet(h.sequence, data)] else []
  {
    var bytes := RegularDatagram(h, data, c.MaxDatagramSize());
    Datagram.ReadRegularDatagram(h, data, c.MaxDatagramSize());
    if AcceptsRegular(f, bytes, h.sequence) { Integrity.RegularArrivesWhole(f, h, data, c); }
    ReceiveDelivers(f, bytes);
    assert f.incoming + [] == f.incoming;
    assert order[..0] == [];
    assert ReceiveInOrder(f, Datagrams(c, h, data), order) == ReceivePacket(f, bytes);
  }

  // ---- Both paths ----

  lemma SendQueuesAll(e: EndpointState, data: seq<u8>)
    requires Invariant(e) && |data| <= e.config.maxPacketSize
    requires |e.outgoing| + |Datagrams(e.config, OutgoingHeader(e), data)| <= e.config.outgoingSize
    ensures SendPacket(e, data).outgoing == e.outgoing + Datagrams(e.config, OutgoingHeader(e), data)
  {
  }

  lemma PermutationOfOne(order: seq<nat>)
    requires Permutation(order, 1)
    ensures order == [0]
  {
  }

  /**
    For every payload that can be sent, whatever order its datagrams arrive in at a receiver with room
    and no slot open for it: exactly one packet joins the incoming queue, the payload under its sequence
    number, if the path it takes accepts that number, and none does otherwise.
   */
  lemma PayloadRoundTrip(e: EndpointState, data: seq<u8>, f: EndpointState, order: seq<nat>)
    requires Invariant(e) && Invariant(f) && Integrity.Compatible(e.config, f.config) && Sendable(e.config, f.config, data)
    requires |f.incoming| < f.config.incomingSize
    requires |data| > e.config.fragmentAbove ==> !f.reassembly.tracker.Exists(e.sequence)
    requires |e.outgoing| + |Datagrams(e.config, OutgoingHeader(e), data)| <= e.config.outgoingSize
    requires Permutation(order, |Datagrams(e.config, OutgoingHeader(e), data)|)
    ensures e.outgoing <= SendPacket(e, data).outgoing
    ensures var sent := SendPacket(e, data).outgoing[|e.outgoing|..];
      && |sent| == |order|
      && ReceiveInOrder(f, sent, order).incoming ==
           f.incoming + if Accepts(f, e.config, data, e.sequence) then [Packet(e.sequence, data)] else []
  {
    var h := OutgoingHeader(e);
    SendQueuesAll(e, data);
    assert SendPacket(e, data).outgoing[|e.outgoing|..] == Datagrams(e.config, h, data);
    if |data| <= e.config.fragmentAbove {
      PermutationOfOne(order);
      RegularArrives(f, e.config, h, data, order);
    } else if f.reassembly.tracker.CanInsert(h.sequence) {
      FragmentsArrive(f, e.config, h, data, order);
    } else {
      FragmentsRefused(f, e.config, h, data, order);
      assert f.incoming + [] == f.incoming;
    }
  }
}
