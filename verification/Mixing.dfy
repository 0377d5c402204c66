/**
  What becomes of an open slot when a fragment of another packet with the same sequence is stored in it,
  and a session in which that happens although every datagram arrives at once.
 */
module Mixing {
  import opened Arithmetic
  import opened Bits
  import Datagram
  import opened EndpointModel
  import EndpointRuns
  import opened Fragments
  import opened Network
  import Packets
  import opened ReassemblyRuns
  import opened Sessions

  // ---- Exactly what a mixed slot yields ----

  /** Every part but the last is a full chunk, and the last is not empty. */
  ghost predicate ChunkSized(parts: map<nat, seq<u8>>, size: nat, n: nat) {
    forall i | 0 <= i < n :: i in parts && HasChunkSize(|parts[i]|, size, n, i)
  }

  ghost predicate HasChunkSize(len: nat, size: nat, n: nat, i: nat) {
    if i + 1 < n then len == size else 0 < len <= size
  }

  lemma {:induction false} AssembledExactly(parts: map<nat, seq<u8>>, size: nat, k: nat)
    requires forall i | 0 <= i < k :: i in parts && |parts[i]| == size
    ensures |Assemble(parts, k)| == k * size
    decreases k
  {
    if k > 0 {
      AssembledExactly(parts, size, k - 1);
      assert k * size == (k - 1) * size + size;
    }
  }

  lemma ChunkOfFront(front: seq<u8>, back: seq<u8>, size: nat, i: nat)
    requires (i + 1) * size <= |front|
    ensures i * size <= |front| && Chunk(front + back, size, i) == Chunk(front, size, i)
  {
    assert (i + 1) * size == i * size + size;
    assert (front + back)[i * size .. i * size + size] == front[i * size .. i * size + size];
  }

  lemma LastChunk(front: seq<u8>, back: seq<u8>, size: nat, i: nat)
    requires |front| == i * size && |back| <= size
    ensures i * size <= |front + back| && Chunk(front + back, size, i) == back
  {
    assert (front + back)[|front|..] == back;
  }

  /** Splitting what was assembled gives the parts back. */
  lemma {:induction false} AssembledChunk(parts: map<nat, seq<u8>>, size: nat, n: nat, i: nat)
    requires size > 0 && ChunkSized(parts, size, n) && i < n
    ensures i * size <= |Assemble(parts, n)| && Chunk(Assemble(parts, n), size, i) == parts[i]
    decreases n
  {
    var front := Assemble(parts, n - 1);
    AssembledExactly(parts, size, n - 1);
    if i == n - 1 {
      LastChunk(front, parts[i], size, i);
    } else {
      AssembledChunk(parts, size, n - 1, i);
      ProductsGrow(i + 1, n - 1, size);
      ChunkOfFront(front, parts[n - 1], size, i);
    }
  }

  ghost predicate PartIs(parts: map<nat, seq<u8>>, payload: seq<u8>, size: nat, i: nat) {
    i in parts && i * size <= |payload| && parts[i] == Chunk(payload, size, i)
  }

  lemma AssembledCount(parts: map<nat, seq<u8>>, size: nat, n: nat)
    requires size > 0 && n > 0 && ChunkSized(parts, size, n)
    ensures DivCeil(|Assemble(parts, n)|, size) == n
  {
    AssembledExactly(parts, size, n - 1);
    var len := |Assemble(parts, n)|;
    assert n * size == (n - 1) * size + size;
    DivCeilAtMost(len, size, n);
    DivCeilAtMost(len, size, n - 1);
  }

  /** Parts of the right sizes assemble to a payload exactly if it has as many chunks and each part is its chunk. */
  lemma AssemblesToIff(parts: map<nat, seq<u8>>, payload: seq<u8>, size: nat, n: nat)
    requires size > 0 && n > 0
    requires ChunkSized(parts, size, n) && forall i <- parts :: i < n
    ensures Assemble(parts, n) == payload
       <==> n == DivCeil(|payload|, size) && forall i | 0 <= i < n :: PartIs(parts, payload, size, i)
  {
    AssembledCount(parts, size, n);
    if Assemble(parts, n) == payload {
      forall i | 0 <= i < n
        ensures PartIs(parts, payload, size, i)
      {
        AssembledChunk(parts, size, n, i);
      }
    }
    if n == DivCeil(|payload|, size) && forall i | 0 <= i < n :: PartIs(parts, payload, size, i) {
      NothingHasNoChunks(size);
      AllPartsAre(parts, payload, size, n);
      AssembledWhole(parts, payload, size);
    }
  }

  lemma AllPartsAre(parts: map<nat, seq<u8>>, payload: seq<u8>, size: nat, n: nat)
    requires (forall i <- parts :: i < n) && forall i | 0 <= i < n :: PartIs(parts, payload, size, i)
    ensures HoldsChunks(parts, payload, size) && Full(parts, n)
  {
    forall i | i in parts
      ensures i * size <= |payload| && parts[i] == Chunk(payload, size, i)
    {
      assert PartIs(parts, payload, size, i);
    }
    forall i | 0 <= i < n
      ensures i in parts
    {
      assert PartIs(parts, payload, size, i);
    }
  }

  lemma ChunkSize(payload: seq<u8>, size: nat, i: nat)
    requires size > 0 && i < DivCeil(|payload|, size)
    ensures i * size <= |payload| && HasChunkSize(|Chunk(payload, size, i)|, size, DivCeil(|payload|, size), i)
  {
    if payload == [] {
      NothingHasNoChunks(size);
    } else {
      ChunkStarts(|payload|, size, i);
      if i + 1 < DivCeil(|payload|, size) {
        ChunkStarts(|payload|, size, i + 1);
        assert (i + 1) * size == i * size + size;
      }
    }
  }

  ghost predicate ChunksAgree(p: seq<u8>, q: seq<u8>, size: nat, i: nat) {
    i * size <= |p| && i * size <= |q| && Chunk(p, size, i) == Chunk(q, size, i)
  }

  /** A fragment of packet `mine` is about to be stored in the open slot of packet `other`. */
  ghost predicate Meeting(r: Reassembly, a: Arrival, mine: seq<u8>, other: seq<u8>, size: nat) {
    && r.Valid() && 0 < size <= r.fragmentSize <= 65535
    && FromSplit(a, mine, size) && Accepted(r, a.h)
    && Open(r, a.h.sequence).Some? && ConsistentWith(r, a.h.sequence, other, size)
  }

  /** The slot keeps holding chunks of its own packet exactly if the stored chunk is one of them. */
  lemma StaysConsistentIff(r: Reassembly, a: Arrival, mine: seq<u8>, other: seq<u8>, size: nat)
    requires Meeting(r, a, mine, other, size)
    requires !Full(PartsSoFar(r, a.h.sequence)[a.h.id := a.data], a.h.count)
    ensures var r' := ProcessFragment(r, a.h, a.data).0;
      r'.Shape() && (ConsistentWith(r', a.h.sequence, other, size) <==> ChunksAgree(mine, other, size, a.h.id))
  {
    SameSequence(r, a.h, a.data);
    StoredWhole(mine, size, r.fragmentSize, a.h.id);
    ChunkSize(other, size, a.h.id);
    var parts := PartsSoFar(r, a.h.sequence)[a.h.id := a.data];
    assert Open(ProcessFragment(r, a.h, a.data).0, a.h.sequence) == Some(Slot(a.h.sequence, a.h.count, parts));
    assert a.h.id in parts;
  }

  /** A slot completed by a fragment of `mine` yields `mine` exactly if all its other chunks are those of
      `mine`, and its own packet exactly if the chunk that completed it is. */
  lemma MixedCompletion(r: Reassembly, a: Arrival, mine: seq<u8>, other: seq<u8>, size: nat)
    requires Meeting(r, a, mine, other, size)
    requires Full(PartsSoFar(r, a.h.sequence)[a.h.id := a.data], a.h.count)
    ensures var done := ProcessFragment(r, a.h, a.data).1;
      && done.Some?
      && (done.value == mine <==> forall i | 0 <= i < a.h.count && i != a.h.id :: ChunksAgree(mine, other, size, i))
      && (done.value == other <==> ChunksAgree(mine, other, size, a.h.id))
  {
    SameSequence(r, a.h, a.data);
    StoredWhole(mine, size, r.fragmentSize, a.h.id);
    assert r.SlotValid(Open(r, a.h.sequence).value);
    MixedParts(PartsSoFar(r, a.h.sequence), a, mine, other, size);
  }

  lemma MixedParts(held: map<nat, seq<u8>>, a: Arrival, mine: seq<u8>, other: seq<u8>, size: nat)
    requires size > 0 && FromSplit(a, mine, size) && DivCeil(|other|, size) == a.h.count
    requires HoldsChunks(held, other, size) && a.h.id !in held && forall i <- held :: i < a.h.count
    requires Full(held[a.h.id := a.data], a.h.count)
    ensures var whole := Assemble(held[a.h.id := a.data], a.h.count);
      && (whole == mine <==> forall i | 0 <= i < a.h.count && i != a.h.id :: ChunksAgree(mine, other, size, i))
      && (whole == other <==> ChunksAgree(mine, other, size, a.h.id))
  {
    var n := a.h.count;
    var parts := held[a.h.id := a.data];
    forall i | 0 <= i < n
      ensures i in parts && HasChunkSize(|parts[i]|, size, n, i)
      ensures i == a.h.id ==> PartIs(parts, mine, size, i) && (PartIs(parts, other, size, i) <==> ChunksAgree(mine, other, size, i))
      ensures i != a.h.id ==> PartIs(parts, other, size, i) && (PartIs(parts, mine, size, i) <==> ChunksAgree(mine, other, size, i))
    {
      ChunkSize(mine, size, i);
      ChunkSize(other, size, i);
    }
    NothingHasNoChunks(size);
    AssemblesToIff(parts, mine, size, n);
    AssemblesToIff(parts, other, size, n);
  }

  // ---- A session that mixes ----

  ghost predicate TwoFragments(c: Config, f: Config, data: seq<u8>) {
    && Fragmentable(c, f, data) && c.outgoingSize >= 2
    && c.fragmentSize < |data| <= 2 * c.fragmentSize
  }

  lemma CountIsTwo(c: Config, f: Config, data: seq<u8>)
    requires TwoFragments(c, f, data)
    ensures DivCeil(|data|, c.fragmentSize) == 2
    ensures Chunk(data, c.fragmentSize, 0) == data[..c.fragmentSize] && Chunk(data, c.fragmentSize, 1) == data[c.fragmentSize..]
  {
    DivCeilAtMost(|data|, c.fragmentSize, 2);
    DivCeilAtMost(|data|, c.fragmentSize, 1);
  }

  /** `em` is fragment `k` of a payload of two. */
  ghost predicate CarriesHalf(x: Node, em: Emission, c: Config, data: seq<u8>, k: nat) {
    && TwoFragments(c, x.ep.config, data) && k < 2
    && exists h: Packets.PacketHeader :: IsHalf(h, em, c, data, k)
  }

  ghost predicate IsHalf(h: Packets.PacketHeader, em: Emission, c: Config, data: seq<u8>, k: nat) {
    && h.sequence == em.number % 65536 && c.fragmentSize > 0
    && k < 2 == |Datagrams(c, h, data)| && em.bytes == Datagrams(c, h, data)[k].data
  }

  function Half(em: Emission, c: Config, data: seq<u8>, k: nat): (a: Arrival)
    requires k < 2 && c.fragmentSize < |data|
  {
    Arrival(FragmentHeader(em.number % 65536, k, 2), if k == 0 then data[..c.fragmentSize] else data[c.fragmentSize..])
  }

  lemma HalfInput(x: Node, em: Emission, c: Config, data: seq<u8>, k: nat)
    requires Own(x) && CarriesHalf(x, em, c, data, k)
    ensures var a := Half(em, c, data, k); EndpointRuns.FragmentInput(x.ep, em.bytes) == Some((a.h, a.data))
  {
    var h: Packets.PacketHeader :| IsHalf(h, em, c, data, k);
    CountIsTwo(c, x.ep.config, data);
    Datagram.ReadDatagram(x.ep, c, h, data, k);
    Datagram.FragmentReachesReassembly(x.ep, c, h, data, k);
  }

  /** What a node does with a fragment. */
  lemma ReceiveFragmentEmission(x: Node, em: Emission, a: Arrival)
    requires Own(x) && EndpointRuns.FragmentInput(x.ep, em.bytes) == Some((a.h, a.data))
    ensures var (r', done) := ProcessFragment(x.ep.reassembly, a.h, a.data); var x' := ReceiveEmission(x, em);
      && Own(x') && x'.ep.config == x.ep.config && x'.sends == x.sends && x'.ep.reassembly == r'
      && x'.openers == Opened(x.openers, x.ep.reassembly.tracker, r'.tracker, em.number)
      && (done == None ==> x'.ep.received == x.ep.received && x'.ep.incoming == x.ep.incoming && x'.inbox == x.inbox)
  {
    ReceivedKeepsOwn(x, em);
    EndpointRuns.ReceiveRecords(x.ep, em.bytes);
    EndpointRuns.ReceiveDelivers(x.ep, em.bytes);
    assert x.ep.incoming + [] == x.ep.incoming && x.inbox + [] == x.inbox;
  }

  lemma CompletedReachesInbox(x: Node, em: Emission, a: Arrival, payload: seq<u8>)
    requires Own(x) && EndpointRuns.FragmentInput(x.ep, em.bytes) == Some((a.h, a.data)) && |x.ep.incoming| < x.ep.config.incomingSize
    requires ProcessFragment(x.ep.reassembly, a.h, a.data).1 == Some(payload)
    ensures ReceiveEmission(x, em).inbox == x.inbox + [Delivery(em.number, Packet(a.h.sequence, payload))]
  {
    EndpointRuns.ReceiveDelivers(x.ep, em.bytes);
    var p := Packet(a.h.sequence, payload);
    assert ReceivePacket(x.ep, em.bytes).incoming == x.ep.incoming + [p];
    assert Labelled([p], em.number) == [Delivery(em.number, p)];
    assert (x.ep.incoming + [p])[|x.ep.incoming|..] == [p];
  }

  /** The slot of sequence 0 holds the first of two chunks. */
  ghost predicate HalfOpen(r: Reassembly, chunk: seq<u8>) {
    r.Shape() && Open(r, 0) == Some(Slot(0, 2, map[0 := chunk]))
  }

  lemma FirstHalfStored(r: Reassembly, h: FragmentHeader, chunk: seq<u8>)
    requires r.Valid() && r.tracker.head == 0 && r.tracker.live == map[]
    requires h.sequence == h.id == 0 && h.count == 2
    requires r.maxFragments >= 2 && |chunk| <= r.fragmentSize <= 65535
    ensures var (r', done) := ProcessFragment(r, h, chunk); done == None && HalfOpen(r', chunk)
  {
    SameSequence(r, h, chunk);
    UncutChunk(chunk, r.fragmentSize);
    assert Open(r, h.sequence) == None && Accepted(r, h);
    FrontOnly(PartsSoFar(r, h.sequence), h, chunk);
  }

  lemma UncutChunk(chunk: seq<u8>, size: nat)
    requires |chunk| <= size <= 65535
    ensures Stored(chunk, size) == chunk
  {
  }

  lemma FrontOnly(held: map<nat, seq<u8>>, h: FragmentHeader, chunk: seq<u8>)
    requires held == map[] && h.id == 0 && h.count == 2
    ensures held[h.id := chunk] == map[0 := chunk] && !Full(held[h.id := chunk], h.count)
  {
    assert 1 !in held[h.id := chunk];
  }

  /** The first half of another packet is taken for a duplicate. */
  lemma OtherFirstHalfRefused(r: Reassembly, h: FragmentHeader, chunk: seq<u8>, data: seq<u8>)
    requires r.Valid() && HalfOpen(r, chunk) && h.sequence == h.id == 0 && h.count == 2
    ensures ProcessFragment(r, h, data) == (r, None)
  {
    SameSequence(r, h, data);
  }

  /** Its second half completes the slot. */
  lemma OtherSecondHalfCompletes(r: Reassembly, h: FragmentHeader, chunk: seq<u8>, data: seq<u8>)
    requires r.Valid() && HalfOpen(r, chunk) && h.sequence == 0 && h.id == 1 && h.count == 2
    requires r.maxFragments >= 2 && |data| <= r.fragmentSize <= 65535
    ensures ProcessFragment(r, h, data).1 == Some(chunk + data)
  {
    SameSequence(r, h, data);
    UncutChunk(data, r.fragmentSize);
    assert Accepted(r, h);
    BothHalves(PartsSoFar(r, h.sequence), h, chunk, data);
  }

  lemma BothHalves(held: map<nat, seq<u8>>, h: FragmentHeader, chunk: seq<u8>, data: seq<u8>)
    requires held == map[0 := chunk] && h.id == 1 && h.count == 2
    ensures Full(held[h.id := data], h.count) && Assemble(held[h.id := data], h.count) == chunk + data
  {
    var parts := held[h.id := data];
    assert Assemble(parts, 1) == Assemble(parts, 0) + chunk == chunk;
    assert Assemble(parts, 2) == Assemble(parts, 1) + data;
  }

  /** What a half that completes nothing leaves in place. */
  ghost predicate Undelivered(x: Node, x': Node) {
    && Own(x') && x'.ep.config == x.ep.config && x'.sends == x.sends && x'.ep.received == x.ep.received
    && x'.ep.incoming == x.ep.incoming && x'.inbox == x.inbox
  }

  lemma FirstHalf(x: Node, em: Emission, c: Config, data: seq<u8>)
    requires Own(x) && em.number % 65536 == 0 && CarriesHalf(x, em, c, data, 0)
    requires x.ep.reassembly.tracker.head == 0 && x.ep.reassembly.tracker.live == map[]
    ensures var x' := ReceiveEmission(x, em); Undelivered(x, x') && HalfOpen(x'.ep.reassembly, data[..c.fragmentSize])
  {
    CountIsTwo(c, x.ep.config, data);
    HalfInput(x, em, c, data, 0);
    FirstHalfStored(x.ep.reassembly, Half(em, c, data, 0).h, data[..c.fragmentSize]);
    ReceiveFragmentEmission(x, em, Half(em, c, data, 0));
  }

  lemma OtherFirstHalf(x: Node, em: Emission, c: Config, data: seq<u8>, chunk: seq<u8>)
    requires Own(x) && em.number % 65536 == 0 && CarriesHalf(x, em, c, data, 0) && HalfOpen(x.ep.reassembly, chunk)
    ensures var x' := ReceiveEmission(x, em); Undelivered(x, x') && x'.ep.reassembly == x.ep.reassembly
  {
    HalfInput(x, em, c, data, 0);
    OtherFirstHalfRefused(x.ep.reassembly, Half(em, c, data, 0).h, chunk, data[..c.fragmentSize]);
    ReceiveFragmentEmission(x, em, Half(em, c, data, 0));
  }

  lemma OtherSecondHalf(x: Node, em: Emission, c: Config, data: seq<u8>, chunk: seq<u8>)
    requires Own(x) && em.number % 65536 == 0 && CarriesHalf(x, em, c, data, 1) && HalfOpen(x.ep.reassembly, chunk)
    requires |x.ep.incoming| < x.ep.config.incomingSize
    ensures ReceiveEmission(x, em).inbox
         == x.inbox + [Delivery(em.number, Packet(0, chunk + data[c.fragmentSize..]))]
  {
    CountIsTwo(c, x.ep.config, data);
    HalfInput(x, em, c, data, 1);
    OtherSecondHalfCompletes(x.ep.reassembly, Half(em, c, data, 1).h, chunk, data[c.fragmentSize..]);
    CompletedReachesInbox(x, em, Half(em, c, data, 1), chunk + data[c.fragmentSize..]);
  }

  /** The last two datagrams of `a` are the halves of its packet `number`, and acknowledge nothing. */
  ghost predicate HalvesEmitted(s: System, data: seq<u8>, number: nat, emitted: nat) {
    && |s.a.emitted| == emitted + 2
    && HalfEmission(s, s.a.emitted[emitted], data, number, 0) && HalfEmission(s, s.a.emitted[emitted + 1], data, number, 1)
  }

  ghost predicate HalfEmission(s: System, em: Emission, data: seq<u8>, number: nat, k: nat) {
    em.number == number && em.ackHead == 0 && CarriesHalf(s.b, em, s.a.ep.config, data, k)
  }

  lemma SendHalves(s: System, data: seq<u8>, promise: Promise) returns (s': System)
    requires Own(s.a) && Own(s.b) && s.a.queued == [] && s.a.ep.received.head == 0
    requires TwoFragments(s.a.ep.config, s.b.ep.config, data)
    ensures s' == AfterMoves(s, Sending(data), promise)
    ensures s'.b == s.b && Own(s'.a) && s'.a.ep.config == s.a.ep.config
    ensures s'.a.sends == s.a.sends + [data] && s'.a.queued == [] && s'.a.ep.received.head == 0
    ensures HalvesEmitted(s', data, |s.a.sends|, |s.a.emitted|)
  {
    var c, h, m := s.a.ep.config, OutgoingHeader(s.a.ep), |s.a.emitted|;
    CountIsTwo(c, s.b.ep.config, data);
    SendMoves(s, data, promise);
    Emits(s.a, s.b, data, promise);
    OutgoingBitsExact(s.a);
    s' := System(SendAndFlush(s.a, s.b, data, promise), s.b);
    assert s'.a.emitted[m + 0] == Tag(Datagrams(c, h, data)[0].data, s.a.ep);
    assert s'.a.emitted[m + 1] == Tag(Datagrams(c, h, data)[1].data, s.a.ep);
    assert IsHalf(h, s'.a.emitted[m], c, data, 0) && IsHalf(h, s'.a.emitted[m + 1], c, data, 1);
  }

  /** `a` sends a payload of two fragments, and the first of them arrives. */
  lemma Opening(s: System, data: seq<u8>) returns (s': System)
    requires Fresh(s.a) && Fresh(s.b) && TwoFragments(s.a.ep.config, s.b.ep.config, data)
    ensures s' == AfterMoves(s, Sending(data) + [(false, Deliver(0))], Promise(true, true, false))
    ensures SameConfigs(s, s') && s'.a.sends == [data]
    ensures Synced(s', 1, 2, s'.b.ep.reassembly, s'.b.openers) && HalfOpen(s'.b.ep.reassembly, data[..s.a.ep.config.fragmentSize])
  {
    var promise := Promise(true, true, false);
    FreshIsSynced(s);
    var mid := SendHalves(s, data, promise);
    var em := mid.a.emitted[0];
    NewestIsTimely(mid.b, em);
    FirstHalf(mid.b, em, mid.a.ep.config, data);
    DeliverMove(mid, 0, promise);
    AfterMore(s, Sending(data), [(false, Deliver(0))], promise);
    s' := System(mid.a, ReceiveEmission(mid.b, em));
  }

  /** With the slot of sequence 0 half open, both halves of a later packet of that sequence arrive at once. */
  lemma BothArrive(s: System, data: seq<u8>, number: nat, emitted: nat, chunk: seq<u8>) returns (s': System)
    requires Own(s.a) && Own(s.b) && HalvesEmitted(s, data, number, emitted) && number % 65536 == 0
    requires s.b.ep.sent.head == 0 && number - 1 <= s.b.ep.received.head <= number
    requires s.b.ep.incoming == [] && s.b.inbox == [] && HalfOpen(s.b.ep.reassembly, chunk)
    ensures s' == AfterMoves(AfterMoves(s, [(false, Deliver(emitted))], Promise(true, true, false)),
                             [(false, Deliver(emitted + 1))], Promise(true, true, false))
    ensures s'.a == s.a && s'.b.inbox == [Delivery(number, Packet(0, chunk + data[s.a.ep.config.fragmentSize..]))]
  {
    var promise, c := Promise(true, true, false), s.a.ep.config;
    var em0, em1 := s.a.emitted[emitted], s.a.emitted[emitted + 1];
    NewestIsTimely(s.b, em0);
    OtherFirstHalf(s.b, em0, c, data, chunk);
    DeliverMove(s, emitted, promise);
    var x := ReceiveEmission(s.b, em0);
    NewestIsTimely(x, em1);
    HalfStaysHalf(s.b, x, em1, c, data);
    OtherSecondHalf(x, em1, c, data, chunk);
    DeliverMove(System(s.a, x), emitted + 1, promise);
    s' := System(s.a, ReceiveEmission(x, em1));
  }

  lemma HalfStaysHalf(x: Node, x': Node, em: Emission, c: Config, data: seq<u8>)
    requires CarriesHalf(x, em, c, data, 1) && x'.ep.config == x.ep.config
    ensures CarriesHalf(x', em, c, data, 1)
  {
  }

  lemma Closing(s: System, data: seq<u8>, sent: nat, emitted: nat, chunk: seq<u8>) returns (s': System)
    requires Synced(s, sent, emitted, s.b.ep.reassembly, s.b.openers) && HalfOpen(s.b.ep.reassembly, chunk)
    requires TwoFragments(s.a.ep.config, s.b.ep.config, data) && sent % 65536 == 0
    ensures s' == AfterMoves(s, Sending(data) + [(false, Deliver(emitted))] + [(false, Deliver(emitted + 1))], Promise(true, true, false))
    ensures s'.a.sends == s.a.sends + [data]
    ensures s'.b.inbox == [Delivery(sent, Packet(0, chunk + data[s.a.ep.config.fragmentSize..]))]
  {
    var promise := Promise(true, true, false);
    var mid := SendHalves(s, data, promise);
    s' := BothArrive(mid, data, sent, emitted, chunk);
    AfterMore(s, Sending(data), [(false, Deliver(emitted))], promise);
    AfterMore(s, Sending(data) + [(false, Deliver(emitted))], [(false, Deliver(emitted + 1))], promise);
  }

  /**
    A timely network is not enough for integrity. For any two payloads of two fragments: the first is sent,
    and only its first fragment arrives; then 65535 unfragmented packets and the second payload are sent, and
    all their datagrams arrive at once. What the application receives is the front of the first payload
    with the back of the second.
   */
  lemma PacketsACycleApartMix(start: System, first: seq<u8>, second: seq<u8>, between: nat)
    returns (moves: seq<(bool, Move)>, s: System)
    requires Fresh(start.a) && Fresh(start.b) && between == 65535
    requires TwoFragments(start.a.ep.config, start.b.ep.config, first) && TwoFragments(start.a.ep.config, start.b.ep.config, second)
    ensures s == AfterMoves(start, moves, Promise(true, true, false))
    ensures |s.a.sends| == 2 + between && s.a.sends[0] == first && s.a.sends[1 + between] == second
    ensures var size := start.a.ep.config.fragmentSize;
      s.b.inbox == [Delivery(1 + between, Packet(0, first[..size] + second[size..]))]
  {
    var promise := Promise(true, true, false);
    var opening := Sending(first) + [(false, Deliver(0))];
    var prompts := Prompts(2, between);
    var closing := Sending(second) + [(false, Deliver(2 + between))] + [(false, Deliver(2 + between + 1))];
    var s1 := Opening(start, first);
    var s2 := PromptsStaySynced(s1, promise, 1, 2, s1.b.ep.reassembly, s1.b.openers, between);
    s := Closing(s2, second, 1 + between, 2 + between, first[..start.a.ep.config.fragmentSize]);
    moves := opening + prompts + closing;
    ThreeParts(start, opening, prompts, closing, promise);
  }

  lemma ThreeParts(s: System, first: seq<(bool, Move)>, second: seq<(bool, Move)>, third: seq<(bool, Move)>, promise: Promise)
    ensures AfterMoves(s, first + second + third, promise)
         == AfterMoves(AfterMoves(AfterMoves(s, first, promise), second, promise), third, promise)
  {
    AfterMore(s, first, second, promise);
    AfterMore(s, first + second, third, promise);
  }
}
