/** Exactly when the guarantees hold: ring sizes, packet sizes, fragment counts, and the fate of duplicates. */
module Limits {
  import opened Arithmetic
  import opened Bits
  import Datagram
  import opened EndpointModel
  import opened EndpointRuns
  import opened Fragments
  import opened Packets
  import ReassemblyRuns
  import RoundTrip
  import opened Sequence
  import opened Windows

  // ---- Ring sizes ----

  /** `can_insert` on raw values for a ring of `n` entries; the size is cast to 16 bits. */
  predicate RawCanInsert(n: nat, head: u16, s: u16) {
    !SequenceLessThan(s, WrappingSub(head, n % 65536))
  }

  /** The head after `insert` accepted `s`. */
  function RawHead(head: u16, s: u16): u16 {
    if SequenceGreaterThan(WrappingAdd(s, 1), head) then WrappingAdd(s, 1) else head
  }

  /** `s` is one of the `n` sequences below `head`. */
  predicate InLast(n: nat, head: u16, s: u16) {
    WrappingSub(WrappingSub(head, 1), s) < n
  }

  /** The next sequence and all of the last `n` can be inserted, and what is inserted is then among the last `n`. */
  ghost predicate KeepsWindow(n: nat) {
    && (forall head: u16 :: RawCanInsert(n, head, head))
    && (forall head: u16, s: u16 | InLast(n, head, s) :: RawCanInsert(n, head, s))
    && (forall head: u16, s: u16 | RawCanInsert(n, head, s) :: InLast(n, RawHead(head, s), s))
  }

  lemma InLastIsDistance(n: nat, head: int, u: int)
    requires u < head <= u + 65536
    ensures InLast(n, head % 65536, u % 65536) <==> head - u <= n
  {
    var last := head - 1;
    WrappingSteps(head, 1);
    assert WrappingSub(last % 65536, u % 65536) == last - u by {
      WrappingTracks(last, u);
      SmallRemainder(last - u);
    }
  }

  lemma SmallRingInserts(n: nat, head: u16, u: int)
    requires 2 <= n <= 16384 && head - n <= u <= head
    ensures RawCanInsert(n, head, u % 65536)
  {
    var base := head - n;
    assert WrappingSub(head, n % 65536) == base % 65536 by {
      SmallRemainder(head);
      SmallRemainder(n);
      WrappingSteps(head, n);
    }
    NearOrder(u, base);
  }

  lemma SmallRingInsertsRecent(n: nat, head: u16, s: u16)
    requires 2 <= n <= 16384 && InLast(n, head, s)
    ensures RawCanInsert(n, head, s)
  {
    var u := head - 1 - WrappingSub(WrappingSub(head, 1), s);
    assert u % 65536 == s;
    SmallRingInserts(n, head, u);
  }

  lemma SmallRingKeepsInserted(n: nat, head: u16, s: u16)
    requires 2 <= n <= 16384 && RawCanInsert(n, head, s)
    ensures InLast(n, RawHead(head, s), s)
  {
    var w: Window<()> := Window(n, head, map[]);
    var u := w.Resolve(s);
    SmallRemainder(head);
    SmallRemainder(n);
    w.CanInsertRaw(s);
    SmallRingHead(w, s);
    InLastIsDistance(n, Max(head, u + 1), u);
  }

  lemma SmallRingHead(w: Window<()>, s: u16)
    requires 2 <= w.size <= 16384 && w.CanInsert(s)
    ensures var u := w.Resolve(s); u < w.head + 32767 && RawHead(w.head % 65536, s) == Max(w.head, u + 1) % 65536
  {
    w.AdvanceRaw(s);
    WrappingSteps(w.Resolve(s), 1);
  }

  lemma SmallRingKeepsWindow(n: nat)
    requires 2 <= n <= 16384
    ensures KeepsWindow(n)
  {
    forall head: u16
      ensures RawCanInsert(n, head, head)
    {
      SmallRingInserts(n, head, head);
    }
    forall head: u16, s: u16 | InLast(n, head, s)
      ensures RawCanInsert(n, head, s)
    {
      SmallRingInsertsRecent(n, head, s);
    }
    forall head: u16, s: u16 | RawCanInsert(n, head, s)
      ensures InLast(n, RawHead(head, s), s)
    {
      SmallRingKeepsInserted(n, head, s);
    }
  }

  lemma LargePowers(n: nat)
    requires IsPowerOfTwo(n) && n > 16384
    ensures n == 32768 || n % 65536 == 0
  {
    WordSizesArePowersOfTwo();
    if n < 65536 {
      var k := PowersOfTwoDivide(n, 65536);
      QuotientBelowFour(n, k);
    } else {
      var k := PowersOfTwoDivide(65536, n);
      ModIsUnique(n, k, 65536, 0);
    }
  }

  lemma QuotientBelowFour(n: nat, k: nat)
    requires 16384 < n < 65536 && n * k == 65536
    ensures n == 32768
  {
    assert k <= 1 ==> n * k <= n;
    assert k >= 4 ==> n * k >= 4 * n;
    assert k == 2 || k == 3;
  }

  lemma OneEntryFails()
    ensures !KeepsWindow(1)
  {
    assert RawCanInsert(1, 32768, 65535) && !InLast(1, RawHead(32768, 65535), 65535);
  }

  lemma HalfRangeFails()
    ensures !KeepsWindow(32768)
  {
    assert !RawCanInsert(32768, 0, 0);
  }

  lemma WholeCyclesFail(n: nat)
    requires n > 0 && n % 65536 == 0
    ensures !KeepsWindow(n)
  {
    assert InLast(n, 0, 65535) && !RawCanInsert(n, 0, 65535);
  }

  /** Half-range comparison keeps a window of `n` exactly for the powers of two from 2 to 16384. */
  lemma WindowSizes(n: nat)
    requires IsPowerOfTwo(n)
    ensures KeepsWindow(n) <==> 2 <= n <= 16384
  {
    if n == 1 {
      OneEntryFails();
    } else if n > 16384 {
      LargePowers(n);
      if n == 32768 { HalfRangeFails(); } else { WholeCyclesFail(n); }
    } else {
      SmallRingKeepsWindow(n);
    }
  }

  // ---- Unfragmented payloads ----

  ghost predicate Uncut(c: Config, h: PacketHeader, data: seq<u8>) {
    RegularDatagram(h, data, c.MaxDatagramSize()) == Encode(h) + data
  }

  /** A datagram is cut exactly when header and payload exceed its slot. */
  lemma CutWhenTooLong(c: Config, h: PacketHeader, data: seq<u8>)
    ensures Uncut(c, h, data) <==> |Encode(h)| + |data| <= c.MaxDatagramSize()
  {
    assert data[..|data|] == data;
  }

  /** No payload sent unfragmented is ever cut exactly when the threshold leaves room for the largest header. */
  lemma NeverCut(c: Config)
    ensures (forall h: PacketHeader, data: seq<u8> | |data| <= c.fragmentAbove :: Uncut(c, h, data))
       <==> c.fragmentAbove <= c.fragmentSize + FRAGMENT_HEADER_BYTES
  {
    forall h: PacketHeader, data: seq<u8>
      ensures Uncut(c, h, data) <==> |Encode(h)| + |data| <= c.MaxDatagramSize()
    {
      CutWhenTooLong(c, h, data);
    }
    var longest := PacketHeader(300, 0, 0);
    assert |Encode(longest)| == MAX_PACKET_HEADER_BYTES by { EncodedLength(longest); }
    var data: seq<u8> := seq(c.fragmentAbove, _ => 0);
    assert |data| == c.fragmentAbove;
  }

  // ---- Fragments ----

  ghost predicate Whole(data: seq<u8>, size: nat) {
    Stored(data, size) == data
  }

  /** No chunk loses bytes in its slot exactly when chunk lengths fit the 16-bit length entries. */
  lemma ChunksKeptWhole(size: nat)
    ensures (forall data: seq<u8> | |data| <= size :: Whole(data, size)) <==> size <= 65535
  {
    if size > 65535 {
      var data: seq<u8> := seq(65536, _ => 0);
      assert !Whole(data, size);
    }
  }

  lemma QueuedWhenCountFits(c: Config, h: PacketHeader, data: seq<u8>)
    requires c.Validated() && |data| <= c.maxPacketSize
    ensures Datagrams(c, h, data) == [] <==> |data| > c.fragmentAbove && |data| > 255 * c.fragmentSize
  {
    if |data| > c.fragmentAbove {
      DivCeilBounds(|data|, c.fragmentSize);
      DivCeilAtMost(|data|, c.fragmentSize, c.maxFragments);
      DivCeilAtMost(|data|, c.fragmentSize, 255);
    }
  }

  /** A validated configuration sends every payload it accepts, rather than only counting it as sent,
      exactly when 255 fragments cover the largest payload or nothing is fragmented. */
  lemma EveryAcceptedPayloadIsQueued(c: Config)
    requires c.Validated()
    ensures (forall h: PacketHeader, data: seq<u8> | |data| <= c.maxPacketSize :: Datagrams(c, h, data) != [])
       <==> c.maxPacketSize <= 255 * c.fragmentSize || c.fragmentAbove == c.maxPacketSize
  {
    forall h: PacketHeader, data: seq<u8> | |data| <= c.maxPacketSize
      ensures Datagrams(c, h, data) == [] <==> |data| > c.fragmentAbove && |data| > 255 * c.fragmentSize
    {
      QueuedWhenCountFits(c, h, data);
    }
    var largest: seq<u8> := seq(c.maxPacketSize, _ => 0);
    QueuedWhenCountFits(c, PacketHeader(0, 0, 0), largest);
  }

  /** The receiver refuses no fragment of any payload that can be sent as too large. */
  ghost predicate NoneTooLarge(c: Config, limit: nat)
    requires c.fragmentSize > 0
  {
    forall h: PacketHeader, data: seq<u8>, k: nat
      | c.fragmentAbove < |data| <= c.maxPacketSize && k < |Datagrams(c, h, data)| ::
      |Datagrams(c, h, data)[k].data| <= limit + MAX_PACKET_HEADER_BYTES
  }

  lemma FragmentLength(c: Config, h: PacketHeader, data: seq<u8>, k: nat)
    requires c.fragmentSize > 0 && |data| > c.fragmentAbove && k < |Datagrams(c, h, data)|
    ensures |Datagrams(c, h, data)[k].data|
         <= FRAGMENT_HEADER_BYTES + MAX_PACKET_HEADER_BYTES + Min(c.fragmentSize, |data|)
    ensures k == 0 ==>
      |Datagrams(c, h, data)[k].data| == FRAGMENT_HEADER_BYTES + |Encode(h)| + Min(c.fragmentSize, |data|)
  {
    var n := DivCeil(|data|, c.fragmentSize);
    Datagram.FragmentPacketAt(h, data, c.fragmentSize, n, n, k);
    Datagram.FragmentDatagramLength(h, data, c.fragmentSize, n, k);
  }

  lemma LongestFirstFragment(c: Config, len: nat) returns (h: PacketHeader, data: seq<u8>)
    requires c.fragmentSize > 0 && c.fragmentAbove < len <= Min(255, c.maxFragments) * c.fragmentSize
    ensures |data| == len && |Datagrams(c, h, data)| > 0
    ensures |Datagrams(c, h, data)[0].data|
         == FRAGMENT_HEADER_BYTES + MAX_PACKET_HEADER_BYTES + Min(c.fragmentSize, len)
  {
    h := PacketHeader(300, 0, 0);
    data := seq(len, _ => 0);
    DivCeilBounds(len, c.fragmentSize);
    DivCeilAtMost(len, c.fragmentSize, Min(255, c.maxFragments));
    assert |Encode(h)| == MAX_PACKET_HEADER_BYTES by { EncodedLength(h); }
    FragmentLength(c, h, data, 0);
  }

  /** Where some payload is sent in fragments at all, none is refused exactly when a full chunk and
      its fragment header fit the receiver's packet size. */
  lemma NeverRefused(c: Config, limit: nat)
    requires c.fragmentSize > 0
    requires c.fragmentAbove < Min(c.maxPacketSize, Min(255, c.maxFragments) * c.fragmentSize)
    ensures NoneTooLarge(c, limit)
       <==> Min(c.fragmentSize, c.maxPacketSize) + FRAGMENT_HEADER_BYTES <= limit
  {
    forall h: PacketHeader, data: seq<u8>, k: nat
      | c.fragmentAbove < |data| <= c.maxPacketSize && k < |Datagrams(c, h, data)|
      ensures |Datagrams(c, h, data)[k].data|
           <= FRAGMENT_HEADER_BYTES + MAX_PACKET_HEADER_BYTES + Min(c.fragmentSize, c.maxPacketSize)
    {
      FragmentLength(c, h, data, k);
    }
    ProductsGrow(1, Min(255, c.maxFragments), c.fragmentSize);
    var h, data := LongestFirstFragment(c, Max(Min(c.fragmentSize, c.maxPacketSize), c.fragmentAbove + 1));
    assert NoneTooLarge(c, limit) ==> |Datagrams(c, h, data)[0].data| <= limit + MAX_PACKET_HEADER_BYTES;
  }

  // ---- Reassembled payloads ----

  /** When the slots of a reassembly fill a payload slot exactly, or a packet is one fragment, no fragments
      whatever overrun it. */
  lemma EverythingFits(e: EndpointState, data: seq<u8>)
    requires e.Valid() && NoOverrun(e.config)
    ensures Fits(e, data)
  {
    if FragmentInput(e, data).Some? {
      var (h, body) := FragmentInput(e, data).value;
      CompletedAtMost(e.reassembly, h, body);
      if e.config.maxFragments == 1 && ProcessFragment(e.reassembly, h, body).1.Some? {
        FirstBodyAtMost(e, data);
        OnlyFragmentAtMost(e.reassembly, h, body);
      }
    }
  }

  ghost predicate NoOverrun(c: Config) {
    c.maxPacketSize == c.maxFragments * c.fragmentSize || c.maxFragments == 1
  }

  /** The two headers of a first fragment take at least as much as a datagram may exceed a packet. */
  lemma FirstBodyAtMost(e: EndpointState, data: seq<u8>)
    requires FragmentInput(e, data).Some? && FragmentInput(e, data).value.0.id == 0
    ensures |FragmentInput(e, data).value.1| <= e.config.maxPacketSize
  {
    WrittenFormIsShortest(Rest(data, FRAGMENT_HEADER_BYTES));
  }

  lemma OnlyFragmentAtMost(r: Reassembly, h: FragmentHeader, body: seq<u8>)
    requires r.Valid() && r.maxFragments == 1 && ProcessFragment(r, h, body).1.Some?
    ensures |ProcessFragment(r, h, body).1.value| <= |body|
  {
    ReassemblyRuns.SameSequence(r, h, body);
    ReassemblyRuns.AssembledAtMost(
      ReassemblyRuns.PartsSoFar(r, h.sequence)[h.id := Stored(body, r.fragmentSize)], |body|, h.count);
  }

  lemma CompletedAtMost(r: Reassembly, h: FragmentHeader, body: seq<u8>)
    requires r.Valid()
    ensures var done := ProcessFragment(r, h, body).1;
      done.Some? ==> |done.value| <= r.maxFragments * r.fragmentSize
  {
    ReassemblyRuns.SameSequence(r, h, body);
    if ReassemblyRuns.Accepted(r, h) {
      var parts := ReassemblyRuns.PartsSoFar(r, h.sequence)[h.id := Stored(body, r.fragmentSize)];
      ReassemblyRuns.AssembledAtMost(parts, r.fragmentSize, h.count);
      ProductsGrow(h.count, r.maxFragments, r.fragmentSize);
    }
  }

  /** No reception of the run makes the source panic. */
  ghost predicate RunFits(start: EndpointState, steps: seq<Step>) {
    forall i | 0 <= i < |steps| && steps[i].Receive? :: FitsIn(After(start, steps[..i]), steps[i].data)
  }

  ghost predicate FitsIn(e: EndpointState, data: seq<u8>) {
    e.reassembly.Shape() && Fits(e, data)
  }

  ghost predicate AllBelow(order: seq<nat>, n: nat) {
    forall i | 0 <= i < |order| :: order[i] < n
  }

  /** The steps that receive `packets[order[0]]`, `packets[order[1]]`, ... */
  ghost function Receptions(packets: seq<Packet>, order: seq<nat>): seq<Step>
    requires AllBelow(order, |packets|)
  {
    seq(|order|, i requires 0 <= i < |order| => Receive(packets[order[i]].data))
  }

  lemma {:induction false} ReceptionsReceive(start: EndpointState, packets: seq<Packet>, order: seq<nat>)
    requires AllBelow(order, |packets|)
    ensures After(start, Receptions(packets, order)) == RoundTrip.ReceiveInOrder(start, packets, order)
    decreases |order|
  {
    if order != [] {
      var n := |order| - 1;
      var steps, earlier := Receptions(packets, order), Receptions(packets, order[..n]);
      ReceptionsReceive(start, packets, order[..n]);
      assert steps[..n] == earlier;
    }
  }

  function UpTo(n: nat): seq<nat> {
    seq(n, i => i)
  }

  lemma ExactChunks(n: nat, size: nat)
    requires size > 0
    ensures DivCeil(n * size, size) == n
  {
    ModIsUnique(n * size + size - 1, n, size, size - 1);
  }

  /** The largest chunk that a receiver of configuration `c` stores whole and does not refuse. */
  function LargestChunk(c: Config): nat {
    Min(c.fragmentSize, c.maxPacketSize)
  }

  /** A sender like `c` that splits every payload into such chunks. */
  function Largest(c: Config): Config {
    c.(fragmentSize := LargestChunk(c), maxPacketSize := c.maxFragments * LargestChunk(c), fragmentAbove := 0)
  }

  /** The shortest header: nothing missing among the acknowledgements, and the ack next to the sequence. */
  const SHORT_HEADER := PacketHeader(0, 65535, 0xFFFF_FFFF)

  lemma ShortHeader()
    ensures |Encode(SHORT_HEADER)| == 4
  {
    EncodedLength(SHORT_HEADER);
  }

  /** The largest chunks, if there are at least two, exceed a payload slot that all fragments together do. */
  lemma LargestReaches(c: Config, data: seq<u8>)
    requires c.Valid() && c.fragmentSize <= 65535 && c.maxFragments <= 255 && !NoOverrun(c)
    requires |data| == c.maxFragments * LargestChunk(c)
    ensures RoundTrip.Reaches(Largest(c), c, SHORT_HEADER, data) && |data| > c.maxPacketSize
    ensures DivCeil(|data|, Largest(c).fragmentSize) == c.maxFragments
  {
    ShortHeader();
    ExactChunks(c.maxFragments, LargestChunk(c));
    ProductsGrow(2, c.maxFragments, c.maxPacketSize);
  }

  /** The receiver after all fragments but the last one arrived in order. */
  lemma AllButLast(f: EndpointState, c: Config, h: PacketHeader, data: seq<u8>, last: nat)
    requires f.Initial() && h.sequence == 0 && RoundTrip.Reaches(c, f.config, h, data) && DivCeil(|data|, c.fragmentSize) == last + 1
    ensures var g := RoundTrip.ReceiveInOrder(f, Datagrams(c, h, data), UpTo(last));
      && Invariant(g) && g.config == f.config && g.incoming == []
      && RoundTrip.SlotGathers(g.reassembly, h.sequence, data, c.fragmentSize, UpTo(last))
  {
    InitialInvariant(f);
    RoundTrip.FragmentsArrive(f, c, h, data, UpTo(last));
  }

  lemma LastCompletes(g: EndpointState, c: Config, h: PacketHeader, data: seq<u8>, arrived: seq<nat>, k: nat)
    requires Invariant(g) && RoundTrip.Reaches(c, g.config, h, data) && k < |Datagrams(c, h, data)|
    requires RoundTrip.SlotGathers(g.reassembly, h.sequence, data, c.fragmentSize, arrived)
    requires |arrived| + 1 == DivCeil(|data|, c.fragmentSize) && Distinct(arrived + [k])
    requires forall i <- arrived :: i < DivCeil(|data|, c.fragmentSize)
    ensures var bytes := Datagrams(c, h, data)[k].data;
      && FragmentInput(g, bytes).Some?
      && var (fragment, body) := FragmentInput(g, bytes).value;
         ProcessFragment(g.reassembly, fragment, body).1 == Some(data)
  {
    Datagram.ReadDatagram(g, c, h, data, k);
    Datagram.FragmentReachesReassembly(g, c, h, data, k);
    var (fragment, body) := FragmentInput(g, Datagrams(c, h, data)[k].data).value;
    RoundTrip.SlotAfterFragment(g.reassembly, h.sequence, data, c.fragmentSize, arrived, ReassemblyRuns.Arrival(fragment, body));
  }

  /** Where a payload slot is smaller than all fragments together, and there can be two, a run overruns it. */
  lemma FragmentsOverrun(start: EndpointState) returns (steps: seq<Step>)
    requires start.Initial() && start.config.fragmentSize <= 65535 && start.config.maxFragments <= 255
    requires !NoOverrun(start.config)
    ensures !RunFits(start, steps)
  {
    var c, h, last := Largest(start.config), SHORT_HEADER, start.config.maxFragments - 1;
    var data: seq<u8> := seq(c.maxPacketSize, _ => 0);
    LargestReaches(start.config, data);
    AllButLast(start, c, h, data, last);
    var packets := Datagrams(c, h, data);
    var g := RoundTrip.ReceiveInOrder(start, packets, UpTo(last));
    LastCompletes(g, c, h, data, UpTo(last), last);
    OverrunDoesNotFit(g, packets[last].data);
    steps := Receptions(packets, UpTo(last)) + [Receive(packets[last].data)];
    ReceptionsReceive(start, packets, UpTo(last));
    assert steps[..last] == Receptions(packets, UpTo(last));
  }

  lemma OverrunDoesNotFit(e: EndpointState, data: seq<u8>)
    requires e.Valid() && e.incoming == [] && FragmentInput(e, data).Some?
    requires var (h, body) := FragmentInput(e, data).value;
      var done := ProcessFragment(e.reassembly, h, body).1; done.Some? && |done.value| > e.config.maxPacketSize
    ensures !Fits(e, data)
  {
  }

  /** For chunks and counts that the fragment header can express: no run of any steps whatever, from a
      fresh endpoint, overruns a payload slot exactly when the slot is as large as all fragments together
      or there is only one fragment. */
  lemma AlwaysFits(c: Config)
    requires c.Valid() && c.fragmentSize <= 65535 && c.maxFragments <= 255
    ensures (forall start: EndpointState, steps: seq<Step> | start.Initial() && start.config == c :: RunFits(start, steps))
       <==> c.maxPacketSize == c.maxFragments * c.fragmentSize || c.maxFragments == 1
  {
    if NoOverrun(c) {
      forall start: EndpointState, steps: seq<Step> | start.Initial() && start.config == c
        ensures RunFits(start, steps)
      {
        RunsFit(start, steps);
      }
    } else {
      BlankIsInitial(c);
      var steps := FragmentsOverrun(Blank(c));
    }
  }

  lemma RunsFit(start: EndpointState, steps: seq<Step>)
    requires start.Initial() && NoOverrun(start.config)
    ensures RunFits(start, steps)
  {
    InitialInvariant(start);
    forall i | 0 <= i < |steps| && steps[i].Receive?
      ensures FitsIn(After(start, steps[..i]), steps[i].data)
    {
      AfterKeepsInvariant(start, steps[..i]);
      EverythingFits(After(start, steps[..i]), steps[i].data);
    }
  }

  // ---- Duplicates ----

  /** The datagram names sequence `s`, in its fragment header or else in its packet header. */
  ghost predicate Names(e: EndpointState, data: seq<u8>, s: u16) {
    match FragmentInput(e, data)
    case Some((h, _)) => h.sequence == s
    case None => Decode(data).Some? ==> Decode(data).value.0.sequence == s
  }

  /** The fragment is the only one its slot still lacks. */
  ghost predicate CompletesNow(r: Reassembly, h: FragmentHeader)
    requires r.Shape()
  {
    ReassemblyRuns.Accepted(r, h) && forall i | 0 <= i < h.count && i != h.id :: i in ReassemblyRuns.PartsSoFar(r, h.sequence)
  }

  /** A datagram of a packet already recorded delivers nothing, except exactly when it is a fragment
      that completes its slot: the fragment path does not ask what was recorded. */
  lemma DuplicateIsDropped(e: EndpointState, data: seq<u8>, s: u16)
    requires e.Valid() && e.received.Exists(s) && Names(e, data, s)
    ensures Arriving(e, data) == []
       <==> !(FragmentInput(e, data).Some? && CompletesNow(e.reassembly, FragmentInput(e, data).value.0))
  {
    if FragmentInput(e, data).Some? {
      var (h, body) := FragmentInput(e, data).value;
      ReassemblyRuns.SameSequence(e.reassembly, h, body);
      LastMissing(ReassemblyRuns.PartsSoFar(e.reassembly, h.sequence), h.id, Stored(body, e.reassembly.fragmentSize), h.count);
    }
  }

  lemma LastMissing(parts: map<nat, seq<u8>>, id: nat, part: seq<u8>, n: nat)
    ensures ReassemblyRuns.Full(parts[id := part], n) <==> forall i | 0 <= i < n && i != id :: i in parts
  {
    forall i: nat
      ensures i in parts[id := part] <==> i == id || i in parts
    {
    }
  }

  /**
    So duplicates can be delivered, and every payload that is sent in fragments, however many, is: when its
    datagrams have all arrived, in any order, and all arrive once more, in any order, the application gets it
    twice, although the packet has been recorded.
   */
  lemma FragmentsAreDeliveredTwice(e: EndpointState, f: EndpointState, data: seq<u8>, first: seq<nat>, second: seq<nat>)
    requires Invariant(e) && |data| <= e.config.maxPacketSize
    requires Invariant(f) && RoundTrip.Splits(e.config, f.config, data)
    requires |e.outgoing| + DivCeil(|data|, e.config.fragmentSize) <= e.config.outgoingSize
    requires f.reassembly.tracker.CanInsert(e.sequence) && !f.reassembly.tracker.Exists(e.sequence)
    requires |f.incoming| + 1 < f.config.incomingSize
    requires RoundTrip.Permutation(first, DivCeil(|data|, e.config.fragmentSize))
    requires RoundTrip.Permutation(second, DivCeil(|data|, e.config.fragmentSize))
    ensures |e.outgoing| <= |SendPacket(e, data).outgoing|
    ensures var packets, p := SendPacket(e, data).outgoing[|e.outgoing|..], Packet(e.sequence, data);
      var once := RoundTrip.ReceiveInOrder(f, packets, first);
      && |packets| == |first| && once.incoming == f.incoming + [p]
      && (f.received.CanInsert(e.sequence) ==> once.received.Exists(e.sequence))
      && RoundTrip.ReceiveInOrder(once, packets, second).incoming == f.incoming + [p] + [p]
  {
    var h := OutgoingHeader(e);
    RoundTrip.SendQueuesAll(e, data);
    RoundTrip.FragmentsArrive(f, e.config, h, data, first);
    RoundTrip.FragmentsArrive(RoundTrip.ReceiveInOrder(f, Datagrams(e.config, h, data), first), e.config, h, data, second);
    assert SendPacket(e, data).outgoing[|e.outgoing|..] == Datagrams(e.config, h, data);
  }

  /** In particular, a payload in a single fragment is delivered again by a single duplicate. */
  lemma OneFragmentIsDeliveredTwice(e: EndpointState, f: EndpointState, data: seq<u8>)
    requires Invariant(e) && |data| <= e.config.maxPacketSize && |e.outgoing| < e.config.outgoingSize
    requires Invariant(f) && RoundTrip.Splits(e.config, f.config, data) && |data| <= e.config.fragmentSize
    requires f.reassembly.tracker.CanInsert(e.sequence) && !f.reassembly.tracker.Exists(e.sequence)
    requires |f.incoming| + 1 < f.config.incomingSize
    ensures |SendPacket(e, data).outgoing| == |e.outgoing| + 1
    ensures var bytes, p := SendPacket(e, data).outgoing[|e.outgoing|].data, Packet(e.sequence, data);
      var once := ReceivePacket(f, bytes);
      && once.reassembly.Shape() && (f.received.CanInsert(e.sequence) ==> once.received.Exists(e.sequence))
      && ReceivePacket(once, bytes).incoming == f.incoming + [p] + [p]
  {
    DivCeilBounds(|data|, e.config.fragmentSize);
    DivCeilAtMost(|data|, e.config.fragmentSize, 1);
    FragmentsAreDeliveredTwice(e, f, data, [0], [0]);
    var packets := SendPacket(e, data).outgoing[|e.outgoing|..];
    ReceiveOnly(f, packets);
    ReceiveKeepsInvariant(f, packets[0].data);
    ReceiveOnly(ReceivePacket(f, packets[0].data), packets);
  }

  lemma ReceiveOnly(f: EndpointState, packets: seq<Packet>)
    requires Runnable(f) && packets != []
    ensures RoundTrip.ReceiveInOrder(f, packets, [0]) == ReceivePacket(f, packets[0].data)
  {
    assert [0][..0] == [];
  }
}
