/**
  The bytes that tracked packets are accounted with: what each entry's size is, over every run of the pair,
  and how sending, acknowledging and receiving move the three byte sums.
 */
module Accounting {
  import Acknowledgements
  import opened Arithmetic
  import opened Bits
  import Counting
  import opened EndpointModel
  import opened EndpointRuns
  import Fragments
  import Integrity
  import opened Network
  import opened Statistics
  import WireFormat
  import opened Windows

  // ---- The sums ----

  lemma SumWith(sizes: map<int, nat>, u: int, size: nat)
    requires u !in sizes
    ensures Sum(sizes[u := size]) == Sum(sizes) + size
  {
    SumWithout(sizes[u := size], u);
    assert sizes[u := size] - {u} == sizes;
  }

  lemma SumAfterEviction(sizes: map<int, nat>, sizes': map<int, nat>, oldest: int, u: int, size: nat)
    requires u !in sizes && oldest != u && sizes' == (sizes - {oldest})[u := size]
    ensures Sum(sizes') + (if oldest in sizes then sizes[oldest] else 0) == Sum(sizes) + size
  {
    SumWith(sizes - {oldest}, u, size);
    if oldest in sizes { SumWithout(sizes, oldest); } else { assert sizes - {oldest} == sizes; }
  }

  ghost function SentSizes(w: Window<SentData>): map<int, nat> {
    map u | u in w.live :: w.live[u].bytes
  }

  ghost function AckedSizes(w: Window<SentData>): map<int, nat> {
    map u | u in w.live && w.live[u].acked :: w.live[u].bytes
  }

  lemma NextAddsSentBytes(w: Window<SentData>, size: u32)
    requires w.Valid()
    ensures var w', oldest := w.Put(w.head, SentData(false, size)), w.head - w.size;
      SentBytes(w') + (if oldest in w.live then w.live[oldest].bytes else 0) == SentBytes(w) + size
  {
    var w', oldest := w.Put(w.head, SentData(false, size)), w.head - w.size;
    assert SentSizes(w') == (SentSizes(w) - {oldest})[w.head := size];
    SumAfterEviction(SentSizes(w), SentSizes(w'), oldest, w.head, size);
  }

  lemma NextKeepsAckedBytes(w: Window<SentData>, size: u32)
    requires w.Valid()
    ensures var w', oldest := w.Put(w.head, SentData(false, size)), w.head - w.size;
      AckedBytes(w') + (if oldest in w.live && w.live[oldest].acked then w.live[oldest].bytes else 0) == AckedBytes(w)
  {
    var w', oldest := w.Put(w.head, SentData(false, size)), w.head - w.size;
    assert AckedSizes(w') == AckedSizes(w) - {oldest};
    if oldest in AckedSizes(w) { SumWithout(AckedSizes(w), oldest); } else { assert AckedSizes(w) - {oldest} == AckedSizes(w); }
  }

  /** Sending raises the sent bytes by the payload and the lower headers, and drops the oldest packet from both sums. */
  lemma SendingAddsBytes(e: EndpointState, data: seq<u8>)
    requires Invariant(e) && |data| <= e.config.maxPacketSize
    ensures var w, w', oldest := e.sent, SendPacket(e, data).sent, e.sent.head - e.sent.size;
      && SentBytes(w') + (if oldest in w.live then w.live[oldest].bytes else 0)
         == SentBytes(w) + (e.config.packetHeaderSize + |data|) % 0x1_0000_0000
      && AckedBytes(w') + (if oldest in w.live && w.live[oldest].acked then w.live[oldest].bytes else 0) == AckedBytes(w)
  {
    Counting.SendChanges(e, data);
    NextAddsSentBytes(e.sent, (e.config.packetHeaderSize + |data|) % 0x1_0000_0000);
    NextKeepsAckedBytes(e.sent, (e.config.packetHeaderSize + |data|) % 0x1_0000_0000);
  }

  /** From `w` to `w'` nothing but acknowledgements was added. */
  ghost predicate MarksMore(w: Window<SentData>, w': Window<SentData>) {
    && w'.live.Keys == w.live.Keys
    && forall u <- w.live :: w'.live[u].bytes == w.live[u].bytes && (w.live[u].acked ==> w'.live[u].acked)
  }

  /** Marking raises the acknowledged bytes by those of the packets newly marked, and leaves the sent bytes. */
  lemma MarkingAddsBytes(w: Window<SentData>, w': Window<SentData>)
    requires MarksMore(w, w')
    ensures SentBytes(w') == SentBytes(w)
    ensures AckedBytes(w') == AckedBytes(w) + Sum(map u | u in w.live && !w.live[u].acked && w'.live[u].acked :: w.live[u].bytes)
  {
    SameSizes(w, w');
    SumSplits(AckedSizes(w'), AckedNumbers(w));
    SplitByMark(w, w');
  }

  lemma SameSizes(w: Window<SentData>, w': Window<SentData>)
    requires MarksMore(w, w')
    ensures SentSizes(w') == SentSizes(w)
  {
    var sizes, sizes' := SentSizes(w), SentSizes(w');
    forall u
      ensures u in sizes' <==> u in sizes
      ensures u in sizes ==> sizes'[u] == sizes[u]
    {
      assert u in w.live <==> u in w'.live.Keys;
    }
  }

  lemma SplitByMark(w: Window<SentData>, w': Window<SentData>)
    requires MarksMore(w, w')
    ensures Restricted(AckedSizes(w'), AckedNumbers(w)) == AckedSizes(w)
    ensures AckedSizes(w') - AckedNumbers(w) == map u | u in w.live && !w.live[u].acked && w'.live[u].acked :: w.live[u].bytes
  {
    var kept, earlier := Restricted(AckedSizes(w'), AckedNumbers(w)), AckedSizes(w);
    forall u
      ensures u in kept <==> u in earlier
      ensures u in earlier ==> kept[u] == earlier[u]
    {
      assert u in w.live <==> u in w'.live.Keys;
    }
    var rest: map<int, nat> := map u | u in w.live && !w.live[u].acked && w'.live[u].acked :: w.live[u].bytes;
    var gone := AckedSizes(w') - AckedNumbers(w);
    forall u
      ensures u in gone <==> u in rest
      ensures u in rest ==> gone[u] == rest[u]
    {
      assert u in w.live <==> u in w'.live.Keys;
    }
  }

  lemma MarkingOneAddsBytes(w: Window<SentData>, u: int)
    requires u in w.live && !w.live[u].acked
    ensures var w' := w.(live := w.live[u := w.live[u].(acked := true)]);
      SentBytes(w') == SentBytes(w) && AckedBytes(w') == AckedBytes(w) + w.live[u].bytes
  {
    var w' := w.(live := w.live[u := w.live[u].(acked := true)]);
    MarkingAddsBytes(w, w');
    var marked: map<int, nat> := map v | v in w.live && !w.live[v].acked && w'.live[v].acked :: w.live[v].bytes;
    assert marked == map[u := w.live[u].bytes];
    SumWithout(marked, u);
    assert marked - {u} == map[];
  }

  /** Any reception raises the acknowledged bytes by those of the packets it newly acknowledges. */
  lemma ReceivingMarksBytes(e: EndpointState, data: seq<u8>)
    requires e.Valid()
    ensures var w, w' := e.sent, ReceivePacket(e, data).sent;
      && MarksMore(w, w') && SentBytes(w') == SentBytes(w)
      && AckedBytes(w') == AckedBytes(w) + Sum(map u | u in w.live && !w.live[u].acked && w'.live[u].acked :: w.live[u].bytes)
  {
    ReceiveAcks(e, data);
    if AckInput(e, data).Some? {
      var (base, ack, ackBits) := AckInput(e, data).value;
      AckingMarksExactly(base, ack, ackBits, 32);
    }
    MarkingAddsBytes(e.sent, ReceivePacket(e, data).sent);
  }

  /** What a reception records, under sequence `s`, with the length of what was received. */
  ghost predicate RecordedWith(e: EndpointState, e': EndpointState, s: u16, len: nat) {
    e'.received == e.received.Insert(s, ReceivedData((e.config.packetHeaderSize + len) % 0x1_0000_0000))
  }

  /** `e'` records and delivers what the reception of `data` does. */
  ghost predicate RecordsAndDelivers(e: EndpointState, e': EndpointState, data: seq<u8>)
    requires e.Valid()
  {
    && e'.received == (match Recording(e, data)
                       case None => e.received
                       case Some((s, d)) => e.received.Insert(s, d))
    && e'.incoming == Accept(e.incoming, e.config.incomingSize, Arriving(e, data))
  }

  lemma ReceptionRecordsAndDelivers(e: EndpointState, data: seq<u8>)
    requires e.Valid()
    ensures RecordsAndDelivers(e, ReceivePacket(e, data), data)
  {
    ReceiveRecords(e, data);
    ReceiveDelivers(e, data);
  }

  lemma RegularRecordsLength(e: EndpointState, e': EndpointState, data: seq<u8>, s: u16)
    requires e.Valid() && RecordsAndDelivers(e, e', data) && AcceptsRegular(e, data, s)
    ensures RecordedWith(e, e', s, |data|)
  {
  }

  /** The packet that the reception delivered. */
  ghost function NewPacket(e: EndpointState, e': EndpointState): Packet
    requires |e'.incoming| > |e.incoming|
  {
    e'.incoming[|e.incoming|]
  }

  lemma AcceptsAtMostOne<T>(queue: seq<T>, capacity: nat, items: seq<T>)
    requires |queue| <= capacity && |items| <= 1
    ensures Accept(queue, capacity, items) == if items != [] && |queue| < capacity then queue + [items[0]] else queue
  {
  }

  lemma DeliveryIsRecorded(e: EndpointState, e': EndpointState, s: u16, done: Option<seq<u8>>)
    requires |e.incoming| <= e.config.incomingSize
    requires e'.received == if done.Some? && |e.incoming| < e.config.incomingSize
      then e.received.Insert(s, ReceivedData(PacketBytes(e.config, |done.value|))) else e.received
    requires e'.incoming == Accept(e.incoming, e.config.incomingSize, if done.Some? then [Packet(s, done.value)] else [])
    ensures if |e'.incoming| > |e.incoming| then NewPacket(e, e').sequence == s && RecordedWith(e, e', s, |NewPacket(e, e').data|)
            else e'.received == e.received
  {
    AcceptsAtMostOne(e.incoming, e.config.incomingSize, if done.Some? then [Packet(s, done.value)] else []);
  }

  lemma FragmentRecordsLength(e: EndpointState, e': EndpointState, data: seq<u8>)
    requires e.Valid() && RecordsAndDelivers(e, e', data) && Counting.IsFragment(e, data)
    ensures if |e'.incoming| > |e.incoming| then RecordedWith(e, e', NewPacket(e, e').sequence, |NewPacket(e, e').data|)
            else e'.received == e.received
  {
    WireFormat.FragmentHeaderIsRead(data);
    match FragmentInput(e, data) {
      case None => DeliveryIsRecorded(e, e', 0, None);
      case Some((h, body)) => DeliveryIsRecorded(e, e', h.sequence, Fragments.ProcessFragment(e.reassembly, h, body).1);
    }
  }

  /** An accepted unfragmented datagram is recorded with its own length; a packet that a fragment completes is,
      if it is delivered, with the length of its payload; and nothing else is recorded. */
  lemma ReceivingRecordsLength(e: EndpointState, data: seq<u8>)
    requires e.Valid()
    ensures var e' := ReceivePacket(e, data);
      if !Counting.Receives(e, data) then e'.received == e.received
      else if Counting.IsRegular(e, data) then
        WireFormat.IsReadable(data) && RecordedWith(e, e', WireFormat.LowFirst(data[1], data[2]), |data|)
      else |e'.incoming| > |e.incoming| && RecordedWith(e, e', NewPacket(e, e').sequence, |NewPacket(e, e').data|)
  {
    ReceptionRecordsAndDelivers(e, data);
    if Counting.IsFragment(e, data) {
      FragmentRecordsLength(e, ReceivePacket(e, data), data);
    } else if Counting.Receives(e, data) {
      Counting.AcceptedBySequence(e, data);
      RegularRecordsLength(e, ReceivePacket(e, data), data, WireFormat.LowFirst(data[1], data[2]));
    } else {
      Counting.RefusalsOnlyCount(e, data);
    }
  }

  /** Recording adds the size of the packet to the received bytes of those that stay in the window. */
  lemma RecordingAddsBytes(w: Window<ReceivedData>, u: int, d: ReceivedData)
    ensures ReceivedBytes(w.Put(u, d)) == d.bytes +
      Sum(map k | k in w.live && k != u && Max(w.head, u + 1) - w.size <= k :: w.live[k].bytes)
  {
    var others: map<int, nat> := map k | k in w.live && k != u && Max(w.head, u + 1) - w.size <= k :: w.live[k].bytes;
    SumWith(others, u, d.bytes);
    assert others[u := d.bytes] == map k | k in w.Put(u, d).live :: w.Put(u, d).live[k].bytes;
  }

  // ---- The sizes of tracked packets, over runs ----

  /** Every tracked packet is accounted with its payload and the lower headers. */
  ghost predicate SizedAs(w: Window<SentData>, sends: seq<seq<u8>>, packetHeaderSize: nat) {
    forall u <- w.live ::
      0 <= u < |sends| && w.live[u].bytes == (packetHeaderSize + |sends[u]|) % 0x1_0000_0000
  }

  ghost predicate SentSized(x: Node) {
    SizedAs(x.ep.sent, x.sends, x.ep.config.packetHeaderSize)
  }

  lemma NextIsSized(w: Window<SentData>, sends: seq<seq<u8>>, data: seq<u8>, packetHeaderSize: nat)
    requires SizedAs(w, sends, packetHeaderSize) && |sends| == w.head
    ensures SizedAs(w.Put(w.head, SentData(false, (packetHeaderSize + |data|) % 0x1_0000_0000)), sends + [data], packetHeaderSize)
  {
  }

  lemma MarksKeepSizes(w: Window<SentData>, w': Window<SentData>, sends: seq<seq<u8>>, packetHeaderSize: nat)
    requires SizedAs(w, sends, packetHeaderSize) && MarksMore(w, w')
    ensures SizedAs(w', sends, packetHeaderSize)
  {
    forall u | u in w'.live
      ensures u in w.live
    {
      assert u in w'.live.Keys;
    }
  }

  lemma SubmitKeepsSentSized(x: Node, data: seq<u8>)
    requires Invariant(x.ep) && |x.sends| == x.ep.sent.head && SentSized(x)
    ensures SentSized(SubmitPayload(x, data))
  {
    Counting.SendChanges(x.ep, data);
    if |data| <= x.ep.config.maxPacketSize {
      NextIsSized(x.ep.sent, x.sends, data, x.ep.config.packetHeaderSize);
    }
  }

  lemma ReceivedKeepsSentSized(x: Node, em: Emission)
    requires Invariant(x.ep) && SentSized(x)
    ensures SentSized(ReceiveEmission(x, em))
  {
    ReceivingMarksBytes(x.ep, em.bytes);
    ReceiveAcks(x.ep, em.bytes);
    MarksKeepSizes(x.ep.sent, ReceivePacket(x.ep, em.bytes).sent, x.sends, x.ep.config.packetHeaderSize);
  }

  lemma MoveKeepsSentSized(x: Node, y: Node, move: Move, promise: Promise)
    requires Own(x) && SentSized(x)
    ensures SentSized(Move1(x, y, move, promise))
  {
    match move {
      case Submit(data) => SubmitKeepsSentSized(x, data);
      case Deliver(i) => if i < |y.emitted| { ReceivedKeepsSentSized(x, y.emitted[i]); }
      case _ => LocalKeepsOwn(x, y, move, promise);
    }
  }

  /** Over every run, whatever the network does, on both sides. */
  lemma {:induction false} TrackedSizes(start: System, moves: seq<(bool, Move)>, promise: Promise, side: bool)
    requires Fresh(start.a) && Fresh(start.b)
    ensures SentSized(Side(AfterMoves(start, moves, promise), side))
    decreases |moves|
  {
    if moves != [] {
      var n := |moves| - 1;
      TrackedSizes(start, moves[..n], promise, side);
      RunsStayOwn(start, moves[..n], promise);
      var s := AfterMoves(start, moves[..n], promise);
      if moves[n].0 == side { MoveKeepsSentSized(Side(s, side), Side(s, !side), moves[n].1, promise); }
    }
  }

  ghost predicate SameNumber(number: int, u: int, exact: bool) {
    if exact then number == u else number % 65536 == u % 65536
  }

  /** An emitted datagram of an unfragmented packet. */
  ghost predicate FromDatagram(x: Node, y: Node, i: int, u: int, bytes: u32, exact: bool) {
    && 0 <= i < |y.emitted| && SameNumber(y.emitted[i].number, u, exact) && Integrity.Unfragmented(y, y.emitted[i].number)
    && bytes == (x.ep.config.packetHeaderSize + |y.emitted[i].bytes|) % 0x1_0000_0000
  }

  /** A delivered packet that was sent in fragments. */
  ghost predicate FromPayload(x: Node, y: Node, i: int, u: int, bytes: u32, exact: bool) {
    && 0 <= i < |x.inbox| && SameNumber(x.inbox[i].number, u, exact)
    && 0 <= x.inbox[i].number < |y.sends| && !Integrity.Unfragmented(y, x.inbox[i].number)
    && bytes == (x.ep.config.packetHeaderSize + |x.inbox[i].packet.data|) % 0x1_0000_0000
  }

  ghost predicate HasSource(x: Node, y: Node, u: int, bytes: u32, exact: bool) {
    (exists i :: FromDatagram(x, y, i, u, bytes, exact)) || (exists i :: FromPayload(x, y, i, u, bytes, exact))
  }

  /** Every recorded packet is accounted with its datagram, or if it was fragmented with its payload, and the
      lower headers. */
  ghost predicate ReceivedSized(x: Node, y: Node, exact: bool) {
    forall u <- x.ep.received.live :: HasSource(x, y, u, x.ep.received.live[u].bytes, exact)
  }

  /** `x'` has all the sources that `x` had. */
  ghost predicate Continues(x: Node, x': Node) {
    x'.ep.config == x.ep.config && x.inbox <= x'.inbox
  }

  lemma SourceRemains(x: Node, x': Node, y: Node, y': Node, u: int, bytes: u32, exact: bool)
    requires HasSource(x, y, u, bytes, exact) && Continues(x, x') && Grows(y, y') && y.emitted <= y'.emitted
    ensures HasSource(x', y', u, bytes, exact)
  {
    if i :| FromDatagram(x, y, i, u, bytes, exact) {
      assert FromDatagram(x', y', i, u, bytes, exact);
    } else {
      var i :| FromPayload(x, y, i, u, bytes, exact);
      assert FromPayload(x', y', i, u, bytes, exact);
    }
  }

  lemma SourcesRemain(x: Node, x': Node, y: Node, y': Node, exact: bool)
    requires ReceivedSized(x, y, exact) && x'.ep.received == x.ep.received
    requires Continues(x, x') && Grows(y, y') && y.emitted <= y'.emitted
    ensures ReceivedSized(x', y', exact)
  {
    forall u | u in x'.ep.received.live
      ensures HasSource(x', y', u, x'.ep.received.live[u].bytes, exact)
    {
      SourceRemains(x, x', y, y', u, x.ep.received.live[u].bytes, exact);
    }
  }

  lemma OneMoreSource(x: Node, x': Node, y: Node, s: u16, size: u32, exact: bool)
    requires ReceivedSized(x, y, exact) && Continues(x, x') && x'.ep.received == x.ep.received.Insert(s, ReceivedData(size))
    requires x.ep.received.CanInsert(s) ==> HasSource(x', y, x.ep.received.Resolve(s), size, exact)
    ensures ReceivedSized(x', y, exact)
  {
    forall u | u in x'.ep.received.live
      ensures HasSource(x', y, u, x'.ep.received.live[u].bytes, exact)
    {
      if !x.ep.received.CanInsert(s) || u != x.ep.received.Resolve(s) {
        SourceRemains(x, x', y, y, u, x.ep.received.live[u].bytes, exact);
      }
    }
  }

  /** On a timely network the number recorded is the packet's own; on any network it has the same sequence. */
  lemma RecordedNumber(w: Window<ReceivedData>, number: int, exact: bool)
    requires exact ==> TimelyFor(w, number)
    ensures w.CanInsert(number % 65536) ==> SameNumber(number, w.Resolve(number % 65536), exact)
  {
  }

  lemma ReceptionGrowsInbox(x: Node, em: Emission)
    requires Own(x)
    ensures var x' := ReceiveEmission(x, em); var before, after := x.ep.incoming, ReceivePacket(x.ep, em.bytes).incoming;
      && Continues(x, x')
      && (|after| > |before| ==> |x'.inbox| == |x.inbox| + 1 && x'.inbox[|x.inbox|] == Delivery(em.number, after[|before|]))
  {
    ReceiveAcks(x.ep, em.bytes);
    ReceiveDelivers(x.ep, em.bytes);
    AcceptsAtMostOne(x.ep.incoming, x.ep.config.incomingSize, Arriving(x.ep, em.bytes));
  }

  lemma DatagramIsSource(x: Node, x': Node, y: Node, n: nat, exact: bool)
    requires ReceivedSized(x, y, exact) && Continues(x, x') && n < |y.emitted|
    requires Integrity.Unfragmented(y, y.emitted[n].number) && (exact ==> TimelyFor(x.ep.received, y.emitted[n].number))
    requires RecordedWith(x.ep, x'.ep, y.emitted[n].number % 65536, |y.emitted[n].bytes|)
    ensures ReceivedSized(x', y, exact)
  {
    var s: u16 := y.emitted[n].number % 65536;
    var size: u32 := (x.ep.config.packetHeaderSize + |y.emitted[n].bytes|) % 0x1_0000_0000;
    RecordedNumber(x.ep.received, y.emitted[n].number, exact);
    assert x.ep.received.CanInsert(s) ==> FromDatagram(x', y, n, x.ep.received.Resolve(s), size, exact);
    OneMoreSource(x, x', y, s, size, exact);
  }

  lemma PayloadIsSource(x: Node, x': Node, y: Node, number: int, exact: bool)
    requires ReceivedSized(x, y, exact) && Continues(x, x') && |x'.inbox| == |x.inbox| + 1 && x'.inbox[|x.inbox|].number == number
    requires 0 <= number < |y.sends| && !Integrity.Unfragmented(y, number) && (exact ==> TimelyFor(x.ep.received, number))
    requires RecordedWith(x.ep, x'.ep, number % 65536, |x'.inbox[|x.inbox|].packet.data|)
    ensures ReceivedSized(x', y, exact)
  {
    var s: u16 := number % 65536;
    var size: u32 := (x.ep.config.packetHeaderSize + |x'.inbox[|x.inbox|].packet.data|) % 0x1_0000_0000;
    RecordedNumber(x.ep.received, number, exact);
    assert x.ep.received.CanInsert(s) ==> FromPayload(x', y, |x.inbox|, x.ep.received.Resolve(s), size, exact);
    OneMoreSource(x, x', y, s, size, exact);
  }

  /** What an honest datagram records: itself, if it is unfragmented, or the payload it delivers, or nothing. */
  lemma HonestRecords(x: Node, y: Node, em: Emission)
    requires Own(x) && Honest(y, em)
    ensures 0 <= em.number < |y.sends|
    ensures var e' := ReceivePacket(x.ep, em.bytes);
      || e'.received == x.ep.received
      || (Integrity.Unfragmented(y, em.number) && RecordedWith(x.ep, e', em.number % 65536, |em.bytes|))
      || (&& !Integrity.Unfragmented(y, em.number) && |e'.incoming| > |x.ep.incoming|
          && RecordedWith(x.ep, e', em.number % 65536, |NewPacket(x.ep, e').data|))
  {
    var h, k :| Carries(y, em, h, k);
    HonestReads(x.ep, y, em, h, k);
    HonestRecordsNow(x.ep, ReceivePacket(x.ep, em.bytes), y, em);
  }

  lemma HonestRecordsNow(e: EndpointState, e': EndpointState, y: Node, em: Emission)
    requires e.Valid() && 0 <= em.number < |y.sends|
    requires e' == ReceivePacket(e, em.bytes)
    requires match FragmentInput(e, em.bytes)
      case Some((h, _)) => h.sequence == em.number % 65536 && !Integrity.Unfragmented(y, em.number)
      case None => AcceptsRegular(e, em.bytes, em.number % 65536) ==> Integrity.Unfragmented(y, em.number)
    requires Recording(e, em.bytes).Some? ==> Recording(e, em.bytes).value.0 == em.number % 65536
    ensures
      || e'.received == e.received
      || (Integrity.Unfragmented(y, em.number) && RecordedWith(e, e', em.number % 65536, |em.bytes|))
      || (&& !Integrity.Unfragmented(y, em.number) && |e'.incoming| > |e.incoming|
          && RecordedWith(e, e', em.number % 65536, |NewPacket(e, e').data|))
  {
    ReceptionRecordsAndDelivers(e, em.bytes);
    match FragmentInput(e, em.bytes) {
      case Some((h, body)) => DeliveryIsRecorded(e, e', h.sequence, Fragments.ProcessFragment(e.reassembly, h, body).1);
      case None =>
        if Recording(e, em.bytes).Some? { RegularRecordsLength(e, e', em.bytes, em.number % 65536); }
    }
  }

  lemma ReceivedKeepsReceivedSized(x: Node, y: Node, n: nat, exact: bool)
    requires Own(x) && Own(y) && ReceivedSized(x, y, exact) && n < |y.emitted|
    requires exact ==> TimelyFor(x.ep.received, y.emitted[n].number)
    ensures ReceivedSized(ReceiveEmission(x, y.emitted[n]), y, exact)
  {
    var em := y.emitted[n];
    var x' := ReceiveEmission(x, em);
    HonestRecords(x, y, em);
    ReceptionGrowsInbox(x, em);
    if x'.ep.received == x.ep.received {
      SourcesRemain(x, x', y, y, exact);
    } else if Integrity.Unfragmented(y, em.number) {
      DatagramIsSource(x, x', y, n, exact);
    } else {
      PayloadIsSource(x, x', y, em.number, exact);
    }
  }

  lemma MoveKeepsReceivedSized(x: Node, y: Node, move: Move, promise: Promise)
    requires Own(x) && Own(y) && ReceivedSized(x, y, promise.timely)
    ensures ReceivedSized(Move1(x, y, move, promise), y, promise.timely)
  {
    if move.Deliver? {
      if move.i < |y.emitted| && Deliverable(x, y.emitted[move.i], promise) {
        ReceivedKeepsReceivedSized(x, y, move.i, promise.timely);
      }
    } else {
      MoveKeepsOwn(x, y, move, promise);
      Integrity.LocalKeepsReassembly(x, y, move, promise);
      SourcesRemain(x, Move1(x, y, move, promise), y, y, promise.timely);
    }
  }

  lemma NextKeepsReceivedSized(s: System, move: (bool, Move), promise: Promise, receiver: bool)
    requires Own(s.a) && Own(s.b) && ReceivedSized(Side(s, receiver), Side(s, !receiver), promise.timely)
    ensures var s' := Next(s, move, promise); ReceivedSized(Side(s', receiver), Side(s', !receiver), promise.timely)
  {
    var x, y := Side(s, receiver), Side(s, !receiver);
    if move.0 == receiver {
      MoveKeepsReceivedSized(x, y, move.1, promise);
    } else {
      Acknowledgements.MoveEmits(y, x, move.1, promise);
      SourcesRemain(x, x, y, Move1(y, x, move.1, promise), promise.timely);
    }
  }

  /** Over every run, whatever the network does: under the packet's own sequence, and on a timely network under
      its own number. */
  lemma {:induction false} RecordedSizes(start: System, moves: seq<(bool, Move)>, promise: Promise, receiver: bool)
    requires Fresh(start.a) && Fresh(start.b)
    ensures var s := AfterMoves(start, moves, promise);
      ReceivedSized(Side(s, receiver), Side(s, !receiver), promise.timely)
    decreases |moves|
  {
    if moves != [] {
      var n := |moves| - 1;
      RecordedSizes(start, moves[..n], promise, receiver);
      RunsStayOwn(start, moves[..n], promise);
      NextKeepsReceivedSized(AfterMoves(start, moves[..n], promise), moves[n], promise, receiver);
    }
  }
}
