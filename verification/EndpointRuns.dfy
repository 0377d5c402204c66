/** What every run of a single endpoint keeps, whatever datagrams reach it. */
module EndpointRuns {
  import opened Arithmetic
  import opened Bits
  import opened EndpointModel
  import Fragments
  import opened Packets
  import opened Sequence
  import opened Windows

  datatype Step =
    | Send(data: seq<u8>)
    | Receive(data: seq<u8>)
    | DrainOut
    | DrainIn
    | Clear
    | Update

  /** What the operations themselves need of a state. */
  ghost predicate Runnable(e: EndpointState) {
    e.config.fragmentSize > 0 && e.config.sentSize >= 2 && e.reassembly.Shape()
  }

  ghost function Apply(e: EndpointState, step: Step): EndpointState
    requires Runnable(e)
  {
    match step
    case Send(data) => SendPacket(e, data)
    case Receive(data) => ReceivePacket(e, data)
    case DrainOut => DrainOutgoing(e)
    case DrainIn => DrainIncoming(e)
    case Clear => ClearAcks(e)
    case Update => UpdateLoss(e)
  }

  // ---- Acknowledgement processing ----

  /** The number that one announced sequence newly marks, if any. */
  ghost function NewlyAckedOne(e: EndpointState, s: u16): seq<int> {
    if e.sent.Exists(s) && !e.sent.live[e.sent.Resolve(s)].acked then [e.sent.Resolve(s)] else []
  }

  /** The numbers that the first `k` bits newly mark, in order. */
  ghost function NewlyAcked(e: EndpointState, ack: u16, ackBits: u32, k: nat): seq<int>
    requires k <= 32
  {
    if k == 0 then []
    else if BitSet(ackBits, k - 1) then
      NewlyAcked(e, ack, ackBits, k - 1)
      + NewlyAckedOne(ProcessAcks(e, ack, ackBits, k - 1), WrappingSub(ack, k - 1))
    else NewlyAcked(e, ack, ackBits, k - 1)
  }

  /** Some announced bit below `k` stands for number `u` in window `w`. */
  ghost predicate Announced(w: Window<SentData>, ack: u16, ackBits: u32, k: nat, u: int)
    requires k <= 32
  {
    exists i :: 0 <= i < k && BitSet(ackBits, i) && w.Resolve(WrappingSub(ack, i)) == u
  }

  /** Acknowledging changes nothing of the sent window but marks, and marks exactly the announced numbers. */
  lemma {:induction false} AckingMarksExactly(e: EndpointState, ack: u16, ackBits: u32, k: nat)
    requires e.sent.Valid() && k <= 32
    ensures var w := ProcessAcks(e, ack, ackBits, k).sent;
      && w.Valid() && w.size == e.sent.size && w.head == e.sent.head && w.live.Keys == e.sent.live.Keys
      && (forall u <- w.live :: w.live[u].bytes == e.sent.live[u].bytes)
      && (forall u <- w.live :: w.live[u].acked <==> e.sent.live[u].acked || Announced(e.sent, ack, ackBits, k, u))
    decreases k
  {
    if k > 0 {
      AckingMarksExactly(e, ack, ackBits, k - 1);
    }
  }

  function Wrapped(numbers: seq<int>): seq<u16> {
    if numbers == [] then [] else Wrapped(numbers[..|numbers| - 1]) + [numbers[|numbers| - 1] % 65536]
  }

  ghost predicate Distinct(numbers: seq<int>) {
    forall i, j | 0 <= i < j < |numbers| :: numbers[i] != numbers[j]
  }

  lemma AcceptTwice<T>(queue: seq<T>, capacity: nat, first: seq<T>, second: seq<T>)
    requires |queue| <= capacity
    ensures Accept(Accept(queue, capacity, first), capacity, second) == Accept(queue, capacity, first + second)
  {
    assert queue + (first + second) == queue + first + second;
  }

  lemma WrappedAppend(numbers: seq<int>, more: seq<int>)
    requires |more| <= 1
    ensures Wrapped(numbers + more) == Wrapped(numbers) + Wrapped(more)
  {
    if more == [] {
      assert numbers + more == numbers;
    } else {
      assert (numbers + more)[..|numbers|] == numbers;
    }
  }

  ghost predicate Marked(w: Window<SentData>, numbers: seq<int>) {
    forall u <- numbers :: u in w.live && w.live[u].acked
  }

  ghost predicate Unmarked(w: Window<SentData>, numbers: seq<int>) {
    forall u <- numbers :: u in w.live && !w.live[u].acked
  }

  lemma AckOneReports(e: EndpointState, s: u16)
    requires |e.acks| <= e.config.ackBufferSize
    ensures var e' := AckOne(e, s); var news := NewlyAckedOne(e, s);
      && e'.acks == Accept(e.acks, e.config.ackBufferSize, Wrapped(news))
      && e'.counters.packetsAcked == e.counters.packetsAcked + |news|
      && Unmarked(e.sent, news) && Marked(e'.sent, news)
      && (forall u <- e.sent.live :: e.sent.live[u].acked ==> u in e'.sent.live && e'.sent.live[u].acked)
  {
    assert e.acks + [] == e.acks;
  }

  /** From `e` to `e'`, the list of acknowledgements grew by the newly marked numbers, the counter by their count. */
  ghost predicate Reported(e: EndpointState, e': EndpointState, news: seq<int>) {
    && |e'.acks| <= e.config.ackBufferSize
    && e'.acks == Accept(e.acks, e.config.ackBufferSize, Wrapped(news))
    && e'.counters.packetsAcked == e.counters.packetsAcked + |news|
    && Distinct(news) && Unmarked(e.sent, news) && Marked(e'.sent, news)
  }

  /** From `w` to `w'`, marks were only added. */
  ghost predicate OnlyMarked(w: Window<SentData>, w': Window<SentData>) {
    && w'.live.Keys == w.live.Keys
    && forall u <- w.live :: w.live[u].acked ==> w'.live[u].acked
  }

  lemma ReportedExtends(e: EndpointState, before: EndpointState, news: seq<int>, s: u16)
    requires |e.acks| <= e.config.ackBufferSize && before.config == e.config
    requires Reported(e, before, news) && OnlyMarked(e.sent, before.sent)
    ensures Reported(e, AckOne(before, s), news + NewlyAckedOne(before, s))
  {
    var one := NewlyAckedOne(before, s);
    AckOneReports(before, s);
    AcceptTwice(e.acks, e.config.ackBufferSize, Wrapped(news), Wrapped(one));
    WrappedAppend(news, one);
  }

  lemma {:induction false} AckingReports(e: EndpointState, ack: u16, ackBits: u32, k: nat)
    requires e.sent.Valid() && k <= 32 && |e.acks| <= e.config.ackBufferSize
    ensures Reported(e, ProcessAcks(e, ack, ackBits, k), NewlyAcked(e, ack, ackBits, k))
    decreases k
  {
    if k == 0 {
      assert e.acks + [] == e.acks;
    } else {
      AckingReports(e, ack, ackBits, k - 1);
      if BitSet(ackBits, k - 1) {
        AckingMarksExactly(e, ack, ackBits, k - 1);
        AckingKeepsReassembly(e, ack, ackBits, k - 1);
        ReportedExtends(e, ProcessAcks(e, ack, ackBits, k - 1), NewlyAcked(e, ack, ackBits, k - 1), WrappingSub(ack, k - 1));
      }
    }
  }

  // ---- What one datagram does ----

  /** A regular datagram naming sequence `s` that passes the window and duplicate tests. */
  ghost predicate AcceptsRegular(e: EndpointState, data: seq<u8>, s: u16) {
    && 0 < |data| <= e.config.maxPacketSize + MAX_PACKET_HEADER_BYTES
    && !IsFragmentPacket(data)
    && Decode(data).Some? && Decode(data).value.0.sequence == s
    && e.received.CanInsert(s) && !e.received.Exists(s)
  }

  /** The state, ack and ack bits with which `process_acks` runs, if it does. */
  ghost function AckInput(e: EndpointState, data: seq<u8>): Option<(EndpointState, u16, u32)> {
    if data == [] || |data| > e.config.maxPacketSize + MAX_PACKET_HEADER_BYTES then None
    else if IsFragmentPacket(data) then
      match Fragments.DecodeFragment(data)
      case None => None
      case Some((fragment, size)) =>
        if fragment.id != 0 || Decode(Rest(data, size)).None? then None
        else
          var header := Decode(Rest(data, size)).value.0;
          Some((CountFragment(e), header.ack, header.ackBits))
    else
      match Decode(data)
      case None => None
      case Some((header, _)) =>
        if !AcceptsRegular(e, data, header.sequence) then None
        else Some((Record(e, header.sequence, |data|), header.ack, header.ackBits))
  }

  /** The sender's side of a reception: only `process_acks` touches it. */
  lemma ReceiveAcks(e: EndpointState, data: seq<u8>)
    requires e.Valid()
    ensures var e' := ReceivePacket(e, data);
      && e'.config == e.config && e'.sequence == e.sequence && e'.packetLoss == e.packetLoss
      && e'.outgoing == e.outgoing && e'.counters.packetsSent == e.counters.packetsSent
      && (match AckInput(e, data)
          case None =>
            e'.sent == e.sent && e'.acks == e.acks && e'.counters.packetsAcked == e.counters.packetsAcked
          case Some((base, ack, ackBits)) =>
            var after := ProcessAcks(base, ack, ackBits, 32);
            && base.config == e.config && base.sent == e.sent && base.acks == e.acks
            && base.counters.packetsAcked == e.counters.packetsAcked
            && e'.sent == after.sent && e'.acks == after.acks
            && e'.counters.packetsAcked == after.counters.packetsAcked)
  {
    match AckInput(e, data) {
      case None =>
      case Some((base, ack, ackBits)) => AckingKeepsReassembly(base, ack, ackBits, 32);
    }
  }

  /** The fragment, its body, and the state in which reassembly sees it. */
  ghost function FragmentInput(e: EndpointState, data: seq<u8>): Option<(Fragments.FragmentHeader, seq<u8>)> {
    if data == [] || |data| > e.config.maxPacketSize + MAX_PACKET_HEADER_BYTES || !IsFragmentPacket(data) then None
    else
      match Fragments.DecodeFragment(data)
      case None => None
      case Some((fragment, size)) =>
        if fragment.id != 0 then Some((fragment, Rest(data, size)))
        else
          match Decode(Rest(data, size))
          case None => None
          case Some((_, headerSize)) => Some((fragment, Rest(Rest(data, size), headerSize)))
  }

  /** Receiving this datagram cannot make the source panic. */
  ghost predicate Fits(e: EndpointState, data: seq<u8>)
    requires e.reassembly.Shape()
  {
    match FragmentInput(e, data)
    case None => true
    case Some((h, body)) => ReassemblyFits(e, h, body)
  }

  /** What a reception records: sequence and payload length basis, by either path. */
  ghost function Recording(e: EndpointState, data: seq<u8>): Option<(u16, ReceivedData)>
    requires e.Valid()
  {
    match FragmentInput(e, data)
    case Some((h, body)) =>
      var done := Fragments.ProcessFragment(e.reassembly, h, body).1;
      if done.Some? && |e.incoming| < e.config.incomingSize
      then Some((h.sequence, ReceivedData(PacketBytes(e.config, |done.value|)))) else None
    case None =>
      if Decode(data).Some? && AcceptsRegular(e, data, Decode(data).value.0.sequence)
      then Some((Decode(data).value.0.sequence, ReceivedData(PacketBytes(e.config, |data|)))) else None
  }

  /** The receiver's side of a reception. */
  lemma ReceiveRecords(e: EndpointState, data: seq<u8>)
    requires e.Valid()
    ensures var e' := ReceivePacket(e, data);
      && e'.received == (match Recording(e, data)
                         case None => e.received
                         case Some((s, d)) => e.received.Insert(s, d))
      && e'.reassembly == (match FragmentInput(e, data)
                           case None => e.reassembly
                           case Some((h, body)) => Fragments.ProcessFragment(e.reassembly, h, body).0)
      && |e'.incoming| <= e.config.incomingSize
      && e'.counters.packetsReceived == e.counters.packetsReceived + if Recording(e, data).Some? then 1 else 0
  {
    match AckInput(e, data) {
      case None =>
      case Some((base, ack, ackBits)) => AckingKeepsReassembly(base, ack, ackBits, 32);
    }
  }

  /** The packet a reception offers to the incoming queue, if any. */
  ghost function Arriving(e: EndpointState, data: seq<u8>): seq<Packet>
    requires e.reassembly.Shape()
  {
    match FragmentInput(e, data)
    case Some((h, body)) =>
      var done := Fragments.ProcessFragment(e.reassembly, h, body).1;
      if done.Some? then [Packet(h.sequence, done.value)] else []
    case None =>
      if Decode(data).Some? && AcceptsRegular(e, data, Decode(data).value.0.sequence) then
        var (header, size) := Decode(data).value;
        var payload := Rest(data, size);
        if payload == [] then []
        else [Packet(header.sequence, payload[..Min(|payload|, e.config.maxPacketSize)])]
      else []
  }

  lemma ReceiveDelivers(e: EndpointState, data: seq<u8>)
    requires e.Valid()
    ensures ReceivePacket(e, data).incoming == Accept(e.incoming, e.config.incomingSize, Arriving(e, data))
  {
    assert e.incoming + [] == e.incoming;
    match AckInput(e, data) {
      case None =>
      case Some((base, ack, ackBits)) => AckingKeepsReassembly(base, ack, ackBits, 32);
    }
  }

  // ---- What every step keeps ----

  /** The sender's sequence and its window move together; the last min(sent, N) packets are all there. */
  ghost predicate Aligned(e: EndpointState) {
    && e.sequence == e.sent.head % 65536
    && e.counters.packetsSent == e.sent.head
    && (forall u: int :: u in e.sent.live <==> Max(0, e.sent.Base()) <= u < e.sent.head)
  }

  ghost predicate Invariant(e: EndpointState) {
    e.Valid() && Aligned(e) && 0.0 <= e.packetLoss <= 100.0
  }

  /** The insert in `send_packet` never fails: the next number is always insertable. */
  lemma NextIsInsertable(w: Window<SentData>, data: SentData)
    requires w.Valid()
    ensures w.Resolve(w.head % 65536) == w.head && w.CanInsert(w.head % 65536)
    ensures w.Insert(w.head % 65536, data) == w.Put(w.head, data)
  {
    w.ResolveExact(w.head);
  }

  lemma SendKeepsInvariant(e: EndpointState, data: seq<u8>)
    requires Invariant(e)
    ensures Invariant(SendPacket(e, data))
  {
    if |data| <= e.config.maxPacketSize {
      var d := SentData(false, PacketBytes(e.config, |data|));
      NextIsInsertable(e.sent, d);
      e.sent.InsertValid(e.sequence, d);
      WrappingSteps(e.sent.head, 1);
    }
  }

  lemma ReceiveKeepsInvariant(e: EndpointState, data: seq<u8>)
    requires Invariant(e)
    ensures Invariant(ReceivePacket(e, data))
  {
    ReceiveAcks(e, data);
    ReceiveRecords(e, data);
    match AckInput(e, data) {
      case None =>
      case Some((base, ack, ackBits)) =>
        AckingMarksExactly(base, ack, ackBits, 32);
        AckingReports(base, ack, ackBits, 32);
    }
    match Recording(e, data) {
      case None =>
      case Some((s, d)) => e.received.InsertValid(s, d);
    }
    match FragmentInput(e, data) {
      case None =>
      case Some((h, body)) => Fragments.ProcessKeepsValid(e.reassembly, h, body);
    }
  }

  lemma {:induction false} DroppedAtMost(w: Window<SentData>, k: nat)
    ensures Dropped(w, k) <= k
    decreases k
  {
    if k > 0 {
      DroppedAtMost(w, k - 1);
    }
  }

  lemma FractionInRange(part: nat, whole: nat)
    requires part <= whole && whole > 0
    ensures 0.0 <= part as real / whole as real <= 1.0
  {
  }

  lemma ScaledStep(d: real, factor: real, p: real)
    requires 0.0 <= factor <= 1.0 && p == d * factor
    ensures if d >= 0.0 then 0.0 <= p <= d else d <= p <= 0.0
  {
    if d >= 0.0 {
      assert d * (1.0 - factor) >= 0.0;
    } else {
      assert d * (1.0 - factor) <= 0.0;
    }
  }

  /** Smoothing stays within any range that holds both the estimate and the sample. */
  lemma SmoothStaysInRange(current: real, sample: real, factor: real, low: real, high: real)
    requires low <= current <= high && low <= sample <= high && 0.0 <= factor <= 1.0
    ensures low <= Smooth(current, sample, factor) <= high
  {
    var p := (sample - current) * factor;
    ScaledStep(sample - current, factor, p);
    assert Smooth(current, sample, factor) in {sample, current + p};
  }

  lemma UpdateKeepsInvariant(e: EndpointState)
    requires Invariant(e)
    ensures Invariant(UpdateLoss(e))
  {
    var samples := e.config.sentSize / 2;
    var dropped := Dropped(e.sent, samples);
    DroppedAtMost(e.sent, samples);
    FractionInRange(dropped, samples);
    SmoothStaysInRange(e.packetLoss, (dropped as real / samples as real) * 100.0, e.config.lossFactor, 0.0, 100.0);
  }

  lemma ApplyKeepsInvariant(e: EndpointState, step: Step)
    requires Invariant(e)
    ensures Invariant(Apply(e, step)) && Apply(e, step).config == e.config
  {
    match step {
      case Send(data) => SendKeepsInvariant(e, data);
      case Receive(data) => ReceiveKeepsInvariant(e, data); ReceiveAcks(e, data);
      case Update => UpdateKeepsInvariant(e);
      case _ =>
    }
  }

  lemma InitialInvariant(e: EndpointState)
    requires e.Initial()
    ensures Invariant(e)
  {
  }

  /** `reset` leads back to an initial state, whatever the slots still hold. */
  lemma ResetIsInitial(e: EndpointState)
    requires e.Valid()
    ensures Reset(e).Initial()
  {
  }

  // ---- Runs ----

  /** The state after a run of steps. */
  ghost function After(start: EndpointState, steps: seq<Step>): EndpointState
    decreases |steps|
  {
    if steps == [] then start
    else
      var before := After(start, steps[..|steps| - 1]);
      if Runnable(before) then Apply(before, steps[|steps| - 1]) else before
  }

  /** The invariant holds after every run. */
  lemma {:induction false} AfterKeepsInvariant(start: EndpointState, steps: seq<Step>)
    requires Invariant(start)
    ensures Invariant(After(start, steps)) && After(start, steps).config == start.config
    decreases |steps|
  {
    if steps != [] {
      var n := |steps| - 1;
      AfterKeepsInvariant(start, steps[..n]);
      ApplyKeepsInvariant(After(start, steps[..n]), steps[n]);
    }
  }

  /** One more step of a run. */
  lemma AfterStep(start: EndpointState, steps: seq<Step>, j: nat)
    requires Invariant(start) && 0 < j <= |steps|
    ensures Invariant(After(start, steps[..j - 1]))
    ensures After(start, steps[..j]) == Apply(After(start, steps[..j - 1]), steps[j - 1])
  {
    AfterKeepsInvariant(start, steps[..j - 1]);
    assert steps[..j][..j - 1] == steps[..j - 1];
  }

  // ---- Acceptance at most once on the regular path ----

  /** Number `u` is still held by the window, or has fallen behind it. */
  ghost predicate Remembered(w: Window<ReceivedData>, u: int) {
    u in w.live || u < w.Base()
  }

  /** From `w` to `w'`, the head only advanced. */
  ghost predicate Advances(w: Window<ReceivedData>, w': Window<ReceivedData>) {
    w'.head >= w.head && w'.size == w.size
  }

  lemma InsertRemembers(w: Window<ReceivedData>, s: u16, d: ReceivedData, u: int)
    requires w.Valid() && Remembered(w, u)
    ensures var w' := w.Insert(s, d); Remembered(w', u) && Advances(w, w') && w'.Valid()
  {
    w.InsertValid(s, d);
  }

  lemma StepRemembers(e: EndpointState, step: Step, u: int)
    requires Invariant(e) && Remembered(e.received, u)
    ensures var w' := Apply(e, step).received; Remembered(w', u) && Advances(e.received, w')
  {
    if step.Receive? {
      ReceiveRecords(e, step.data);
      match Recording(e, step.data) {
        case None =>
        case Some((s, d)) => InsertRemembers(e.received, s, d, u);
      }
    }
  }

  lemma NextRemembers(start: EndpointState, steps: seq<Step>, n: nat, u: int)
    requires Invariant(start) && n < |steps| && Remembered(After(start, steps[..n]).received, u)
    ensures Remembered(After(start, steps[..n + 1]).received, u)
    ensures Advances(After(start, steps[..n]).received, After(start, steps[..n + 1]).received)
  {
    AfterStep(start, steps, n + 1);
    StepRemembers(After(start, steps[..n]), steps[n], u);
  }

  lemma RunRemembers(start: EndpointState, steps: seq<Step>, i: nat, j: nat, u: int)
    requires Invariant(start) && i <= j <= |steps| && Remembered(After(start, steps[..i]).received, u)
    ensures Remembered(After(start, steps[..j]).received, u)
    ensures Advances(After(start, steps[..i]).received, After(start, steps[..j]).received)
  {
    for n := i to j
      invariant Remembered(After(start, steps[..n]).received, u)
      invariant Advances(After(start, steps[..i]).received, After(start, steps[..n]).received)
    {
      NextRemembers(start, steps, n, u);
    }
  }

  /** A remembered number's sequence is accepted again only a whole cycle later. */
  lemma AcceptedAgainIsNextCycle(w: Window<ReceivedData>, u: int, s: u16)
    requires w.Valid() && Remembered(w, u) && s == u % 65536
    requires w.CanInsert(s) && !w.Exists(s)
    ensures w.Resolve(s) >= u + 65536 && w.head >= u + w.size + 32768
  {
    if u in w.live {
      w.ResolveExact(u);
    }
  }

  /**
    With no assumption on the network: between two acceptances of the same 16-bit sequence by the
    regular path, the receive head advances by at least 32768.
   */
  lemma AcceptedAtMostOncePerHalfCycle(start: EndpointState, steps: seq<Step>, i: nat, j: nat, s: u16)
    requires Invariant(start) && i < j < |steps|
    requires steps[i].Receive? && AcceptsRegular(After(start, steps[..i]), steps[i].data, s)
    requires steps[j].Receive? && AcceptsRegular(After(start, steps[..j]), steps[j].data, s)
    ensures After(start, steps[..j]).received.head - After(start, steps[..i + 1]).received.head >= 32768
    ensures After(start, steps[..j]).received.Resolve(s) - After(start, steps[..i]).received.Resolve(s) >= 65536
  {
    var e, f := After(start, steps[..i]), After(start, steps[..i + 1]);
    var u := e.received.Resolve(s);
    AfterStep(start, steps, i + 1);
    AfterKeepsInvariant(start, steps[..j]);
    ReceiveRecords(e, steps[i].data);
    assert f.received == e.received.Insert(s, Recording(e, steps[i].data).value.1);
    RunRemembers(start, steps, i + 1, j, u);
    AcceptedAgainIsNextCycle(After(start, steps[..j]).received, u, s);
  }

  // ---- Acknowledgements reported at most once ----

  /** The numbers one step newly marks as acknowledged, in order. */
  ghost function Flips(e: EndpointState, step: Step): seq<int> {
    if step.Receive? && AckInput(e, step.data).Some? then
      var (base, ack, ackBits) := AckInput(e, step.data).value;
      NewlyAcked(base, ack, ackBits, 32)
    else []
  }

  /** The numbers newly marked over a whole run, in order. */
  ghost function Log(start: EndpointState, steps: seq<Step>): seq<int>
    decreases |steps|
  {
    if steps == [] then []
    else
      var n := |steps| - 1;
      Log(start, steps[..n]) + Flips(After(start, steps[..n]), steps[n])
  }

  /** Those newly marked since the acknowledgement list was last cleared. */
  ghost function SinceClear(start: EndpointState, steps: seq<Step>): seq<int>
    decreases |steps|
  {
    if steps == [] || steps[|steps| - 1].Clear? then []
    else
      var n := |steps| - 1;
      SinceClear(start, steps[..n]) + Flips(After(start, steps[..n]), steps[n])
  }

  lemma {:induction false} WrappedConcat(a: seq<int>, b: seq<int>)
    ensures Wrapped(a + b) == Wrapped(a) + Wrapped(b)
  {
    if b == [] {
      assert a + b == a;
    } else {
      var n := |b| - 1;
      WrappedConcat(a, b[..n]);
      assert (a + b)[..|a + b| - 1] == a + b[..n];
      assert (a + b)[|a + b| - 1] == b[n];
    }
  }

  /** Every number logged so far was sent, and is marked while it is still tracked. */
  ghost predicate Logged(e: EndpointState, log: seq<int>) {
    forall u <- log :: 0 <= u < e.sent.head && (u in e.sent.live ==> e.sent.live[u].acked)
  }

  lemma AckingLogged(e: EndpointState, ack: u16, ackBits: u32, log: seq<int>)
    requires e.sent.Valid() && |e.acks| <= e.config.ackBufferSize
    requires Logged(e, log) && Distinct(log) && forall u <- e.sent.live :: 0 <= u
    ensures var e' := ProcessAcks(e, ack, ackBits, 32); var news := NewlyAcked(e, ack, ackBits, 32);
      && Logged(e', log + news) && Distinct(log + news)
      && e'.counters.packetsAcked == e.counters.packetsAcked + |news|
      && e'.acks == Accept(e.acks, e.config.ackBufferSize, Wrapped(news))
  {
    AckingReports(e, ack, ackBits, 32);
    AckingMarksExactly(e, ack, ackBits, 32);
    var news := NewlyAcked(e, ack, ackBits, 32);
    forall i, j | 0 <= i < |log| && 0 <= j < |news|
      ensures log[i] != news[j]
    {
      assert log[i] in log && news[j] in news;
    }
  }

  lemma StepReports(e: EndpointState, step: Step, log: seq<int>)
    requires Invariant(e) && Logged(e, log) && Distinct(log)
    ensures var e' := Apply(e, step); var news := Flips(e, step);
      && Logged(e', log + news) && Distinct(log + news)
      && e'.counters.packetsAcked == e.counters.packetsAcked + |news|
      && e'.acks == (if step.Clear? then [] else Accept(e.acks, e.config.ackBufferSize, Wrapped(news)))
  {
    assert e.acks + [] == e.acks;
    assert log + [] == log;
    match step {
      case Send(data) =>
        if |data| <= e.config.maxPacketSize {
          NextIsInsertable(e.sent, SentData(false, PacketBytes(e.config, |data|)));
        }
      case Receive(data) =>
        ReceiveAcks(e, data);
        if AckInput(e, data).Some? {
          var (base, ack, ackBits) := AckInput(e, data).value;
          AckingLogged(base, ack, ackBits, log);
        }
      case _ =>
    }
  }

  /**
    Over any run every packet is reported acknowledged at most once, the counter counts exactly the
    reports, and the list is the reports since it was last cleared, cut at the buffer's capacity.
   */
  lemma {:induction false} ReportedAtMostOnce(start: EndpointState, steps: seq<Step>)
    requires start.Initial()
    ensures Invariant(After(start, steps)) && After(start, steps).config == start.config
    ensures var e := After(start, steps);
      && Distinct(Log(start, steps)) && Logged(e, Log(start, steps))
      && e.counters.packetsAcked == |Log(start, steps)|
      && e.acks == Accept([], e.config.ackBufferSize, Wrapped(SinceClear(start, steps)))
    decreases |steps|
  {
    InitialInvariant(start);
    AfterKeepsInvariant(start, steps);
    if steps != [] {
      var n := |steps| - 1;
      var before := After(start, steps[..n]);
      ReportedAtMostOnce(start, steps[..n]);
      StepReports(before, steps[n], Log(start, steps[..n]));
      var news := Flips(before, steps[n]);
      AcceptTwice([], before.config.ackBufferSize, Wrapped(SinceClear(start, steps[..n])), Wrapped(news));
      WrappedConcat(SinceClear(start, steps[..n]), news);
    }
  }

  lemma {:induction false} DistinctBelow(numbers: seq<int>, n: nat)
    requires Distinct(numbers) && forall u <- numbers :: 0 <= u < n
    ensures |numbers| <= n
  {
    DistinctCount(numbers);
    Fragments.BoundedSet((set u | u in numbers), n);
  }

  lemma {:induction false} DistinctCount(numbers: seq<int>)
    requires Distinct(numbers)
    ensures |set u | u in numbers| == |numbers|
  {
    if numbers != [] {
      var n := |numbers| - 1;
      DistinctCount(numbers[..n]);
      assert (set u | u in numbers) == (set u | u in numbers[..n]) + {numbers[n]};
    }
  }

  lemma AckedAtMostSent(start: EndpointState, steps: seq<Step>)
    requires start.Initial()
    ensures var c := After(start, steps).counters; c.packetsAcked <= c.packetsSent
  {
    ReportedAtMostOnce(start, steps);
    DistinctBelow(Log(start, steps), After(start, steps).sent.head);
  }
}
