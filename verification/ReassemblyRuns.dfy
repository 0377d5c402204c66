/** What holds of the reassembly buffer over every sequence of fragment arrivals. */
module ReassemblyRuns {
  import opened Arithmetic
  import opened Bits
  import opened Fragments
  import opened Windows

  datatype Arrival = Arrival(h: FragmentHeader, data: seq<u8>)

  /** The slot being filled for sequence `q`, if there is one. */
  function Open(r: Reassembly, q: u16): Option<Slot>
    requires r.Shape()
  {
    if r.tracker.Exists(q) then Some(r.SlotFor(q)) else None
  }

  function PartsSoFar(r: Reassembly, q: u16): map<nat, seq<u8>>
    requires r.Shape()
  {
    if Open(r, q).Some? then Open(r, q).value.parts else map[]
  }

  ghost predicate Full(parts: map<nat, seq<u8>>, n: nat) {
    forall i | 0 <= i < n :: i in parts
  }

  /** The arrival is stored: well formed, in the window, of the expected count, and new. */
  predicate Accepted(r: Reassembly, h: FragmentHeader)
    requires r.Shape()
  {
    && h.id < h.count <= r.maxFragments
    && (match Open(r, h.sequence)
        case None => r.tracker.CanInsert(h.sequence)
        case Some(slot) => slot.count == h.count)
    && h.id !in PartsSoFar(r, h.sequence)
  }

  lemma StoreEffect(r: Reassembly, h: FragmentHeader, data: seq<u8>)
    requires Storable(r, h) && h.id < h.count == r.SlotFor(h.sequence).count
    requires h.id !in r.SlotFor(h.sequence).parts
    ensures var (r', done) := StoreFragment(r, h, data);
      var parts := r.SlotFor(h.sequence).parts[h.id := Stored(data, r.fragmentSize)];
      && r'.Shape()
      && (if Full(parts, h.count)
          then done == Some(Assemble(parts, h.count)) && Open(r', h.sequence) == None
          else done == None && Open(r', h.sequence) == Some(Slot(h.sequence, h.count, parts)))
  {
    var parts := r.SlotFor(h.sequence).parts[h.id := Stored(data, r.fragmentSize)];
    assert r.SlotValid(r.SlotFor(h.sequence));
    CountedIsFull(parts, h.count);
    StoreCounts(r, h, data);
  }

  lemma StoreCounts(r: Reassembly, h: FragmentHeader, data: seq<u8>)
    requires Storable(r, h) && h.count == r.SlotFor(h.sequence).count
    requires h.id !in r.SlotFor(h.sequence).parts
    ensures var (r', done) := StoreFragment(r, h, data);
      var parts := r.SlotFor(h.sequence).parts[h.id := Stored(data, r.fragmentSize)];
      && r'.Shape()
      && (if |parts| == h.count
          then done == Some(Assemble(parts, h.count)) && Open(r', h.sequence) == None
          else done == None && Open(r', h.sequence) == Some(Slot(h.sequence, h.count, parts)))
  {
    var full := Slot(h.sequence, h.count, r.SlotFor(h.sequence).parts[h.id := Stored(data, r.fragmentSize)]);
    var stored := r.(slots := r.slots[SlotOf(h.sequence, |r.slots|) := full]);
    assert stored.SlotFor(h.sequence) == full;
    RemovedIsGone(r.tracker, h.sequence);
  }

  lemma RemovedIsGone<T>(w: Window<T>, s: u16)
    ensures !w.Remove(s).Exists(s)
  {
  }

  /** The received counter tells completeness. */
  lemma CountedIsFull(parts: map<nat, seq<u8>>, n: nat)
    requires forall i <- parts :: i < n
    ensures |parts| == n <==> Full(parts, n)
  {
    assert |parts.Keys| == |parts|;
    BoundedSet(parts.Keys, n);
  }

  lemma StoreElsewhere(r: Reassembly, h: FragmentHeader, data: seq<u8>, q: u16)
    requires Storable(r, h) && q != h.sequence
    ensures var r' := StoreFragment(r, h, data).0;
      r'.Shape() && Open(r', q) == Open(r, q)
  {
    SlotOfSequence(r, q);
    if h.id !in r.SlotFor(h.sequence).parts {
      var r' := StoreFragment(r, h, data).0;
      OnlyRemoved(r.tracker, r'.tracker, h.sequence, q);
      if r.tracker.Exists(q) {
        assert SlotOf(q, |r.slots|) != SlotOf(h.sequence, |r.slots|);
      }
    }
  }

  lemma OnlyRemoved(t: Window<()>, t': Window<()>, s: u16, q: u16)
    requires t' == t || t' == t.Remove(s)
    requires q != s
    ensures t'.Exists(q) <==> t.Exists(q)
  {
  }

  lemma OpenElsewhere(r: Reassembly, h: FragmentHeader, q: u16)
    requires r.Valid() && r.tracker.CanInsert(h.sequence) && 0 < h.count <= r.maxFragments && q != h.sequence
    ensures var r' := OpenSlot(r, h);
      r'.Shape() && (Open(r', q) == Open(r, q) || Open(r', q) == None)
  {
    OpenedSlot(r, h);
    var r' := OpenSlot(r, h);
    if r'.tracker.Exists(q) {
      var v := r'.tracker.Resolve(q);
      r.tracker.ResolveExact(v);
      SlotOfSequence(r', q);
    }
  }

  /** The effect of one arrival on the sequence it names. */
  lemma SameSequence(r: Reassembly, h: FragmentHeader, data: seq<u8>)
    requires r.Valid()
    ensures var (r', done) := ProcessFragment(r, h, data);
      var parts := PartsSoFar(r, h.sequence)[h.id := Stored(data, r.fragmentSize)];
      && r'.Shape()
      && (!Accepted(r, h) ==> r' == r && done == None)
      && (Accepted(r, h) ==>
            if Full(parts, h.count)
            then done == Some(Assemble(parts, h.count)) && Open(r', h.sequence) == None
            else done == None && Open(r', h.sequence) == Some(Slot(h.sequence, h.count, parts)))
  {
    if r.tracker.Exists(h.sequence) {
      MismatchGuardUnreachable(r, h.sequence);
      if Accepted(r, h) {
        TrackedIsStorable(r, h);
        StoreEffect(r, h, data);
      }
    } else if Accepted(r, h) {
      OpenedSlot(r, h);
      StoreEffect(OpenSlot(r, h), h, data);
    }
  }

  /** An arrival never changes another sequence, except by evicting it. */
  lemma OtherSequence(r: Reassembly, h: FragmentHeader, data: seq<u8>, q: u16)
    requires r.Valid() && q != h.sequence
    ensures var r' := ProcessFragment(r, h, data).0;
      r'.Shape() && (Open(r', q) == Open(r, q) || Open(r', q) == None)
  {
    SameSequence(r, h, data);
    if r.tracker.Exists(h.sequence) {
      TrackedIsStorable(r, h);
      StoreElsewhere(r, h, data, q);
    } else if r.tracker.CanInsert(h.sequence) && 0 < h.count <= r.maxFragments {
      OpenElsewhere(r, h, q);
      OpenedSlot(r, h);
      StoreElsewhere(OpenSlot(r, h), h, data, q);
    }
  }

  // ---- Runs ----

  function Last<T>(s: seq<T>): T
    requires s != []
  {
    s[|s| - 1]
  }

  function ButLast<T>(s: seq<T>): seq<T>
    requires s != []
  {
    s[..|s| - 1]
  }

  ghost function Run(r: Reassembly, arrivals: seq<Arrival>): (r': Reassembly)
    requires r.Valid()
    ensures r'.Valid() && r'.fragmentSize == r.fragmentSize && r'.maxFragments == r.maxFragments
    decreases |arrivals|
  {
    if arrivals == [] then r
    else
      var before := Run(r, ButLast(arrivals));
      ProcessKeepsValid(before, Last(arrivals).h, Last(arrivals).data);
      ProcessFragment(before, Last(arrivals).h, Last(arrivals).data).0
  }

  ghost function Completed(r: Reassembly, arrivals: seq<Arrival>, a: Arrival): Option<seq<u8>>
    requires r.Valid()
  {
    ProcessFragment(Run(r, arrivals), a.h, a.data).1
  }

  /** The arrivals naming `q` since its current slot was opened; none if it has no slot. */
  ghost function Lifetime(r: Reassembly, arrivals: seq<Arrival>, q: u16): seq<Arrival>
    requires r.Valid()
    decreases |arrivals|
  {
    if arrivals == [] || !Run(r, arrivals).tracker.Exists(q) then []
    else if Last(arrivals).h.sequence == q then Lifetime(r, ButLast(arrivals), q) + [Last(arrivals)]
    else Lifetime(r, ButLast(arrivals), q)
  }

  // ---- Exact reassembly ----

  /** `a` is one of the fragments `payload` is split into. */
  ghost predicate FromSplit(a: Arrival, payload: seq<u8>, size: nat)
    requires size > 0
  {
    && a.h.id < a.h.count == DivCeil(|payload|, size)
    && a.h.id * size <= |payload|
    && a.data == Chunk(payload, size, a.h.id)
  }

  ghost predicate HoldsChunks(parts: map<nat, seq<u8>>, payload: seq<u8>, size: nat) {
    forall i <- parts :: i * size <= |payload| && parts[i] == Chunk(payload, size, i)
  }

  lemma AppendChunk(payload: seq<u8>, size: nat, start: nat)
    requires start <= |payload|
    ensures payload[..start] + payload[start .. Min(start + size, |payload|)] == payload[..Min(start + size, |payload|)]
  {
  }

  ghost predicate StartsWithin(i: nat, size: nat, len: nat) {
    i * size < len
  }

  lemma {:induction false} AssembledPrefix(parts: map<nat, seq<u8>>, payload: seq<u8>, size: nat, k: nat)
    requires HoldsChunks(parts, payload, size) && Full(parts, k)
    requires forall i | 0 <= i < k :: StartsWithin(i, size, |payload|)
    ensures Assemble(parts, k) == payload[..Min(k * size, |payload|)]
    decreases k
  {
    if k > 0 {
      assert k - 1 in parts;
      AssembledPrefix(parts, payload, size, k - 1);
      assert StartsWithin(k - 1, size, |payload|);
      var start := (k - 1) * size;
      assert k * size == start + size;
      AppendChunk(payload, size, start);
    }
  }

  lemma AssembledWhole(parts: map<nat, seq<u8>>, payload: seq<u8>, size: nat)
    requires size > 0 && |payload| > 0
    requires HoldsChunks(parts, payload, size)
    requires Full(parts, DivCeil(|payload|, size))
    ensures Assemble(parts, DivCeil(|payload|, size)) == payload
  {
    forall i | 0 <= i < DivCeil(|payload|, size)
      ensures StartsWithin(i, size, |payload|)
    {
      ChunkStarts(|payload|, size, i);
    }
    AssembledPrefix(parts, payload, size, DivCeil(|payload|, size));
    DivCeilBounds(|payload|, size);
  }

  lemma {:induction false} AssembledAtMost(parts: map<nat, seq<u8>>, size: nat, k: nat)
    requires forall i <- parts :: i < k ==> |parts[i]| <= size
    ensures |Assemble(parts, k)| <= k * size
    decreases k
  {
    if k > 0 {
      AssembledAtMost(parts, size, k - 1);
      assert k * size == (k - 1) * size + size;
    }
  }

  lemma StoredWhole(payload: seq<u8>, size: nat, slotSize: nat, i: nat)
    requires 0 < size <= slotSize <= 65535 && i * size <= |payload|
    ensures Stored(Chunk(payload, size, i), slotSize) == Chunk(payload, size, i)
  {
  }

  ghost predicate Covers(arrivals: seq<Arrival>, id: nat) {
    exists a <- arrivals :: a.h.id == id
  }

  /** Every id below `n` arrived. */
  ghost predicate CoversAll(arrivals: seq<Arrival>, n: nat) {
    forall i | 0 <= i < n :: Covers(arrivals, i)
  }

  /** Whatever the slot of `q` holds so far is from `payload`, split into chunks of `size`. */
  ghost predicate ConsistentWith(r: Reassembly, q: u16, payload: seq<u8>, size: nat)
    requires r.Shape() && size > 0
  {
    Open(r, q).Some? ==>
      && Open(r, q).value.count == DivCeil(|payload|, size)
      && HoldsChunks(Open(r, q).value.parts, payload, size)
  }

  lemma CoversAppend(seen: seq<Arrival>, a: Arrival, i: nat)
    ensures Covers(seen + [a], i) <==> Covers(seen, i) || a.h.id == i
  {
    assert a in seen + [a];
    assert forall b <- seen :: b in seen + [a];
  }

  /** The slot of `q` holds chunks of `payload`, exactly those whose ids were seen. */
  ghost predicate SlotMatches(r: Reassembly, q: u16, seen: seq<Arrival>, payload: seq<u8>, size: nat)
    requires r.Shape() && size > 0
  {
    ConsistentWith(r, q, payload, size) && HoldsSeen(PartsSoFar(r, q), seen)
  }

  ghost predicate HoldsSeen(parts: map<nat, seq<u8>>, seen: seq<Arrival>) {
    forall i: nat :: i in parts <==> Covers(seen, i)
  }

  lemma SeenExtends(parts: map<nat, seq<u8>>, seen: seq<Arrival>, a: Arrival, part: seq<u8>)
    requires HoldsSeen(parts, seen)
    ensures HoldsSeen(parts[a.h.id := part], seen + [a])
  {
    forall i: nat
      ensures i in parts[a.h.id := part] <==> Covers(seen + [a], i)
    {
      CoversAppend(seen, a, i);
    }
  }

  lemma MatchesAfterArrival(r: Reassembly, a: Arrival, seen: seq<Arrival>, payload: seq<u8>, size: nat)
    requires r.Valid() && 0 < size <= r.fragmentSize <= 65535
    requires SlotMatches(r, a.h.sequence, seen, payload, size) && FromSplit(a, payload, size)
    ensures var r' := ProcessFragment(r, a.h, a.data).0;
      r'.Shape()
      && (Open(r', a.h.sequence).Some? ==> SlotMatches(r', a.h.sequence, seen + [a], payload, size))
  {
    var q := a.h.sequence;
    SameSequence(r, a.h, a.data);
    StoredWhole(payload, size, r.fragmentSize, a.h.id);
    SeenExtends(PartsSoFar(r, q), seen, a, a.data);
    if Open(r, q).Some? && a.h.id in PartsSoFar(r, q) {
      assert PartsSoFar(r, q)[a.h.id := a.data] == PartsSoFar(r, q);
    }
  }

  /** While every arrival of a slot's lifetime is from one payload, the slot holds exactly those chunks. */
  lemma {:induction false} LifetimeFillsSlot(r: Reassembly, arrivals: seq<Arrival>, q: u16, payload: seq<u8>, size: nat)
    requires r.Initial() && 0 < size <= r.fragmentSize <= 65535
    requires forall a <- Lifetime(r, arrivals, q) :: FromSplit(a, payload, size)
    ensures SlotMatches(Run(r, arrivals), q, Lifetime(r, arrivals, q), payload, size)
    decreases |arrivals|
  {
    if arrivals != [] && Run(r, arrivals).tracker.Exists(q) {
      var a := Last(arrivals);
      var before := Run(r, ButLast(arrivals));
      var earlier := Lifetime(r, ButLast(arrivals), q);
      assert earlier <= Lifetime(r, arrivals, q);
      LifetimeFillsSlot(r, ButLast(arrivals), q, payload, size);
      if a.h.sequence == q {
        assert a in Lifetime(r, arrivals, q);
        MatchesAfterArrival(before, a, earlier, payload, size);
      } else {
        OtherSequence(before, a.h, a.data, q);
      }
    }
  }

  lemma OpenSlotIncomplete(r: Reassembly, q: u16)
    requires r.Valid() && Open(r, q).Some?
    ensures var slot := Open(r, q).value; exists i :: 0 <= i < slot.count && i !in slot.parts
  {
    SlotOfSequence(r, q);
    var slot := Open(r, q).value;
    assert r.SlotValid(slot);
    assert |slot.parts.Keys| == |slot.parts|;
    BoundedSet(slot.parts.Keys, slot.count);
  }

  /** A fragment of `payload` arriving at a consistent slot completes it with `payload` or adds to it. */
  lemma ConsistentStep(r: Reassembly, a: Arrival, payload: seq<u8>, size: nat)
    requires r.Valid() && 0 < size <= r.fragmentSize <= 65535
    requires DivCeil(|payload|, size) <= r.maxFragments
    requires FromSplit(a, payload, size) && ConsistentWith(r, a.h.sequence, payload, size)
    requires r.tracker.Exists(a.h.sequence) || r.tracker.CanInsert(a.h.sequence)
    ensures var (r', done) := ProcessFragment(r, a.h, a.data);
      var parts := PartsSoFar(r, a.h.sequence)[a.h.id := a.data];
      && r'.Shape()
      && if Full(parts, a.h.count)
         then done == Some(payload) && Open(r', a.h.sequence) == None
         else done == None && Open(r', a.h.sequence) == Some(Slot(a.h.sequence, a.h.count, parts))
              && HoldsChunks(parts, payload, size)
  {
    StoredWhole(payload, size, r.fragmentSize, a.h.id);
    SameSequence(r, a.h, a.data);
    if Accepted(r, a.h) {
      AddedChunk(PartsSoFar(r, a.h.sequence), a, payload, size);
    } else {
      RefusedIsHeld(r, a, payload, size);
    }
  }

  lemma AddedChunk(held: map<nat, seq<u8>>, a: Arrival, payload: seq<u8>, size: nat)
    requires size > 0 && HoldsChunks(held, payload, size) && FromSplit(a, payload, size)
    ensures HoldsChunks(held[a.h.id := a.data], payload, size)
    ensures Full(held[a.h.id := a.data], a.h.count) ==> Assemble(held[a.h.id := a.data], a.h.count) == payload
  {
    if payload == [] {
      NothingHasNoChunks(size);
    } else if Full(held[a.h.id := a.data], a.h.count) {
      AssembledWhole(held[a.h.id := a.data], payload, size);
    }
  }

  /** A fragment of the slot's own packet is refused only as a duplicate, and then the slot still lacks another. */
  lemma RefusedIsHeld(r: Reassembly, a: Arrival, payload: seq<u8>, size: nat)
    requires r.Valid() && size > 0 && DivCeil(|payload|, size) <= r.maxFragments
    requires FromSplit(a, payload, size) && ConsistentWith(r, a.h.sequence, payload, size)
    requires r.tracker.Exists(a.h.sequence) || r.tracker.CanInsert(a.h.sequence)
    requires !Accepted(r, a.h)
    ensures var held := PartsSoFar(r, a.h.sequence);
      && held[a.h.id := a.data] == held && !Full(held, a.h.count)
      && Open(r, a.h.sequence) == Some(Slot(a.h.sequence, a.h.count, held)) && HoldsChunks(held, payload, size)
  {
    OpenSlotIncomplete(r, a.h.sequence);
    MismatchGuardUnreachable(r, a.h.sequence);
    var held := PartsSoFar(r, a.h.sequence);
    assert held[a.h.id := a.data] == held;
  }

  lemma SlotCompletes(r: Reassembly, a: Arrival, seen: seq<Arrival>, payload: seq<u8>, size: nat)
    requires r.Valid() && 0 < size <= r.fragmentSize <= 65535
    requires DivCeil(|payload|, size) <= r.maxFragments
    requires SlotMatches(r, a.h.sequence, seen, payload, size) && FromSplit(a, payload, size)
    requires r.tracker.Exists(a.h.sequence) || r.tracker.CanInsert(a.h.sequence)
    ensures ProcessFragment(r, a.h, a.data).1 == if CoversAll(seen + [a], a.h.count) then Some(payload) else None
  {
    SeenExtends(PartsSoFar(r, a.h.sequence), seen, a, a.data);
    FullIsCovered(PartsSoFar(r, a.h.sequence)[a.h.id := a.data], seen + [a], a.h.count);
    ConsistentStep(r, a, payload, size);
  }

  lemma FullIsCovered(parts: map<nat, seq<u8>>, seen: seq<Arrival>, n: nat)
    requires HoldsSeen(parts, seen)
    ensures Full(parts, n) <==> CoversAll(seen, n)
  {
    if Full(parts, n) {
      forall i | 0 <= i < n
        ensures Covers(seen, i)
      {
        assert i in parts;
      }
    } else {
      var i :| 0 <= i < n && i !in parts;
      assert !Covers(seen, i);
    }
  }

  /**
    For any arrival order, duplicated or interleaved with other packets: if every fragment seen during
    the slot's lifetime is from one payload, the packet completes exactly when the last missing
    fragment arrives, and what comes out is the payload.
   */
  lemma ReassemblyIsExact(r: Reassembly, arrivals: seq<Arrival>, a: Arrival, payload: seq<u8>, size: nat)
    requires r.Initial() && 0 < size <= r.fragmentSize <= 65535
    requires DivCeil(|payload|, size) <= r.maxFragments
    requires forall b <- Lifetime(r, arrivals, a.h.sequence) :: FromSplit(b, payload, size)
    requires FromSplit(a, payload, size)
    requires var t := Run(r, arrivals).tracker; t.Exists(a.h.sequence) || t.CanInsert(a.h.sequence)
    ensures Completed(r, arrivals, a) ==
      if CoversAll(Lifetime(r, arrivals, a.h.sequence) + [a], a.h.count) then Some(payload) else None
  {
    var seen := Lifetime(r, arrivals, a.h.sequence);
    LifetimeFillsSlot(r, arrivals, a.h.sequence, payload, size);
    SlotCompletes(Run(r, arrivals), a, seen, payload, size);
  }

  // ---- How often a packet can complete ----

  ghost function Completions(r: Reassembly, arrivals: seq<Arrival>, q: u16, count: nat): nat
    requires r.Valid()
    decreases |arrivals|
  {
    if arrivals == [] then 0
    else
      var a := Last(arrivals);
      Completions(r, ButLast(arrivals), q, count)
      + if a.h.sequence == q && a.h.count == count && Completed(r, ButLast(arrivals), a).Some? then 1 else 0
  }

  predicate IsFragmentOf(h: FragmentHeader, q: u16, count: nat, id: nat) {
    h.sequence == q && h.count == count && h.id == id
  }

  ghost function ArrivalsOf(arrivals: seq<Arrival>, q: u16, count: nat, id: nat): nat
    decreases |arrivals|
  {
    if arrivals == [] then 0
    else
      ArrivalsOf(ButLast(arrivals), q, count, id)
      + if IsFragmentOf(Last(arrivals).h, q, count, id) then 1 else 0
  }

  ghost function Held(r: Reassembly, q: u16, count: nat, id: nat): nat
    requires r.Shape()
  {
    if Open(r, q).Some? && Open(r, q).value.count == count && id in Open(r, q).value.parts then 1 else 0
  }

  lemma CompletionStep(r: Reassembly, a: Arrival, q: u16, count: u8, id: u8)
    requires r.Valid() && id < count
    ensures var (r', done) := ProcessFragment(r, a.h, a.data);
      && r'.Shape()
      && (if a.h.sequence == q && a.h.count == count && done.Some? then 1 else 0) + Held(r', q, count, id)
         <= Held(r, q, count, id) + if IsFragmentOf(a.h, q, count, id) then 1 else 0
  {
    if a.h.sequence == q {
      SameSequence(r, a.h, a.data);
      var parts := PartsSoFar(r, q)[a.h.id := Stored(a.data, r.fragmentSize)];
      assert Full(parts, count) ==> id in parts;
    } else {
      OtherSequence(r, a.h, a.data, q);
    }
  }

  /** Every completion, and every fragment still held, uses up an arrival of its own. */
  lemma {:induction false} CompletionsUseArrivals(r: Reassembly, arrivals: seq<Arrival>, q: u16, count: u8, id: u8)
    requires r.Initial() && id < count
    ensures Completions(r, arrivals, q, count) + Held(Run(r, arrivals), q, count, id)
         <= ArrivalsOf(arrivals, q, count, id)
    decreases |arrivals|
  {
    if arrivals != [] {
      var a := Last(arrivals);
      var before := Run(r, ButLast(arrivals));
      CompletionsUseArrivals(r, ButLast(arrivals), q, count, id);
      CompletionStep(before, a, q, count, id);
    }
  }

  /** A packet one of whose fragments is never duplicated completes at most once. */
  lemma CompletesAtMostOnce(r: Reassembly, arrivals: seq<Arrival>, q: u16, count: u8, id: u8)
    requires r.Initial() && id < count && ArrivalsOf(arrivals, q, count, id) <= 1
    ensures Completions(r, arrivals, q, count) <= 1
  {
    CompletionsUseArrivals(r, arrivals, q, count, id);
  }

  /** What completed can be received again: its sequence is accepted, and no slot is open for it. */
  lemma CompletionFrees(r: Reassembly, h: FragmentHeader, data: seq<u8>)
    requires r.Valid() && ProcessFragment(r, h, data).1.Some?
    ensures var t := ProcessFragment(r, h, data).0.tracker; t.CanInsert(h.sequence) && !t.Exists(h.sequence)
  {
    if r.tracker.Exists(h.sequence) {
      TrackedIsAccepted(r.tracker, h.sequence);
    } else {
      r.tracker.ReinsertAfterRemove(h.sequence, ());
    }
  }

  lemma TrackedIsAccepted<T>(w: Window<T>, s: u16)
    requires w.Valid() && w.Exists(s)
    ensures w.CanInsert(s) && w.Remove(s).CanInsert(s) && !w.Remove(s).Exists(s)
  {
  }

  lemma OneFragmentCompletes(r: Reassembly, q: u16, data: seq<u8>)
    requires r.Valid() && r.maxFragments > 0 && r.tracker.CanInsert(q) && !r.tracker.Exists(q)
    ensures ProcessFragment(r, FragmentHeader(q, 0, 1), data).1 == Some(Stored(data, r.fragmentSize))
  {
    var parts := map[0 := Stored(data, r.fragmentSize)];
    SameSequence(r, FragmentHeader(q, 0, 1), data);
    assert PartsSoFar(r, q)[0 := Stored(data, r.fragmentSize)] == parts;
    assert Assemble(parts, 1) == Assemble(parts, 0) + parts[0] == parts[0];
  }

  /** Without that condition it can complete again: a one-fragment packet does so on every duplicate. */
  lemma DuplicateCompletesAgain(r: Reassembly, q: u16, data: seq<u8>)
    requires r.Valid() && r.maxFragments > 0 && r.tracker.CanInsert(q) && !r.tracker.Exists(q)
    ensures var h := FragmentHeader(q, 0, 1);
      var (r', first) := ProcessFragment(r, h, data);
      r'.Shape() && first == ProcessFragment(r', h, data).1 == Some(Stored(data, r.fragmentSize))
  {
    var h := FragmentHeader(q, 0, 1);
    OneFragmentCompletes(r, q, data);
    CompletionFrees(r, h, data);
    ProcessKeepsValid(r, h, data);
    OneFragmentCompletes(ProcessFragment(r, h, data).0, q, data);
  }
}
