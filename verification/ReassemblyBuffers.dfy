/** The preallocated reassembly slots of src/fragment.rs, proved against the Reassembly transitions. */
module ReassemblyBuffers {
  import opened Arithmetic
  import opened Bits
  import EndpointModel
  import opened Fragments
  import PacketQueues
  import ReassemblyRuns
  import SequenceBuffers

  /** One slot: metadata, an eight-word bitmask, a flat slab of chunks and their lengths. */
  class ReassemblyData {
    var sequence: u16
    var numFragments: u8
    var numFragmentsReceived: u8
    const fragmentReceived: array<u32>
    const fragmentData: array<u8>
    const fragmentLens: array<u16>
    const fragmentSize: nat
    ghost var parts: map<nat, seq<u8>>
    ghost const Repr: set<object>

    ghost predicate Layout() {
      && this in Repr && fragmentReceived in Repr && fragmentData in Repr && fragmentLens in Repr
      && fragmentReceived.Length == 8 && fragmentData.Length == Offset(fragmentLens.Length, fragmentSize)
    }

    /** The bitmask is exactly the set of stored ids. */
    ghost predicate MaskValid()
      reads this, fragmentReceived
    {
      && Layout()
      && (forall id | 0 <= id < 256 :: InMask(fragmentReceived[..], id) <==> id in parts)
    }

    /** The slab holds the chunk of every stored id, and nothing of the others. */
    ghost predicate SlabValid()
      reads this, fragmentData, fragmentLens
    {
      && Layout()
      && numFragments <= fragmentLens.Length
      && SlabHoldsAll(fragmentData[..], fragmentLens[..], fragmentSize, parts, numFragments)
    }

    ghost predicate Valid()
      reads this, Repr
    {
      && Layout() && MaskValid() && SlabValid()
      && numFragmentsReceived == |parts|
      && (forall id <- parts :: id < numFragments)
    }

    ghost function Model(): Slot
      reads this
    {
      Slot(sequence, numFragments, parts)
    }

    constructor (maxFragments: nat, fragmentSize: nat)
      ensures Valid() && fresh(Repr)
      ensures fragmentLens.Length == maxFragments && this.fragmentSize == fragmentSize
      ensures Model() == Slot(0, 0, map[])
    {
      sequence, numFragments, numFragmentsReceived, parts := 0, 0, 0, map[];
      fragmentReceived := new u32[8](_ => 0);
      OffsetIsProduct(maxFragments, fragmentSize);
      fragmentData := new u8[maxFragments * fragmentSize](_ => 0);
      fragmentLens := new u16[maxFragments](_ => 0);
      this.fragmentSize := fragmentSize;
      Repr := {this, fragmentReceived, fragmentData, fragmentLens};
      new;
      EmptyMask(fragmentReceived[..]);
    }

    method Reset(sequence: u16, numFragments: u8)
      requires Layout() && numFragments <= fragmentLens.Length
      modifies this, fragmentReceived, fragmentLens
      ensures Valid() && Model() == Slot(sequence, numFragments, map[])
    {
      this.sequence := sequence;
      this.numFragments := numFragments;
      numFragmentsReceived := 0;
      parts := map[];
      for i := 0 to 8
        modifies fragmentReceived
        invariant forall k | 0 <= k < i :: fragmentReceived[k] == 0
      {
        fragmentReceived[i] := 0;
      }
      for i := 0 to numFragments
        modifies fragmentLens
        invariant forall k | 0 <= k < i :: fragmentLens[k] == 0
      {
        fragmentLens[i] := 0;
      }
      EmptyMask(fragmentReceived[..]);
      ClearedSlab(fragmentData[..], fragmentLens[..], fragmentSize, numFragments);
    }

    method HasFragment(id: u8) returns (has: bool)
      requires Valid()
      ensures has == (id in parts)
    {
      assert InMask(fragmentReceived[..], id) <==> id in parts;
      has := BitSet(fragmentReceived[id / 32], id % 32);
    }

    method MarkFragment(id: u8)
      requires fragmentReceived.Length == 8
      modifies fragmentReceived
      ensures forall k | 0 <= k < 256 ::
        InMask(fragmentReceived[..], k) <==> InMask(old(fragmentReceived[..]), k) || k == id
    {
      ghost var before := fragmentReceived[..];
      fragmentReceived[id / 32] := WithBit(fragmentReceived[id / 32], id % 32);
      MaskWith(before, id);
    }

    method StoreFragment(id: u8, src: seq<u8>)
      requires SlabValid() && id < numFragments
      modifies fragmentData, fragmentLens
      ensures SlabHoldsAll(fragmentData[..], fragmentLens[..], fragmentSize,
                           parts[id := Stored(src, fragmentSize)], numFragments)
    {
      ghost var slab, lens := fragmentData[..], fragmentLens[..];
      ChunkFits(id, fragmentLens.Length, fragmentSize);
      OffsetIsProduct(id, fragmentSize);
      var offset := id * fragmentSize;
      var len := Min(|src|, fragmentSize);
      CopyInto(fragmentData, offset, src[..len]);
      fragmentLens[id] := len % 65536;
      StoredSlab(slab, lens, fragmentData[..], fragmentLens[..], fragmentSize, parts, numFragments, id, src);
    }

    /** Stores a fragment that is not there yet: slab, bitmask and counter. */
    method AddFragment(id: u8, src: seq<u8>)
      requires Valid() && id < numFragments && id !in parts
      modifies this, fragmentReceived, fragmentData, fragmentLens
      ensures Valid() && Model() == old(Model()).(parts := old(parts)[id := Stored(src, fragmentSize)])
    {
      CounterCannotOverflow(parts, id, Stored(src, fragmentSize), numFragments);
      StoreFragment(id, src);
      MarkFragment(id);
      numFragmentsReceived := numFragmentsReceived + 1;
      parts := parts[id := Stored(src, fragmentSize)];
    }

    /** The counter reaches the count exactly when every fragment is there. */
    method IsComplete() returns (complete: bool)
      requires Valid()
      ensures complete == ReassemblyRuns.Full(parts, numFragments) == (|parts| == numFragments)
    {
      assert |parts.Keys| == |parts|;
      BoundedSet(parts.Keys, numFragments);
      complete := numFragmentsReceived == numFragments;
    }

    /** Copies the chunks in order to the front of `dest`. */
    method CopyTo(dest: array<u8>) returns (pos: nat)
      requires SlabValid() && dest != fragmentData
      requires |Assemble(parts, numFragments)| <= dest.Length
      modifies dest
      ensures pos == |Assemble(parts, numFragments)| && dest[..pos] == Assemble(parts, numFragments)
    {
      pos := 0;
      for i := 0 to numFragments
        invariant pos == |Assemble(parts, i)| <= dest.Length && dest[..pos] == Assemble(parts, i)
      {
        AssembleGrows(parts, i + 1, numFragments);
        ghost var part := PartAt(parts, i);
        assert SlabHolds(fragmentData[..], fragmentLens[..], fragmentSize, i, part);
        OffsetIsProduct(i, fragmentSize);
        var off := i * fragmentSize;
        CopyInto(dest, pos, fragmentData[off..off + fragmentLens[i]]);
        pos := pos + fragmentLens[i];
      }
    }

    /** Copies a complete slot straight into the next slot of the incoming queue, if that has room. */
    method Deliver(sequence: u16, incoming: PacketQueues.PacketQueue) returns (payloadLen: Option<nat>)
      requires Valid() && incoming.Valid() && Repr !! incoming.Repr
      requires |incoming.contents| < |incoming.slots| ==> |Assemble(parts, numFragments)| <= incoming.slotCapacity
      modifies incoming.Repr
      ensures incoming.Valid()
      ensures var payload := Assemble(parts, numFragments);
        if |old(incoming.contents)| < |incoming.slots|
        then payloadLen == Some(|payload|) && incoming.contents == old(incoming.contents) + [EndpointModel.Packet(sequence, payload)]
        else payloadLen == None && incoming.contents == old(incoming.contents)
    {
      if incoming.count >= |incoming.slots| {
        return None;
      }
      var slot := incoming.NextSlot();
      assert slot.data in incoming.Repr;
      var n := CopyTo(slot.data);
      incoming.ScratchWrite(slot);
      incoming.Commit(sequence, n);
      payloadLen := Some(n);
    }
  }

  /** `dest[pos..pos + src.len()].copy_from_slice(src)` */
  method CopyInto(dest: array<u8>, pos: nat, src: seq<u8>)
    requires pos + |src| <= dest.Length
    modifies dest
    ensures dest[..] == old(dest[..pos]) + src + old(dest[pos + |src|..])
  {
    for i := 0 to |src|
      invariant dest[..] == old(dest[..pos]) + src[..i] + old(dest[pos + i..])
    {
      dest[pos + i] := src[i];
    }
  }

  ghost function PartAt(parts: map<nat, seq<u8>>, id: nat): seq<u8> {
    if id in parts then parts[id] else []
  }

  /** Chunk `id` of the slab, up to its length entry, is `part`. */
  ghost predicate SlabHolds(slab: seq<u8>, lens: seq<u16>, size: nat, id: nat, part: seq<u8>) {
    && id < |lens| && lens[id] == |part| <= size
    && Offset(id, size) + |part| <= |slab|
    && slab[Offset(id, size)..Offset(id, size) + |part|] == part
  }

  ghost predicate SlabHoldsAll(slab: seq<u8>, lens: seq<u16>, size: nat, parts: map<nat, seq<u8>>, n: nat) {
    forall id | 0 <= id < n :: SlabHolds(slab, lens, size, id, PartAt(parts, id))
  }

  /** `id * size` */
  function Offset(id: nat, size: nat): nat {
    if id == 0 then 0 else Offset(id - 1, size) + size
  }

  lemma {:induction false} OffsetIsProduct(id: nat, size: nat)
    ensures Offset(id, size) == id * size
  {
    if id > 0 {
      OffsetIsProduct(id - 1, size);
    }
  }

  lemma ClearedSlab(slab: seq<u8>, lens: seq<u16>, size: nat, n: nat)
    requires |slab| == Offset(|lens|, size) && n <= |lens| && forall k | 0 <= k < n :: lens[k] == 0
    ensures SlabHoldsAll(slab, lens, size, map[], n)
  {
    forall id | 0 <= id < n
      ensures SlabHolds(slab, lens, size, id, [])
    {
      ChunkFits(id, |lens|, size);
    }
  }

  /** Chunks of different fragments do not overlap. */
  lemma ChunksApart(k: nat, id: nat, size: nat)
    requires k != id
    ensures Offset(k, size) + size <= Offset(id, size) || Offset(id, size) + size <= Offset(k, size)
  {
    if k < id { ChunkFits(k, id, size); } else { ChunkFits(id, k, size); }
  }

  /** `slab'` and `lens'` are what storing `src` as chunk `id` leaves. */
  ghost predicate StoredAs(slab: seq<u8>, lens: seq<u16>, slab': seq<u8>, lens': seq<u16>, size: nat, id: nat, src: seq<u8>) {
    var len, offset := Min(|src|, size), Offset(id, size);
    && id < |lens| && |slab| == Offset(|lens|, size)
    && offset + len <= |slab| && slab' == slab[..offset] + src[..len] + slab[offset + len..]
    && |lens'| == |lens| && lens'[id] == len % 65536
    && forall k | 0 <= k < |lens| && k != id :: lens'[k] == lens[k]
  }

  lemma OwnChunk(slab: seq<u8>, lens: seq<u16>, slab': seq<u8>, lens': seq<u16>, size: nat, id: nat, src: seq<u8>)
    requires StoredAs(slab, lens, slab', lens', size, id, src)
    ensures SlabHolds(slab', lens', size, id, Stored(src, size))
  {
    var len := Min(|src|, size);
    StoredPrefix(slab, src, Offset(id, size), len, len % 65536);
  }

  lemma OtherChunk(slab: seq<u8>, lens: seq<u16>, slab': seq<u8>, lens': seq<u16>, size: nat, id: nat, src: seq<u8>, k: nat, part: seq<u8>)
    requires StoredAs(slab, lens, slab', lens', size, id, src) && k != id && SlabHolds(slab, lens, size, k, part)
    ensures SlabHolds(slab', lens', size, k, part)
  {
    ChunksApart(k, id, size);
    UntouchedChunk(slab, slab', Offset(id, size), Min(|src|, size), Offset(k, size), |part|);
  }

  lemma StoredSlab(slab: seq<u8>, lens: seq<u16>, slab': seq<u8>, lens': seq<u16>,
                   size: nat, parts: map<nat, seq<u8>>, n: nat, id: nat, src: seq<u8>)
    requires StoredAs(slab, lens, slab', lens', size, id, src) && SlabHoldsAll(slab, lens, size, parts, n)
    ensures SlabHoldsAll(slab', lens', size, parts[id := Stored(src, size)], n)
  {
    var parts' := parts[id := Stored(src, size)];
    forall k | 0 <= k < n
      ensures SlabHolds(slab', lens', size, k, PartAt(parts', k))
    {
      if k == id {
        OwnChunk(slab, lens, slab', lens', size, id, src);
      } else {
        OtherChunk(slab, lens, slab', lens', size, id, src, k, PartAt(parts, k));
      }
    }
  }

  lemma StoredPrefix(slab: seq<u8>, src: seq<u8>, offset: nat, len: nat, n: nat)
    requires n <= len <= |src| && offset + len <= |slab|
    ensures (slab[..offset] + src[..len] + slab[offset + len..])[offset..offset + n] == src[..n]
  {
    var front, back := slab[..offset], slab[offset + len..];
    forall i | 0 <= i < n
      ensures (front + src[..len] + back)[offset + i] == src[i]
    {
      assert (front + src[..len] + back)[offset + i] == src[..len][i];
    }
  }

  lemma UntouchedChunk(slab: seq<u8>, slab': seq<u8>, offset: nat, len: nat, from: nat, n: nat)
    requires |slab'| == |slab| && offset + len <= |slab| && from + n <= |slab|
    requires from + n <= offset || offset + len <= from
    requires slab'[..offset] == slab[..offset] && slab'[offset + len..] == slab[offset + len..]
    ensures slab'[from..from + n] == slab[from..from + n]
  {
    forall i | from <= i < from + n
      ensures slab'[i] == slab[i]
    {
      if i < offset {
        assert slab'[i] == slab'[..offset][i];
      } else {
        assert slab'[i] == slab'[offset + len..][i - offset - len];
      }
    }
  }

  lemma CounterCannotOverflow(parts: map<nat, seq<u8>>, id: nat, part: seq<u8>, n: u8)
    requires (forall k <- parts :: k < n) && id < n && id !in parts
    ensures |parts| < n && |parts[id := part]| == |parts| + 1
  {
    assert |parts.Keys| == |parts|;
    BoundedSet(parts.Keys, n);
    assert parts[id := part].Keys == parts.Keys + {id};
  }

  lemma {:induction false} AssembleGrows(parts: map<nat, seq<u8>>, i: nat, k: nat)
    requires i <= k
    ensures |Assemble(parts, i)| <= |Assemble(parts, k)|
    decreases k
  {
    if i < k {
      AssembleGrows(parts, i, k - 1);
    }
  }

  /** Bit `id & 31` of word `id >> 5`. */
  ghost predicate InMask(words: seq<u32>, id: nat)
    requires |words| == 8 && id < 256
  {
    BitSet(words[id / 32], id % 32)
  }

  lemma EmptyMask(words: seq<u32>)
    requires |words| == 8 && forall k | 0 <= k < 8 :: words[k] == 0
    ensures forall id | 0 <= id < 256 :: !InMask(words, id)
  {
  }

  lemma MaskWith(words: seq<u32>, id: u8)
    requires |words| == 8
    ensures forall k | 0 <= k < 256 ::
      InMask(words[id / 32 := WithBit(words[id / 32], id % 32)], k) <==> InMask(words, k) || k == id
  {
    var words' := words[id / 32 := WithBit(words[id / 32], id % 32)];
    forall k | 0 <= k < 256
      ensures InMask(words', k) <==> InMask(words, k) || k == id
    {
      if k / 32 == id / 32 {
        WithBitAtExact(words[id / 32], id % 32, k % 32);
      }
    }
  }

  /** Chunks lie side by side within the slab. */
  lemma {:induction false} ChunkFits(id: nat, count: nat, size: nat)
    requires id < count
    ensures Offset(id, size) + size <= Offset(count, size)
  {
    if id < count - 1 {
      ChunkFits(id, count - 1, size);
    }
  }

  class FragmentReassemblyBuffer {
    const tracker: SequenceBuffers.SequenceBuffer<()>
    const slots: seq<ReassemblyData>
    const maxFragments: nat
    const fragmentSize: nat
    ghost var model: Reassembly
    ghost const Repr: set<object>

    /** Each slot owns its storage. */
    ghost predicate Layout() {
      && this in Repr && tracker in tracker.Repr && tracker.Repr <= Repr && this !in tracker.Repr
      && (forall i, j | 0 <= i < |slots| && 0 <= j < |slots| && i != j :: slots[i].Repr !! slots[j].Repr)
      && (forall i | 0 <= i < |slots| ::
            && slots[i] in slots[i].Repr && slots[i].Repr <= Repr && this !in slots[i].Repr && slots[i].Repr !! tracker.Repr
            && slots[i].fragmentLens.Length == maxFragments && slots[i].fragmentSize == fragmentSize)
    }

    /** The concrete tracker and slots show exactly the state `model`. */
    ghost predicate Mirrors()
      reads this, Repr
    {
      && Layout()
      && tracker.Valid() && tracker.window == model.tracker
      && |slots| == |model.slots| == model.tracker.size
      && (forall i | 0 <= i < |slots| :: slots[i].Valid() && slots[i].Model() == model.slots[i])
      && model.maxFragments == maxFragments && model.fragmentSize == fragmentSize
    }

    ghost predicate Valid()
      reads this, Repr
    {
      Mirrors() && model.Valid()
    }

    constructor (size: nat, fragmentSize: nat, maxFragments: nat)
      requires IsPowerOfTwo(size) && 2 <= size <= 16384
      ensures Valid() && fresh(Repr)
      ensures model == BlankReassembly(size, fragmentSize, maxFragments)
      ensures this.fragmentSize == fragmentSize && this.maxFragments == maxFragments
    {
      var made := MakeSlots(size, fragmentSize, maxFragments);
      slots := made;
      var t := new SequenceBuffers.SequenceBuffer<()>(size);
      tracker := t;
      this.maxFragments := maxFragments;
      this.fragmentSize := fragmentSize;
      Repr := {this} + t.Repr + SlotObjects(made);
      model := BlankReassembly(size, fragmentSize, maxFragments);
      BlankReassemblyInitial(size, fragmentSize, maxFragments);
    }

    /** Changing one slot leaves the others as they were. */
    twostate lemma OthersKept(idx: nat)
      requires Layout() && idx <= |slots| && old(forall i | 0 <= i < |slots| :: slots[i].Valid())
      requires OnlySlotChanged(idx)
      ensures forall i | 0 <= i < |slots| && i != idx :: slots[i].Valid() && slots[i].Model() == old(slots[i].Model())
    {
      forall i | 0 <= i < |slots| && i != idx
        ensures slots[i].Valid() && slots[i].Model() == old(slots[i].Model())
      {
        assert unchanged(slots[i].Repr);
      }
    }

    /** At most slot `idx` changed; none did when `idx` is past the last. */
    twostate predicate OnlySlotChanged(idx: nat)
      requires Layout()
      reads this, Repr
    {
      forall i | 0 <= i < |slots| && i != idx :: unchanged(slots[i].Repr)
    }

    twostate lemma MirrorsAfterSlotChange(idx: nat)
      requires old(Mirrors()) && idx < |slots| && OnlySlotChanged(idx)
      requires unchanged(tracker) && unchanged(tracker.entries)
      requires slots[idx].Valid() && model == old(model).(slots := old(model).slots[idx := slots[idx].Model()])
      ensures Mirrors()
    {
      OthersKept(idx);
    }

    twostate lemma MirrorsAfterTracking()
      requires old(Mirrors()) && OnlySlotChanged(|slots|)
      requires tracker.Valid() && tracker.window.size == old(tracker.window.size)
      requires model == old(model).(tracker := tracker.window)
      ensures Mirrors()
    {
      OthersKept(|slots|);
    }

    /** Starts tracking a sequence and resets its slot. */
    method Open(h: FragmentHeader)
      requires Mirrors() && model.tracker.Valid() && h.count <= maxFragments
      modifies Repr
      ensures Mirrors() && model == OpenSlot(old(model), h)
    {
      Track(h.sequence);
      ResetSlot(h, RingIndex(h.sequence, |slots|));
    }

    method Track(sequence: u16)
      requires Mirrors()
      modifies `model, tracker.Repr
      ensures Mirrors() && model == old(model).(tracker := old(model).tracker.Insert(sequence, ()))
    {
      var inserted := tracker.Insert(sequence, ());
      model := model.(tracker := tracker.window);
      MirrorsAfterTracking();
    }

    method ResetSlot(h: FragmentHeader, idx: nat)
      requires Mirrors() && idx < |slots| && h.count <= maxFragments
      modifies `model, slots[idx].Repr
      ensures Mirrors()
      ensures model == old(model).(slots := old(model).slots[idx := Slot(h.sequence, h.count, map[])])
    {
      slots[idx].Reset(h.sequence, h.count);
      model := model.(slots := model.slots[idx := slots[idx].Model()]);
      forall i | 0 <= i < |slots| && i != idx
        ensures unchanged(slots[i].Repr)
      {
        assert slots[i].Repr !! slots[idx].Repr;
      }
      MirrorsAfterSlotChange(idx);
    }

    /** Stores a fragment the slot does not hold yet. */
    method Add(h: FragmentHeader, data: seq<u8>, idx: nat)
      requires Mirrors() && idx < |slots|
      requires h.id < model.slots[idx].count && h.id !in model.slots[idx].parts
      modifies `model, slots[idx].Repr
      ensures Mirrors()
      ensures var slot := old(model).slots[idx];
        model == old(model).(slots := old(model).slots[idx := slot.(parts := slot.parts[h.id := Stored(data, fragmentSize)])])
    {
      slots[idx].AddFragment(h.id, data);
      model := model.(slots := model.slots[idx := slots[idx].Model()]);
      forall i | 0 <= i < |slots| && i != idx
        ensures unchanged(slots[i].Repr)
      {
        assert slots[i].Repr !! slots[idx].Repr;
      }
      MirrorsAfterSlotChange(idx);
    }

    twostate lemma MirrorsKept()
      requires old(Mirrors()) && unchanged(Repr)
      ensures Mirrors() && model == old(model)
    {
      forall i | 0 <= i < |slots|
        ensures slots[i].Valid() && slots[i].Model() == old(slots[i].Model())
      {
        assert unchanged(slots[i].Repr);
      }
    }

    method Untrack(sequence: u16)
      requires Mirrors()
      modifies `model, tracker.Repr
      ensures Mirrors() && model == old(model).(tracker := old(model).tracker.Remove(sequence))
    {
      var removed := tracker.Remove(sequence);
      model := model.(tracker := tracker.window);
      MirrorsAfterTracking();
    }

    /** What a completed payload does to the queue and the caller. */
    ghost predicate Delivered(done: Option<seq<u8>>, sequence: u16, before: seq<EndpointModel.Packet>, after: seq<EndpointModel.Packet>,
                              capacity: nat, payloadLen: Option<nat>) {
      if done.Some? && |before| < capacity
      then payloadLen == Some(|done.value|) && after == before + [EndpointModel.Packet(sequence, done.value)]
      else payloadLen == None && after == before
    }

    /** Delivers the payload of a complete slot and stops tracking it. */
    method Finish(sequence: u16, idx: nat, incoming: PacketQueues.PacketQueue) returns (payloadLen: Option<nat>)
      requires Mirrors() && idx < |slots| && incoming.Valid() && Repr !! incoming.Repr
      requires var slot := model.slots[idx];
        |incoming.contents| < |incoming.slots| ==> |Assemble(slot.parts, slot.count)| <= incoming.slotCapacity
      modifies `model, tracker.Repr, incoming.Repr
      ensures Mirrors() && incoming.Valid()
      ensures model == old(model).(tracker := old(model).tracker.Remove(sequence))
      ensures var slot := old(model).slots[idx];
        Delivered(Some(Assemble(slot.parts, slot.count)), sequence, old(incoming.contents), incoming.contents,
                  |incoming.slots|, payloadLen)
    {
      assert slots[idx].Repr <= Repr;
      payloadLen := slots[idx].Deliver(sequence, incoming);
      MirrorsKept();
      label delivered:
      Untrack(sequence);
      assert unchanged@delivered(incoming.Repr);
      incoming.Kept@delivered();
    }

    method FinishIfComplete(sequence: u16, idx: nat, incoming: PacketQueues.PacketQueue) returns (payloadLen: Option<nat>)
      requires Mirrors() && idx < |slots| && incoming.Valid() && Repr !! incoming.Repr
      requires var slot := model.slots[idx]; |slot.parts| == slot.count && |incoming.contents| < |incoming.slots| ==>
        |Assemble(slot.parts, slot.count)| <= incoming.slotCapacity
      modifies `model, tracker.Repr, incoming.Repr
      ensures Mirrors() && incoming.Valid()
      ensures var slot := old(model).slots[idx]; var complete := |slot.parts| == slot.count;
        && model == (if complete then old(model).(tracker := old(model).tracker.Remove(sequence)) else old(model))
        && Delivered(if complete then Some(Assemble(slot.parts, slot.count)) else None, sequence,
                     old(incoming.contents), incoming.contents, |incoming.slots|, payloadLen)
    {
      payloadLen := None;
      var complete := slots[idx].IsComplete();
      if complete {
        payloadLen := Finish(sequence, idx, incoming);
      }
    }

    /** Stores a fragment in its open slot, and delivers the payload when it was the last one missing. */
    method Store(h: FragmentHeader, data: seq<u8>, idx: nat, incoming: PacketQueues.PacketQueue) returns (payloadLen: Option<nat>)
      requires Mirrors() && Storable(model, h) && h.id < h.count == model.SlotFor(h.sequence).count
      requires idx == SlotOf(h.sequence, |slots|)
      requires incoming.Valid() && Repr !! incoming.Repr
      requires var done := StoreFragment(model, h, data).1;
        done.Some? && |incoming.contents| < |incoming.slots| ==> |done.value| <= incoming.slotCapacity
      modifies Repr, incoming.Repr
      ensures Mirrors() && incoming.Valid() && model == StoreFragment(old(model), h, data).0
      ensures Delivered(StoreFragment(old(model), h, data).1, h.sequence, old(incoming.contents), incoming.contents,
                        |incoming.slots|, payloadLen)
    {
      var has := slots[idx].HasFragment(h.id);
      if has {
        return None;
      }
      Add(h, data, idx);
      assert unchanged(incoming.Repr);
      incoming.Kept();
      payloadLen := FinishIfComplete(h.sequence, idx, incoming);
    }

    /** The checks of `process_fragment`; on acceptance the fragment's slot is open. */
    method Admit(h: FragmentHeader, idx: nat) returns (ok: bool)
      requires Valid() && idx == SlotOf(h.sequence, |slots|)
      modifies Repr
      ensures Mirrors()
      ensures ok ==>
        && Storable(model, h) && h.id < h.count == model.SlotFor(h.sequence).count
        && (h.id in model.SlotFor(h.sequence).parts ==> model.Valid())
        && forall data: seq<u8> :: Fragments.ProcessFragment(old(model), h, data) == StoreFragment(model, h, data)
      ensures !ok ==>
        && model == old(model)
        && forall data: seq<u8> :: Fragments.ProcessFragment(model, h, data) == (model, None)
    {
      if h.count == 0 || h.count > maxFragments {
        return false;
      }
      if h.id >= h.count {
        return false;
      }
      var known := tracker.Exists(h.sequence);
      if known {
        ok := slots[idx].sequence == h.sequence && slots[idx].numFragments == h.count;
        if ok { TrackedIsStorable(model, h); }
      } else {
        ok := AdmitNew(h);
      }
    }

    /** Opens a slot for a sequence that has none, unless the sequence is too old. */
    method AdmitNew(h: FragmentHeader) returns (ok: bool)
      requires Valid() && !model.tracker.Exists(h.sequence) && h.id < h.count <= maxFragments
      modifies Repr
      ensures Mirrors() && ok == old(model).tracker.CanInsert(h.sequence)
      ensures if ok then model == OpenSlot(old(model), h) && Storable(model, h)
                         && model.SlotFor(h.sequence) == Slot(h.sequence, h.count, map[])
              else model == old(model)
    {
      ok := tracker.CanInsert(h.sequence);
      if ok {
        OpenedSlot(model, h);
        Open(h);
      }
    }

    /** `process_fragment` */
    method ProcessFragment(h: FragmentHeader, data: seq<u8>, incoming: PacketQueues.PacketQueue) returns (payloadLen: Option<nat>)
      requires Valid() && incoming.Valid() && Repr !! incoming.Repr
      requires var done := Fragments.ProcessFragment(model, h, data).1;
        done.Some? && |incoming.contents| < |incoming.slots| ==> |done.value| <= incoming.slotCapacity
      modifies Repr, incoming.Repr
      ensures Valid() && incoming.Valid() && model == Fragments.ProcessFragment(old(model), h, data).0
      ensures Delivered(Fragments.ProcessFragment(old(model), h, data).1, h.sequence,
                        old(incoming.contents), incoming.contents, |incoming.slots|, payloadLen)
    {
      ProcessKeepsValid(model, h, data);
      var idx := RingIndex(h.sequence, |slots|);
      var ok := Admit(h, idx);
      assert unchanged(incoming.Repr);
      incoming.Kept();
      if !ok {
        return None;
      }
      payloadLen := Store(h, data, idx, incoming);
    }

    method Reset()
      requires Valid()
      modifies `model, tracker.Repr
      ensures Valid() && model == old(model).(tracker := old(model).tracker.Reset())
    {
      tracker.Reset();
      model := model.(tracker := tracker.window);
      MirrorsAfterTracking();
    }
  }

  method MakeSlots(size: nat, fragmentSize: nat, maxFragments: nat) returns (slots: seq<ReassemblyData>)
    ensures |slots| == size
    ensures forall i | 0 <= i < size :: EmptySlot(slots[i], fragmentSize, maxFragments) && fresh(slots[i].Repr)
    ensures forall i, j | 0 <= i < j < size :: slots[i].Repr !! slots[j].Repr
  {
    slots := [];
    while |slots| < size
      invariant |slots| <= size
      invariant forall i | 0 <= i < |slots| :: EmptySlot(slots[i], fragmentSize, maxFragments) && fresh(slots[i].Repr)
      invariant forall i, j | 0 <= i < j < |slots| :: slots[i].Repr !! slots[j].Repr
    {
      var slot := new ReassemblyData(maxFragments, fragmentSize);
      slots := slots + [slot];
    }
  }

  ghost function SlotObjects(slots: seq<ReassemblyData>): set<object> {
    set i, o | 0 <= i < |slots| && o in slots[i].Repr :: o
  }

  ghost predicate EmptySlot(slot: ReassemblyData, fragmentSize: nat, maxFragments: nat)
    reads slot, slot.Repr
  {
    slot.Valid() && slot.Model() == Slot(0, 0, map[])
    && slot.fragmentLens.Length == maxFragments && slot.fragmentSize == fragmentSize
  }
}
