/** Fragment headers, splitting and reassembly as state transitions (src/fragment.rs). */
module Fragments {
  import opened Arithmetic
  import opened Bits
  import Packets
  import opened Windows

  const FRAGMENT_HEADER_BYTES := 5

  datatype FragmentHeader = FragmentHeader(sequence: u16, id: u8, count: u8)

  function EncodeFragment(h: FragmentHeader): (bytes: seq<u8>)
    ensures |bytes| == FRAGMENT_HEADER_BYTES
  {
    [1] + Packets.ToLeBytes(h.sequence) + [h.id, h.count]
  }

  function DecodeFragment(data: seq<u8>): Option<(FragmentHeader, nat)> {
    if |data| < FRAGMENT_HEADER_BYTES || !Packets.MarksFragment(data[0]) then None
    else Some((FragmentHeader(Packets.FromLeBytes(data[1], data[2]), data[3], data[4]), FRAGMENT_HEADER_BYTES))
  }

  lemma ReadFragmentAfterWrite(h: FragmentHeader, rest: seq<u8>)
    ensures DecodeFragment(EncodeFragment(h) + rest) == Some((h, FRAGMENT_HEADER_BYTES))
    ensures Packets.IsFragmentPacket(EncodeFragment(h) + rest)
    ensures (EncodeFragment(h) + rest)[FRAGMENT_HEADER_BYTES..] == rest
  {
    Packets.LeBytesRoundTrip(h.sequence);
  }

  // ---- Splitting ----

  function DivCeil(a: nat, b: nat): nat
    requires b > 0
  {
    (a + b - 1) / b
  }

  /** Fragment `i` of `payload`, as `payload.chunks(size)` yields it. */
  function Chunk(payload: seq<u8>, size: nat, i: nat): seq<u8>
    requires i * size <= |payload|
  {
    payload[i * size .. Min(i * size + size, |payload|)]
  }

  lemma DivCeilBounds(a: nat, b: nat)
    requires a > 0 && b > 0
    ensures var n := DivCeil(a, b); n > 0 && (n - 1) * b < a <= n * b
  {
    var n := DivCeil(a, b);
    assert a + b - 1 == n * b + (a + b - 1) % b;
    assert (n - 1) * b == n * b - b;
    assert n == 0 ==> n * b == 0;
  }

  lemma NothingHasNoChunks(b: nat)
    requires b > 0
    ensures DivCeil(0, b) == 0
  {
    ModIsUnique(b - 1, 0, b, b - 1);
  }

  lemma ChunkStarts(len: nat, size: nat, i: nat)
    requires len > 0 && size > 0 && i < DivCeil(len, size)
    ensures i * size < len
  {
    var last := DivCeil(len, size) - 1;
    assert last * size < len by { DivCeilBounds(len, size); }
    ProductsGrow(i, last, size);
  }

  lemma ProductsGrow(a: nat, b: nat, c: nat)
    requires a <= b
    ensures a * c <= b * c
  {
    assert b * c == a * c + (b - a) * c;
  }

  /** `n` chunks are enough exactly if they cover the payload. */
  lemma DivCeilAtMost(a: nat, b: nat, n: nat)
    requires a > 0 && b > 0
    ensures DivCeil(a, b) <= n <==> a <= n * b
  {
    DivCeilBounds(a, b);
    if DivCeil(a, b) <= n {
      ProductsGrow(DivCeil(a, b), n, b);
    } else {
      ProductsGrow(n, DivCeil(a, b) - 1, b);
    }
  }

  // ---- Reassembly ----

  /** One reassembly slot: `parts` are the stored fragments, as the slab, length array and bitmask hold them. */
  datatype Slot = Slot(sequence: u16, count: u8, parts: map<nat, seq<u8>>)

  datatype Reassembly = Reassembly(tracker: Window<()>, slots: seq<Slot>, maxFragments: nat, fragmentSize: nat) {

    ghost predicate Shape() {
      |slots| == tracker.size > 0
    }

    function SlotFor(s: u16): Slot
      requires Shape()
    {
      slots[SlotOf(s, |slots|)]
    }

    /** Every tracked number has its own slot, which holds some but not all of its fragments. */
    ghost predicate Valid() {
      && tracker.Valid()
      && Shape()
      && (forall i | 0 <= i < |slots| :: SlotValid(slots[i]))
      && (forall u <- tracker.live ::
            var slot := slots[SlotOf(u, |slots|)];
            slot.sequence == u % 65536 && 0 < |slot.parts| < slot.count)
    }

    ghost predicate SlotValid(slot: Slot) {
      && slot.count <= maxFragments
      && (forall i <- slot.parts :: i < slot.count && |slot.parts[i]| <= fragmentSize)
    }

    ghost predicate Initial() {
      && Valid()
      && tracker.head == 0 && tracker.live == map[]
    }
  }

  ghost function BlankReassembly(size: nat, fragmentSize: nat, maxFragments: nat): Reassembly {
    Reassembly(Window(size, 0, map[]), seq(size, _ => Slot(0, 0, map[])), maxFragments, fragmentSize)
  }

  lemma BlankReassemblyInitial(size: nat, fragmentSize: nat, maxFragments: nat)
    requires IsPowerOfTwo(size) && 2 <= size <= 16384
    ensures BlankReassembly(size, fragmentSize, maxFragments).Initial()
  {
  }

  /** What the slab keeps of a fragment: cut to the slot, and to a length that fits 16 bits. */
  function Stored(data: seq<u8>, fragmentSize: nat): seq<u8> {
    data[..Min(|data|, fragmentSize) % 65536]
  }

  /** The first `k` fragments in order; a missing one contributes nothing, its length entry being zero. */
  function Assemble(parts: map<nat, seq<u8>>, k: nat): seq<u8>
  {
    if k == 0 then [] else Assemble(parts, k - 1) + (if k - 1 in parts then parts[k - 1] else [])
  }

  /** `process_fragment`: the new state, and the payload when this fragment completes it. */
  function ProcessFragment(r: Reassembly, h: FragmentHeader, data: seq<u8>): (Reassembly, Option<seq<u8>>)
    requires r.Shape()
  {
    if h.count == 0 || h.count > r.maxFragments || h.id >= h.count then (r, None)
    else if !r.tracker.Exists(h.sequence) then
      if !r.tracker.CanInsert(h.sequence) then (r, None)
      else StoreFragment(OpenSlot(r, h), h, data)
    else
      var slot := r.SlotFor(h.sequence);
      if slot.sequence != h.sequence || slot.count != h.count then (r, None)
      else StoreFragment(r, h, data)
  }

  function OpenSlot(r: Reassembly, h: FragmentHeader): (r': Reassembly)
    requires r.Shape()
    ensures r'.Shape()
  {
    r.(tracker := r.tracker.Insert(h.sequence, ()),
       slots := r.slots[SlotOf(h.sequence, |r.slots|) := Slot(h.sequence, h.count, map[])])
  }

  function StoreFragment(r: Reassembly, h: FragmentHeader, data: seq<u8>): (Reassembly, Option<seq<u8>>)
    requires r.Shape()
  {
    var slot := r.SlotFor(h.sequence);
    if h.id in slot.parts then (r, None)
    else
      var full := slot.(parts := slot.parts[h.id := Stored(data, r.fragmentSize)]);
      var r' := r.(slots := r.slots[SlotOf(h.sequence, |r.slots|) := full]);
      if |full.parts| == full.count
      then (r'.(tracker := r'.tracker.Remove(h.sequence)), Some(Assemble(full.parts, full.count)))
      else (r', None)
  }

  /** A set of numbers below `n` has at most `n` members, and `n` only if it has them all. */
  lemma {:induction false} BoundedSet(s: set<int>, n: nat)
    requires forall i <- s :: 0 <= i < n
    ensures |s| <= n
    ensures |s| == n <==> forall i | 0 <= i < n :: i in s
  {
    if n > 0 {
      var t := s - {n - 1};
      BoundedSet(t, n - 1);
      if n - 1 in s { assert s == t + {n - 1}; } else { assert s == t; }
    } else {
      assert s == {} by {
        forall i: int
          ensures i !in s
        {
        }
      }
    }
  }

  lemma SlotOfSequence(r: Reassembly, s: u16)
    requires r.tracker.Valid() && r.Shape()
    ensures SlotOf(s, |r.slots|) == SlotOf(r.tracker.Resolve(s), |r.slots|)
  {
    WordSizesArePowersOfTwo();
    WrapKeepsSlot(r.tracker.Resolve(s), |r.slots|, 65536);
  }

  /** Inserting keeps every other surviving number in another slot. */
  lemma OpenedSlot(r: Reassembly, h: FragmentHeader)
    requires r.Valid() && r.tracker.CanInsert(h.sequence) && 0 < h.count <= r.maxFragments
    ensures var r' := OpenSlot(r, h); var u := r.tracker.Resolve(h.sequence);
      && Storable(r', h)
      && r'.SlotFor(h.sequence) == Slot(h.sequence, h.count, map[])
      && (forall k <- r'.tracker.live :: k != u ==> k in r.tracker.live)
  {
    var u := r.tracker.Resolve(h.sequence);
    var r' := OpenSlot(r, h);
    var t := r'.tracker;
    r.tracker.InsertValid(h.sequence, ());
    t.ResolveExact(u);
    SlotOfSequence(r, h.sequence);
    t.LiveSlotsDiffer(u);
  }

  /** Every tracked number other than `u` is in step, in a slot other than that of `u`. */
  ghost predicate OthersInStep(r: Reassembly, u: int)
    requires r.Shape()
  {
    forall k <- r.tracker.live :: k != u ==>
      && SlotOf(k, |r.slots|) != SlotOf(u, |r.slots|)
      && var slot := r.slots[SlotOf(k, |r.slots|)];
         slot.sequence == k % 65536 && 0 < |slot.parts| < slot.count
  }

  /** Valid, except that the slot of a tracked `h.sequence` may still be empty. */
  ghost predicate Storable(r: Reassembly, h: FragmentHeader) {
    && r.tracker.Valid()
    && r.Shape()
    && (forall i | 0 <= i < |r.slots| :: r.SlotValid(r.slots[i]))
    && r.tracker.Exists(h.sequence)
    && SlotOf(h.sequence, |r.slots|) == SlotOf(r.tracker.Resolve(h.sequence), |r.slots|)
    && OthersInStep(r, r.tracker.Resolve(h.sequence))
    && r.SlotFor(h.sequence).sequence == h.sequence
    && |r.SlotFor(h.sequence).parts| < r.SlotFor(h.sequence).count
  }

  lemma PartStored(slot: Slot, id: nat, part: seq<u8>)
    requires id !in slot.parts
    ensures |slot.parts[id := part]| == |slot.parts| + 1
  {
    assert slot.parts[id := part].Keys == slot.parts.Keys + {id};
  }

  lemma StoreKeepsValid(r: Reassembly, h: FragmentHeader, data: seq<u8>)
    requires Storable(r, h) && h.id < h.count == r.SlotFor(h.sequence).count
    requires h.id in r.SlotFor(h.sequence).parts ==> r.Valid()
    ensures StoreFragment(r, h, data).0.Valid()
  {
    var slot := r.SlotFor(h.sequence);
    var part := Stored(data, r.fragmentSize);
    if h.id !in slot.parts {
      PartStored(slot, h.id, part);
      assert r.SlotValid(slot.(parts := slot.parts[h.id := part]));
      var u := r.tracker.Resolve(h.sequence);
      var r' := StoreFragment(r, h, data).0;
      assert r'.tracker.live.Keys == if |slot.parts| + 1 == slot.count then r.tracker.live.Keys - {u} else r.tracker.live.Keys;
      assert OthersInStep(r', u);
    }
  }

  lemma TrackedIsStorable(r: Reassembly, h: FragmentHeader)
    requires r.Valid() && r.tracker.Exists(h.sequence)
    ensures Storable(r, h)
  {
    SlotOfSequence(r, h.sequence);
    r.tracker.LiveSlotsDiffer(r.tracker.Resolve(h.sequence));
  }

  /** Tracker and slots stay in step whatever arrives. */
  lemma ProcessKeepsValid(r: Reassembly, h: FragmentHeader, data: seq<u8>)
    requires r.Valid()
    ensures ProcessFragment(r, h, data).0.Valid()
  {
    if h.count == 0 || h.count > r.maxFragments || h.id >= h.count {
    } else if r.tracker.Exists(h.sequence) {
      TrackedIsStorable(r, h);
      if r.SlotFor(h.sequence).count == h.count {
        StoreKeepsValid(r, h, data);
      }
    } else if r.tracker.CanInsert(h.sequence) {
      OpenedSlot(r, h);
      StoreKeepsValid(OpenSlot(r, h), h, data);
    }
  }

  /** The source's guard against a slot holding another sequence never fires. */
  lemma MismatchGuardUnreachable(r: Reassembly, s: u16)
    requires r.Valid() && r.tracker.Exists(s)
    ensures r.SlotFor(s).sequence == s
  {
    SlotOfSequence(r, s);
  }
}
