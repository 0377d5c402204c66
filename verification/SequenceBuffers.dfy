/** The ring buffer of src/sequence_buffer.rs, proved to refine a Window. */
module SequenceBuffers {
  import opened Arithmetic
  import opened Bits
  import opened Sequence
  import opened Windows

  datatype BufferEntry<T> = BufferEntry(sequence: u16, data: T)

  /** The slots hold exactly the live numbers of the window, each in its own slot, under its remainder. */
  ghost predicate Represents<T>(entries: seq<Option<BufferEntry<T>>>, w: Window<T>) {
    && |entries| == w.size > 0
    && (forall u <- w.live :: entries[SlotOf(u, w.size)] == Some(BufferEntry(u % 65536, w.live[u])))
    && (forall i | 0 <= i < |entries| && entries[i].Some? ::
          var u := w.Resolve(entries[i].value.sequence);
          u in w.live && SlotOf(u, w.size) == i)
  }

  /** Slot `i` belongs to some number in `[first, last]`. */
  ghost predicate InRange(i: nat, n: nat, first: int, last: int)
    requires n > 0
  {
    exists u | first <= u <= last :: SlotOf(u, n) == i
  }

  lemma InRangeExtends(n: nat, first: int, k: int)
    requires n > 0 && first <= k
    ensures forall i: nat :: InRange(i, n, first, k) <==> InRange(i, n, first, k - 1) || i == SlotOf(k, n)
  {
  }

  /** Less than half a cycle before the end, the loop of `remove_range` stops exactly past `last`. */
  lemma RangeGuard(k: int, last: int)
    requires k <= last + 1 < k + 32768
    ensures SequenceLessThan(k % 65536, WrappingAdd(last % 65536, 1)) <==> k <= last
  {
    var past := last + 1;
    assert WrappingAdd(last % 65536, 1) == past % 65536 by { WrappingSteps(last, 1); }
    NearOrder(past, k);
  }

  /** The number that `end` stands for, counted from `first`. */
  function RangeEnd(first: int, end: u16): int {
    first + WrappingSub(end, first % 65536)
  }

  /** When the loop of `remove_range` starts at all, its end is at most half a cycle ahead. */
  lemma RangeStart(first: int, end: u16)
    ensures RangeEnd(first, end) % 65536 == end
    ensures SequenceLessThan(first % 65536, WrappingAdd(end, 1)) ==> RangeEnd(first, end) + 1 <= first + 32768
  {
    var start := first % 65536;
    var distance := WrappingSub(end, start);
    assert WrappingAdd(start, distance) == end;
    WrappingSteps(first, distance);
    if distance >= 32768 {
      TooFarAhead(start, end);
    }
  }

  lemma TooFarAhead(start: u16, end: u16)
    requires WrappingSub(end, start) >= 32768
    ensures !SequenceLessThan(start, WrappingAdd(end, 1))
  {
  }

  /** A range that is cleared at all is cleared up to its end, within half a cycle. */
  lemma LoopGuard(first: int, end: u16, k: int)
    requires SequenceLessThan(first % 65536, WrappingAdd(end, 1)) && first <= k <= RangeEnd(first, end) + 1
    ensures SequenceLessThan(k % 65536, WrappingAdd(end, 1)) <==> k <= RangeEnd(first, end)
  {
    RangeStart(first, end);
    if first < k {
      RangeGuard(k, RangeEnd(first, end));
    } else {
      assert first <= RangeEnd(first, end);
    }
  }

  lemma SlotOfRemainder(k: int, n: nat)
    requires IsPowerOfTwo(n) && n <= 65536
    ensures RingIndex(k % 65536, n) == SlotOf(k, n)
  {
    WordSizesArePowersOfTwo();
    WrapKeepsSlot(k, n, 65536);
  }

  lemma NearRangeEnd(first: int, last: int)
    requires first <= last < first + 65536
    ensures RangeEnd(first, last % 65536) == last
  {
    WrappingTracks(last, first);
    SmallRemainder(last - first);
  }

  /** Clearing the slots of `[head, u]` forgets exactly the numbers that leave the window. */
  lemma ClearedExactly(head: int, n: nat, u: int, k: int)
    requires n > 0 && head - n <= k < head <= u
    ensures InRange(SlotOf(k, n), n, head, u) <==> k < u + 1 - n
  {
    NextLap(k, n);
    if k + n <= u {
      assert SlotOf(k + n, n) == SlotOf(k, n);
    }
    forall v | head <= v <= u < k + n
      ensures SlotOf(v, n) != SlotOf(k, n)
    {
      SlotsDiffer(k, v, n);
    }
  }

  lemma InsertRepresents<T>(before: seq<Option<BufferEntry<T>>>, after: seq<Option<BufferEntry<T>>>,
                            w: Window<T>, u: int, data: T)
    requires w.Valid() && w.Base() <= u && Represents(before, w) && |after| == |before|
    requires after[SlotOf(u, w.size)] == Some(BufferEntry(u % 65536, data))
    requires forall i | 0 <= i < |after| && i != SlotOf(u, w.size) ::
      after[i] == if w.head <= u && InRange(i, w.size, w.head, u) then None else before[i]
    ensures w.Put(u, data).Valid() && Represents(after, w.Put(u, data))
  {
    var w' := w.Put(u, data);
    forall k | k in w'.live && k != u
      ensures after[SlotOf(k, w.size)] == Some(BufferEntry(k % 65536, w'.live[k]))
    {
      if w.head <= u { ClearedExactly(w.head, w.size, u, k); }
      if k < u { SlotsDiffer(k, u, w.size); } else { SlotsDiffer(u, k, w.size); }
    }
    forall i | 0 <= i < |after| && after[i].Some?
      ensures var k := w'.Resolve(after[i].value.sequence);
        k in w'.live && SlotOf(k, w.size) == i
    {
      if i != SlotOf(u, w.size) {
        var k := w.Resolve(before[i].value.sequence);
        if w.head <= u { ClearedExactly(w.head, w.size, u, k); }
        w'.ResolveExact(k);
      } else {
        w'.ResolveExact(u);
      }
    }
  }

  lemma WriteRepresents<T>(before: seq<Option<BufferEntry<T>>>, w: Window<T>, s: u16, data: T)
    requires w.Valid() && Represents(before, w) && w.Exists(s)
    ensures Represents(before[SlotOf(w.Resolve(s), w.size) := Some(BufferEntry(s, data))], w.Write(s, data))
  {
    var u := w.Resolve(s);
    w.LiveSlotsDiffer(u);
  }

  lemma RemoveRepresents<T>(before: seq<Option<BufferEntry<T>>>, w: Window<T>, s: u16)
    requires w.Valid() && Represents(before, w) && w.Exists(s)
    ensures Represents(before[SlotOf(w.Resolve(s), w.size) := None], w.Remove(s))
  {
    var u := w.Resolve(s);
    w.LiveSlotsDiffer(u);
  }

  /** Emptying the slot of a live number, or leaving the entries when it is not live, removes it. */
  lemma AfterRemoval<T>(before: seq<Option<BufferEntry<T>>>, w: Window<T>, s: u16)
    requires w.Valid() && Represents(before, w)
    ensures RingIndex(s, |before|) == SlotOf(w.Resolve(s), w.size)
    ensures Represents(if w.Exists(s) then before[RingIndex(s, |before|) := None] else before, w.Remove(s))
  {
    SlotOfRemainder(w.Resolve(s), w.size);
    if w.Exists(s) {
      RemoveRepresents(before, w, s);
    } else {
      assert w.Remove(s).live == w.live;
    }
  }

  class SequenceBuffer<T> {
    var sequence: u16
    const entries: array<Option<BufferEntry<T>>>
    ghost var window: Window<T>
    ghost const Repr: set<object>

    ghost predicate Valid()
      reads this, Repr
    {
      && this in Repr && entries in Repr
      && window.Valid()
      && sequence == window.head % 65536
      && Represents(entries[..], window)
    }

    constructor (size: nat)
      requires IsPowerOfTwo(size) && 2 <= size <= 16384
      ensures Valid() && fresh(Repr)
      ensures window == Window(size, 0, map[])
    {
      sequence := 0;
      entries := new Option<BufferEntry<T>>[size](_ => None);
      window := Window(size, 0, map[]);
      Repr := {this, entries};
    }

    method Reset()
      requires Valid()
      modifies Repr
      ensures Valid() && window == old(window).Reset()
    {
      sequence := 0;
      for i := 0 to entries.Length
        invariant forall k | 0 <= k < i :: entries[k].None?
        invariant window == old(window) && sequence == 0
      {
        entries[i] := None;
      }
      window := window.Reset();
    }

    /** A sequence number and the number it stands for use the same slot. */
    lemma IndexOfResolved(s: u16)
      requires Valid()
      ensures RingIndex(s, entries.Length) == SlotOf(window.Resolve(s), window.size)
    {
      SlotOfRemainder(window.Resolve(s), window.size);
    }

    lemma EntryAt(s: u16)
      requires Valid()
      ensures var e := entries[RingIndex(s, entries.Length)];
        if window.Exists(s) then e == Some(BufferEntry(s, window.live[window.Resolve(s)]))
        else e.Some? ==> e.value.sequence != s
    {
      IndexOfResolved(s);
    }

    method CanInsert(sequence: u16) returns (ok: bool)
      requires Valid()
      ensures ok == window.CanInsert(sequence)
    {
      window.CanInsertRaw(sequence);
      SmallRemainder(entries.Length);
      var numEntries: u16 := entries.Length % 65536;
      ok := !SequenceLessThan(sequence, WrappingSub(this.sequence, numEntries));
    }

    /** `insert`, together with the caller's write through the reference it returns. */
    method Insert(sequence: u16, data: T) returns (ok: bool)
      requires Valid()
      modifies Repr
      ensures Valid() && ok == old(window).CanInsert(sequence)
      ensures window == old(window).Insert(sequence, data)
    {
      ok := CanInsert(sequence);
      if !ok {
        return;
      }
      ghost var u := window.Resolve(sequence);
      IndexOfResolved(sequence);
      window.AdvanceRaw(sequence);
      WrappingSteps(u, 1);
      if SequenceGreaterThan(WrappingAdd(sequence, 1), this.sequence) {
        NearRangeEnd(window.head, u);
        RangeGuard(window.head, u);
        RemoveRange(this.sequence, sequence, window.head);
        this.sequence := WrappingAdd(sequence, 1);
      }
      entries[RingIndex(sequence, entries.Length)] := Some(BufferEntry(sequence, data));
      window := window.Put(u, data);
      InsertRepresents(old(entries[..]), entries[..], old(window), u, data);
    }

    /** Clears the slots from `start` to `end`, both included, when `start` is before `end + 1` in the
        half-range order, and none otherwise. */
    method RemoveRange(start: u16, end: u16, ghost first: int)
      requires IsPowerOfTwo(entries.Length) && entries.Length <= 65536
      requires start == first % 65536
      modifies entries
      ensures forall i | 0 <= i < entries.Length ::
        entries[i] ==
          if SequenceLessThan(start, WrappingAdd(end, 1)) && InRange(i, entries.Length, first, RangeEnd(first, end))
          then None else old(entries[i])
    {
      var current := start;
      ghost var k, last := first, RangeEnd(first, end);
      ghost var any := SequenceLessThan(start, WrappingAdd(end, 1));
      if any { LoopGuard(first, end, first); }
      while SequenceLessThan(current, WrappingAdd(end, 1))
        invariant if any then first <= k <= last + 1 else k == first
        invariant current == k % 65536
        invariant SequenceLessThan(current, WrappingAdd(end, 1)) <==> any && k <= last
        invariant forall i | 0 <= i < entries.Length ::
          entries[i] == if InRange(i, entries.Length, first, k - 1) then None else old(entries[i])
        decreases last + 1 - k
      {
        SlotOfRemainder(k, entries.Length);
        InRangeExtends(entries.Length, first, k);
        LoopGuard(first, end, k + 1);
        WrappingSteps(k, 1);
        entries[RingIndex(current, entries.Length)] := None;
        current := WrappingAdd(current, 1);
        k := k + 1;
      }
    }

    method Remove(sequence: u16) returns (removed: Option<T>)
      requires Valid()
      modifies Repr
      ensures Valid() && window == old(window).Remove(sequence)
      ensures removed == old(window).Find(sequence)
    {
      EntryAt(sequence);
      AfterRemoval(entries[..], window, sequence);
      var index := RingIndex(sequence, entries.Length);
      var entry := entries[index];
      removed := None;
      if entry.Some? {
        entries[index] := None;
        if entry.value.sequence == sequence {
          removed := Some(entry.value.data);
        } else {
          entries[index] := entry;
        }
      }
      assert entries[..] == if old(window).Exists(sequence) then old(entries[..])[index := None] else old(entries[..]);
      window := window.Remove(sequence);
    }

    method Find(sequence: u16) returns (data: Option<T>)
      requires Valid()
      ensures data == window.Find(sequence)
    {
      EntryAt(sequence);
      var entry := entries[RingIndex(sequence, entries.Length)];
      data := if entry.Some? && entry.value.sequence == sequence then Some(entry.value.data) else None;
    }

    /** Write through the reference `find_mut` returns. */
    method Write(sequence: u16, data: T)
      requires Valid() && window.Exists(sequence)
      modifies Repr
      ensures Valid() && window == old(window).Write(sequence, data)
    {
      EntryAt(sequence);
      IndexOfResolved(sequence);
      WriteRepresents(entries[..], window, sequence, data);
      var index := RingIndex(sequence, entries.Length);
      entries[index] := Some(entries[index].value.(data := data));
      window := window.Write(sequence, data);
    }

    method Exists(sequence: u16) returns (found: bool)
      requires Valid()
      ensures found == window.Exists(sequence)
    {
      EntryAt(sequence);
      var entry := entries[RingIndex(sequence, entries.Length)];
      found := entry.Some? && entry.value.sequence == sequence;
    }

    method GenerateAckBits() returns (ack: u16, ackBits: u32)
      requires Valid()
      ensures ack == (window.head - 1) % 65536
      ensures ackBits == window.AckBits(32)
    {
      WrappingSteps(window.head, 1);
      ack := WrappingSub(sequence, 1);
      ackBits := 0;
      for i := 0 to 32
        invariant ackBits == window.AckBits(i)
      {
        window.AckProbe(i);
        var found := Exists(WrappingSub(ack, i));
        if found {
          ackBits := WithBit(ackBits, i);
        }
      }
    }
  }
}
