/** The preallocated packet ring of src/packet_queue.rs, proved to be a bounded FIFO. */
module PacketQueues {
  import opened Arithmetic
  import opened Bits
  import EndpointModel

  const WORD := 0x1_0000_0000_0000_0000

  type usize = x: int | 0 <= x < WORD

  class PacketSlot {
    var sequence: u16
    var len: nat
    const data: array<u8>

    constructor (capacity: nat)
      ensures fresh(data) && data.Length == capacity
    {
      sequence := 0;
      len := 0;
      data := new u8[capacity](_ => 0);
    }
  }

  /** Wrapping a cursor moves neither the slots ahead of it nor the cursors relative to it. */
  lemma WrappedCursor(t: nat, k: nat, n: nat)
    requires IsPowerOfTwo(n) && n < WORD
    ensures SlotOf(t % WORD + k, n) == SlotOf(t + k, n)
    ensures (t % WORD + k) % WORD == (t + k) % WORD
  {
    assert (t % WORD + k) % WORD == (t + k) % WORD;
    WordSizesArePowersOfTwo();
    WrapKeepsSlot(t % WORD + k, n, WORD);
    WrapKeepsSlot(t + k, n, WORD);
  }

  class PacketQueue {
    const slots: seq<PacketSlot>
    const slotCapacity: nat
    var head: usize
    var tail: usize
    var count: nat
    ghost var contents: seq<EndpointModel.Packet>
    ghost const Repr: set<object>

    /** Distinct slots with distinct buffers of equal size, a power of two of them. */
    ghost predicate Layout() {
      && IsPowerOfTwo(|slots|) && |slots| < WORD
      && (forall i, j | 0 <= i < j < |slots| :: slots[i] != slots[j] && slots[i].data != slots[j].data)
      && (forall s <- slots :: s.data.Length == slotCapacity && s in Repr && s.data in Repr)
      && this in Repr
    }

    /** The slot `k` places after cursor `t`. */
    ghost function SlotAt(t: nat, k: nat): (slot: PacketSlot)
      requires |slots| > 0
      ensures slot in slots
    {
      slots[SlotOf(t + k, |slots|)]
    }

    /** The live slots are the `count` slots from `tail` on, across the wrap of the cursors. */
    ghost predicate Valid()
      reads Repr
    {
      && Layout()
      && count <= |slots|
      && head == (tail + count) % WORD
      && |contents| == count
      && (forall k | 0 <= k < count :: Holds(SlotAt(tail, k), contents[k]))
    }

    ghost predicate Holds(slot: PacketSlot, p: EndpointModel.Packet)
      reads slot, slot.data
    {
      slot.len <= slot.data.Length && p == EndpointModel.Packet(slot.sequence, slot.data[..slot.len])
    }

    constructor (size: nat, capacity: nat)
      requires IsPowerOfTwo(size) && size < WORD && capacity > 0
      ensures Valid() && fresh(Repr)
      ensures contents == [] && |slots| == size && slotCapacity == capacity
    {
      var made: seq<PacketSlot> := [];
      while |made| < size
        invariant |made| <= size
        invariant forall s <- made :: fresh(s) && fresh(s.data) && s.data.Length == capacity
        invariant forall i, j | 0 <= i < j < |made| :: made[i] != made[j] && made[i].data != made[j].data
      {
        var slot := new PacketSlot(capacity);
        made := made + [slot];
      }
      slots := made;
      slotCapacity := capacity;
      Repr := {this} + (set s | s in made :: s as object) + (set s | s in made :: s.data as object);
      head, tail, count, contents := 0, 0, 0, [];
    }

    /** The slot the next packet goes to; `write_slot` lets its caller fill the slot's buffer in place. */
    function NextSlot(): (slot: PacketSlot)
      reads this
      requires IsPowerOfTwo(|slots|)
      ensures slot in slots
    {
      slots[RingIndex(head, |slots|)]
    }

    lemma NextSlotIsLast()
      requires Layout() && head == (tail + count) % WORD
      ensures NextSlot() == SlotAt(tail, count)
    {
      WrappedCursor(tail + count, 0, |slots|);
    }

    /** While the queue is not full, the slot after the last queued one is none of them. */
    lemma NextSlotIsFree(t: nat, n: nat)
      requires Layout() && n < |slots|
      ensures forall k | 0 <= k < n :: SlotAt(t, k) != SlotAt(t, n) && SlotAt(t, k).data != SlotAt(t, n).data
    {
      forall k | 0 <= k < n
        ensures SlotAt(t, k) != SlotAt(t, n) && SlotAt(t, k).data != SlotAt(t, n).data
      {
        SlotsDiffer(t + k, t + n, |slots|);
      }
    }

    /** Advancing the tail shifts every later packet one place to the front. */
    lemma AdvanceTail(t: nat, t': nat, packets: seq<EndpointModel.Packet>)
      requires Layout() && t' == (t + 1) % WORD && packets != []
      requires forall k | 0 <= k < |packets| :: Holds(SlotAt(t, k), packets[k])
      ensures (t' + (|packets| - 1)) % WORD == (t + |packets|) % WORD
      ensures forall k | 0 <= k < |packets| - 1 :: Holds(SlotAt(t', k), packets[1..][k])
    {
      forall k | 0 <= k < |packets| - 1
        ensures Holds(SlotAt(t', k), packets[1..][k])
      {
        assert SlotAt(t', k) == SlotAt(t, k + 1) by { WrappedCursor(t + 1, k, |slots|); }
      }
      WrappedCursor(t + 1, |packets| - 1, |slots|);
    }

    /** Writing into the free slot's buffer disturbs nothing that is queued. */
    twostate lemma ScratchWrite(slot: PacketSlot)
      requires old(Valid()) && old(count) < |slots| && slot == old(NextSlot())
      requires unchanged(this) && unchanged(slot)
      requires forall s <- slots :: s != slot ==> unchanged(s) && unchanged(s.data)
      ensures Valid()
    {
      NextSlotIsLast();
      NextSlotIsFree(tail, count);
    }

    twostate lemma Kept()
      requires old(Valid()) && unchanged(Repr)
      ensures Valid() && contents == old(contents)
    {
    }

    /** `write_slot` after its closure returned `len`: the bytes in the next slot's buffer join the queue. */
    method Commit(sequence: u16, len: nat)
      requires Valid() && count < |slots| && len <= slotCapacity
      modifies this, NextSlot()
      ensures Valid()
      ensures contents == old(contents) + [EndpointModel.Packet(sequence, old(NextSlot().data[..len]))]
    {
      NextSlotIsLast();
      NextSlotIsFree(tail, count);
      WrappedCursor(tail + count, 1, |slots|);
      var slot := NextSlot();
      slot.sequence := sequence;
      slot.len := len;
      contents := contents + [EndpointModel.Packet(sequence, slot.data[..len])];
      head := (head + 1) % WORD;
      count := count + 1;
    }

    method Push(sequence: u16, data: seq<u8>) returns (stored: bool)
      requires Valid()
      modifies Repr
      ensures Valid() && stored == (old(count) < |slots|)
      ensures contents == EndpointModel.Accept(old(contents), |slots|, [EndpointModel.Packet(sequence, data[..Min(|data|, slotCapacity)])])
    {
      if count >= |slots| {
        return false;
      }
      var slot := NextSlot();
      var len := Min(|data|, slotCapacity);
      for i := 0 to len
        modifies slot.data
        invariant slot.data[..i] == data[..i]
      {
        slot.data[i] := data[i];
      }
      ScratchWrite(slot);
      Commit(sequence, len);
      stored := true;
    }

    /** Hands every packet to the caller in order; the queue is empty afterwards. */
    method Drain() returns (packets: seq<EndpointModel.Packet>)
      requires Valid()
      modifies this
      ensures Valid() && contents == [] && packets == old(contents)
    {
      packets := [];
      while count > 0
        invariant Valid() && packets + contents == old(contents)
      {
        var p := TakeFirst();
        packets := packets + [p];
      }
    }

    /** One turn of the drain loop. */
    method TakeFirst() returns (p: EndpointModel.Packet)
      requires Valid() && count > 0
      modifies this
      ensures Valid() && [p] + contents == old(contents) && count == old(count) - 1
    {
      var slot := slots[RingIndex(tail, |slots|)];
      assert slot == SlotAt(tail, 0);
      assert Holds(slot, contents[0]);
      AdvanceTail(tail, (tail + 1) % WORD, contents);
      p := EndpointModel.Packet(slot.sequence, slot.data[..slot.len]);
      tail := (tail + 1) % WORD;
      count := count - 1;
      contents := contents[1..];
    }

    method Clear()
      requires Valid()
      modifies this
      ensures Valid() && contents == []
    {
      head, tail, count, contents := 0, 0, 0, [];
    }
  }
}
