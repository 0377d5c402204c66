/**
  The meaning of a SequenceBuffer: a map from unbounded packet numbers to data, restricted to the
  `size` numbers below `head`. The buffer itself stores only 16-bit remainders of these numbers.
 */
module Windows {
  import opened Arithmetic
  import opened Bits
  import opened Sequence

  datatype Window<T> = Window(size: nat, head: int, live: map<int, T>) {

    ghost predicate Valid() {
      && IsPowerOfTwo(size)
      && 2 <= size <= 16384
      && forall u <- live :: head - size <= u < head
    }

    /** The oldest number still covered. */
    function Base(): int { head - size }

    /** The number a 16-bit sequence stands for: the only one congruent to it in the 65536 from Base(). */
    function Resolve(s: u16): (u: int)
      ensures Base() <= u < Base() + 65536 && u % 65536 == s
    {
      Base() + (s - Base()) % 65536
    }

    /** Half a cycle from Base() is accepted; the number exactly at its end is a tie that the raw
        16-bit values decide. */
    predicate CanInsert(s: u16) {
      var offset := Resolve(s) - Base();
      offset < 32768 || (offset == 32768 && s >= Base() % 65536)
    }

    predicate Exists(s: u16) {
      Resolve(s) in live
    }

    function Find(s: u16): Option<T> {
      var u := Resolve(s);
      if u in live then Some(live[u]) else None
    }

    function Insert(s: u16, data: T): Window<T> {
      if CanInsert(s) then Put(Resolve(s), data) else this
    }

    /** Advance the head past `u` if needed, forget what leaves the window, record `u`. */
    function Put(u: int, data: T): Window<T> {
      var h := Max(head, u + 1);
      Window(size, h, (map k | k in live && h - size <= k :: live[k])[u := data])
    }

    function Write(s: u16, data: T): Window<T> {
      this.(live := live[Resolve(s) := data])
    }

    function Remove(s: u16): Window<T> {
      this.(live := live - {Resolve(s)})
    }

    function Reset(): Window<T> {
      Window(size, 0, map[])
    }

    /** A bit for each of the first `k` numbers below the head. */
    function AckBits(k: nat): u32
      requires k <= 32
    {
      if k == 0 then 0
      else if head - k in live then WithBit(AckBits(k - 1), k - 1)
      else AckBits(k - 1)
    }

    /** Bit `i` says whether the number `i` below the newest was recorded. */
    lemma {:induction false} AckBitsExact(k: nat)
      requires k <= 32
      ensures forall i :: 0 <= i < 32 ==> (BitSet(AckBits(k), i) <==> i < k && head - 1 - i in live)
      decreases k
    {
      if k > 0 {
        AckBitsExact(k - 1);
        WithBitExact(AckBits(k - 1), k - 1);
      }
    }

    /** A number resolves to itself exactly while it is within a cycle of Base(). */
    lemma ResolveExact(u: int)
      ensures Resolve(u % 65536) == u <==> Base() <= u < Base() + 65536
    {
    }

    /** Looking up the remainder of a number up to a cycle old finds that very number or nothing. */
    lemma ExistsIsMembership(u: int)
      requires Valid() && head - 65536 <= u < Base() + 65536
      ensures Exists(u % 65536) <==> u in live
    {
      if u < Base() {
        ResolveExact(u + 65536);
      } else {
        ResolveExact(u);
      }
    }

    lemma AckProbe(i: nat)
      requires Valid() && i < 32
      ensures Exists(WrappingSub((head - 1) % 65536, i)) <==> head - 1 - i in live
    {
      WrappingSteps(head - 1, i);
      ExistsIsMembership(head - 1 - i);
    }

    /** The source's test on raw 16-bit values decides acceptance. */
    lemma CanInsertRaw(s: u16)
      requires 2 <= size <= 16384
      ensures CanInsert(s) <==> !SequenceLessThan(s, WrappingSub(head % 65536, size))
    {
      WrappingSteps(head, size);
      DistanceAhead(s, Base());
    }

    /** The source's test on raw values for moving the head tells whether the number is new. */
    lemma AdvanceRaw(s: u16)
      requires 2 <= size <= 16384 && CanInsert(s)
      ensures SequenceGreaterThan(WrappingAdd(s, 1), head % 65536) <==> Resolve(s) >= head
      ensures Resolve(s) < head + 32767
    {
      var next := Resolve(s) + 1;
      assert WrappingAdd(s, 1) == next % 65536 by { WrappingSteps(Resolve(s), 1); }
      if next > head { NearOrder(next, head); } else { NearOrder(head, next); }
    }

    lemma InsertValid(s: u16, data: T)
      requires Valid()
      ensures Insert(s, data).Valid()
      ensures CanInsert(s) ==> Resolve(s) in Insert(s, data).live
    {
    }

    /** No two numbers of the window share a slot. */
    lemma LiveSlotsDiffer(u: int)
      requires Valid() && Base() <= u < head
      ensures forall k <- live :: k != u ==> SlotOf(k, size) != SlotOf(u, size)
    {
      forall k | k in live && k != u
        ensures SlotOf(k, size) != SlotOf(u, size)
      {
        if k < u { SlotsDiffer(k, u, size); } else { SlotsDiffer(u, k, size); }
      }
    }

    /** A number just inserted and removed again can be inserted again. */
    lemma ReinsertAfterRemove(s: u16, data: T)
      requires Valid() && CanInsert(s)
      ensures var w := Insert(s, data).Remove(s); w.CanInsert(s) && !w.Exists(s)
    {
      InsertValid(s, data);
      Insert(s, data).ResolveExact(Resolve(s));
    }
  }

  // ---- Any sequence of operations ----

  datatype Operation<T> = Add(s: u16, data: T) | Drop(s: u16) | Clear

  function Perform<T>(w: Window<T>, op: Operation<T>): Window<T> {
    match op
    case Add(s, data) => w.Insert(s, data)
    case Drop(s) => w.Remove(s)
    case Clear => w.Reset()
  }

  function PerformAll<T>(size: nat, ops: seq<Operation<T>>): Window<T>
    decreases |ops|
  {
    if ops == [] then Window(size, 0, map[])
    else Perform(PerformAll(size, ops[..|ops| - 1]), ops[|ops| - 1])
  }

  /** The same operations on a map over all the integers, from which nothing is ever evicted. */
  function Ledger<T>(size: nat, ops: seq<Operation<T>>): map<int, T>
    decreases |ops|
  {
    if ops == [] then map[]
    else
      var w, log := PerformAll(size, ops[..|ops| - 1]), Ledger(size, ops[..|ops| - 1]);
      match ops[|ops| - 1]
      case Add(s, data) => if w.CanInsert(s) then log[w.Resolve(s) := data] else log
      case Drop(s) => log - {w.Resolve(s)}
      case Clear => map[]
  }

  /** After any operations the window is that map cut to the last `size` numbers: eviction loses nothing else. */
  lemma {:induction false} WindowIsLastOfLedger<T>(size: nat, ops: seq<Operation<T>>)
    requires IsPowerOfTwo(size) && 2 <= size <= 16384
    ensures var w, log := PerformAll(size, ops), Ledger(size, ops);
      && w.Valid() && w.size == size
      && (forall u <- log :: u < w.head)
      && w.live == map u | u in log && w.Base() <= u :: log[u]
    decreases |ops|
  {
    if ops != [] {
      WindowIsLastOfLedger(size, ops[..|ops| - 1]);
      var before := PerformAll(size, ops[..|ops| - 1]);
      match ops[|ops| - 1] {
        case Add(s, data) => before.InsertValid(s, data);
        case _ =>
      }
    }
  }
}
