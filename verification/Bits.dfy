/**
  Machine words as natural numbers, with the bitwise operators the source applies to them: masks
  for ring indices (`x & (n - 1)`) and single bits (`w & (1 << i)`, `w |= 1 << i`).
 */
module Bits {
  import opened Arithmetic

  type u8 = x: int | 0 <= x < 256
  type u16 = x: int | 0 <= x < 65536
  type u32 = x: int | 0 <= x < 0x1_0000_0000

  function BitAnd(a: nat, b: nat): nat {
    if a == 0 || b == 0 then 0 else Min(a % 2, b % 2) + 2 * BitAnd(a / 2, b / 2)
  }

  function BitOr(a: nat, b: nat): nat {
    if a == 0 then b else if b == 0 then a else Max(a % 2, b % 2) + 2 * BitOr(a / 2, b / 2)
  }

  /** `1 << i` */
  function Shl1(i: nat): (r: nat)
    ensures r > 0
  {
    if i == 0 then 1 else 2 * Shl1(i - 1)
  }

  predicate BitSet(word: nat, i: nat) {
    BitAnd(word, Shl1(i)) != 0
  }

  function WithBit(word: u32, i: nat): u32
    requires i < 32
  {
    assert Shl1(8) == 256 && Shl1(16) == 65536 && Shl1(24) == 0x100_0000 && Shl1(32) == 0x1_0000_0000;
    OrStaysBelow(word, i, 32);
    BitOr(word, Shl1(i))
  }

  lemma {:induction false} OrStaysBelow(word: nat, i: nat, width: nat)
    requires i < width && word < Shl1(width)
    ensures BitOr(word, Shl1(i)) < Shl1(width)
  {
    if word == 0 {
      ShiftsGrow(i, width);
    } else {
      HalfBelow(word, Shl1(width - 1));
      OrHalves(word, i);
      if i > 0 {
        OrStaysBelow(word / 2, i - 1, width - 1);
      }
      HalfBelow(BitOr(word, Shl1(i)), Shl1(width - 1));
    }
  }

  lemma HalfBelow(x: nat, m: nat)
    ensures x / 2 < m <==> x < 2 * m
  {
  }

  lemma {:induction false} ShiftsGrow(i: nat, j: nat)
    requires i < j
    ensures Shl1(i) < Shl1(j)
  {
    if i + 1 < j {
      ShiftsGrow(i, j - 1);
    }
  }

  lemma BitHalves(word: nat, i: nat)
    ensures BitSet(word, i) <==> if i == 0 then word % 2 == 1 else BitSet(word / 2, i - 1)
  {
    if i > 0 {
      assert Shl1(i) % 2 == 0 && Shl1(i) / 2 == Shl1(i - 1);
    } else {
      assert BitAnd(word / 2, 0) == 0;
      assert Shl1(0) == 1 && word > 0 ==> BitAnd(word, 1) == word % 2;
    }
  }

  lemma OrHalves(word: nat, i: nat)
    ensures var r := BitOr(word, Shl1(i));
      && r % 2 == (if i == 0 then 1 else word % 2)
      && r / 2 == (if i == 0 then word / 2 else BitOr(word / 2, Shl1(i - 1)))
  {
    assert i > 0 ==> Shl1(i) % 2 == 0 && Shl1(i) / 2 == Shl1(i - 1);
  }

  lemma {:induction false} WithBitAt(word: nat, i: nat, j: nat)
    ensures BitSet(BitOr(word, Shl1(i)), j) <==> BitSet(word, j) || i == j
    decreases j
  {
    BitHalves(word, j);
    OrHalves(word, i);
    BitHalves(BitOr(word, Shl1(i)), j);
    if i > 0 && j > 0 {
      WithBitAt(word / 2, i - 1, j - 1);
    }
  }

  /** Setting bit `i` changes the answer at `i` and nowhere else. */
  lemma WithBitExact(word: u32, i: nat)
    requires i < 32
    ensures forall j :: 0 <= j < 32 ==> (BitSet(WithBit(word, i), j) <==> BitSet(word, j) || i == j)
  {
    forall j | 0 <= j < 32
      ensures BitSet(WithBit(word, i), j) <==> BitSet(word, j) || i == j
    {
      WithBitAtExact(word, i, j);
    }
  }

  lemma WithBitAtExact(word: u32, i: nat, j: nat)
    requires i < 32 && j < 32
    ensures BitSet(WithBit(word, i), j) <==> BitSet(word, j) || i == j
  {
    WithBitAt(word, i, j);
  }

  /** Masking with a power of two minus one is the remainder. */
  lemma {:induction false} MaskIsMod(a: nat, n: nat)
    requires IsPowerOfTwo(n)
    ensures BitAnd(a, n - 1) == a % n
  {
    if n == 1 {
    } else if a == 0 {
      ModIsUnique(0, 0, n, 0);
    } else {
      MaskIsMod(a / 2, n / 2);
      MaskHalves(a, n / 2);
      DoubleMod(a, n / 2);
    }
  }

  lemma MaskHalves(a: nat, m: nat)
    requires a > 0 && m > 0
    ensures BitAnd(a, 2 * m - 1) == a % 2 + 2 * BitAnd(a / 2, m - 1)
  {
    assert (2 * m - 1) % 2 == 1 && (2 * m - 1) / 2 == m - 1;
  }

  /** The ring slot of a sequence number or cursor: `x & (n - 1)`. */
  function RingIndex(x: nat, n: nat): (i: nat)
    requires IsPowerOfTwo(n)
    ensures i < n && i == SlotOf(x, n)
  {
    MaskIsMod(x, n);
    SlotIsMod(x, n);
    BitAnd(x, n - 1)
  }
}
