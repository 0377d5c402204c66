/** Sequence-number arithmetic and the half-range order (src/utils.rs). */
module Sequence {
  import opened Bits

  function WrappingAdd(a: u16, b: u16): u16 {
    (a + b) % 65536
  }

  function WrappingSub(a: u16, b: u16): u16 {
    (a - b) % 65536
  }

  predicate SequenceGreaterThan(s1: u16, s2: u16) {
    (s1 > s2 && WrappingSub(s1, s2) <= 32768) || (s1 < s2 && WrappingSub(s2, s1) > 32768)
  }

  predicate SequenceLessThan(s1: u16, s2: u16) {
    SequenceGreaterThan(s2, s1)
  }

  /** Of two distinct numbers exactly one is the greater, the tie at distance 32768 included. */
  lemma HalfRangeIsStrictChoice(a: u16, b: u16)
    ensures a != b ==> (SequenceGreaterThan(a, b) <==> !SequenceGreaterThan(b, a))
    ensures !SequenceGreaterThan(a, a)
  {
  }

  /** The half-range order is integer order on unwrapped numbers, exactly up to distance 32767;
      at distance 32768 the raw values decide, and beyond it the order flips. */
  lemma HalfRangeOrdersUnwrapped(a: int, b: int)
    requires -65536 < a - b < 65536
    ensures var gt := SequenceGreaterThan(a % 65536, b % 65536);
      && (0 < a - b < 32768 ==> gt)
      && (a - b == 32768 ==> (gt <==> a % 65536 > b % 65536))
      && (32768 < a - b ==> !gt)
      && (a == b ==> !gt)
      && (-32768 < a - b < 0 ==> !gt)
      && (a - b == -32768 ==> (gt <==> a % 65536 > b % 65536))
      && (a - b < -32768 ==> gt)
  {
  }

  lemma Remainder(a: int, q: int, r: u16)
    requires a == 65536 * q + r
    ensures a % 65536 == r
  {
  }

  /** Wrapping arithmetic on remainders is integer arithmetic on the numbers they stand for. */
  lemma WrappingTracks(a: int, b: int)
    ensures WrappingAdd(a % 65536, b % 65536) == (a + b) % 65536
    ensures WrappingSub(a % 65536, b % 65536) == (a - b) % 65536
  {
    var (qa, ra, qb, rb) := (a / 65536, a % 65536, b / 65536, b % 65536);
    var sum, diff := WrappingAdd(ra, rb), WrappingSub(ra, rb);
    Remainder(a + b, qa + qb + (ra + rb) / 65536, sum);
    Remainder(a - b, qa - qb + (ra - rb) / 65536, diff);
  }

  lemma SmallRemainder(d: u16)
    ensures d % 65536 == d
  {
  }

  /** Stepping a remainder by a word steps the number it stands for. */
  lemma WrappingSteps(a: int, i: u16)
    ensures WrappingAdd(a % 65536, i) == (a + i) % 65536
    ensures WrappingSub(a % 65536, i) == (a - i) % 65536
  {
    SmallRemainder(i);
    WrappingTracks(a, i);
  }

  /** Within half a cycle the half-range order is the order of the numbers. */
  lemma NearOrder(a: int, b: int)
    requires b <= a < b + 32768
    ensures SequenceGreaterThan(a % 65536, b % 65536) <==> a > b
    ensures !SequenceGreaterThan(b % 65536, a % 65536)
  {
    DistanceAhead(a % 65536, b);
  }

  /** The distance ahead of `b` at which the remainder `s` next occurs. */
  lemma DistanceAhead(s: u16, b: int)
    ensures var c := b % 65536; (s - b) % 65536 == if s >= c then s - c else s - c + 65536
  {
  }
}
