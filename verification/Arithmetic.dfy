/** Power-of-two sizes, bit masks and the modular facts that the ring buffers rest on. */
module Arithmetic {

  datatype Option<+T> = None | Some(value: T)

  predicate IsPowerOfTwo(n: nat) {
    n == 1 || (n > 0 && n % 2 == 0 && IsPowerOfTwo(n / 2))
  }

  function Min(a: int, b: int): int {
    if a <= b then a else b
  }

  function Max(a: int, b: int): int {
    if a <= b then b else a
  }

  /** The slot of number `u` in a ring of `n` slots: `u % n`, by stepping whole laps. */
  function SlotOf(u: int, n: nat): (i: nat)
    requires n > 0
    ensures i < n
    decreases u < 0, if u < 0 then -u else u
  {
    if u < 0 then SlotOf(u + n, n) else if u < n then u else SlotOf(u - n, n)
  }

  lemma {:induction false} SlotIsMod(u: int, n: nat)
    requires n > 0
    ensures SlotOf(u, n) == u % n
    decreases u < 0, if u < 0 then -u else u
  {
    if u < 0 {
      SlotIsMod(u + n, n);
      ModIsUnique(u, (u + n) / n - 1, n, (u + n) % n);
    } else if u < n {
      ModIsUnique(u, 0, n, u);
    } else {
      SlotIsMod(u - n, n);
      ModIsUnique(u, (u - n) / n + 1, n, (u - n) % n);
    }
  }

  lemma ModIsUnique(a: int, q: int, n: int, r: int)
    requires 0 <= r < n && a == q * n + r
    ensures a % n == r && a / n == q
  {
    MultiplesAreFar(a / n - q, n);
    assert (a / n - q) * n == r - a % n;
  }

  lemma MultiplesAreFar(d: int, n: int)
    requires n > 0
    ensures d > 0 ==> d * n >= n
    ensures d < 0 ==> d * n <= -n
  {
  }

  lemma DoubleMod(a: nat, m: nat)
    requires m > 0
    ensures a % (2 * m) == a % 2 + 2 * ((a / 2) % m)
  {
    var h := a / 2;
    assert h == (h / m) * m + h % m;
    assert (h / m) * (2 * m) == 2 * ((h / m) * m);
    ModIsUnique(a, h / m, 2 * m, a % 2 + 2 * (h % m));
  }

  /** A remainder survives an outer remainder by any multiple of the modulus. */
  lemma ModOfMod(a: int, n: int, k: int)
    requires n > 0 && k > 0
    ensures (n * k) > 0 && (a % (n * k)) % n == a % n
  {
    assert n * k > 0;
    var r := a % (n * k);
    var q := a / (n * k);
    assert a == (q * k + r / n) * n + r % n by {
      assert a == q * (n * k) + r;
      assert q * (n * k) == (q * k) * n;
      assert r == (r / n) * n + r % n;
    }
    ModIsUnique(a, q * k + r / n, n, r % n);
  }

  /** A power of two divides every larger one. */
  lemma {:induction false} PowersOfTwoDivide(n: nat, m: nat) returns (k: nat)
    requires IsPowerOfTwo(n) && IsPowerOfTwo(m) && n <= m
    ensures k > 0 && n * k == m
  {
    if n == 1 {
      k := m;
    } else {
      k := PowersOfTwoDivide(n / 2, m / 2);
      assert n * k == 2 * ((n / 2) * k);
    }
  }

  lemma DoubledPower(n: nat)
    requires IsPowerOfTwo(n)
    ensures IsPowerOfTwo(2 * n)
  {
  }

  lemma {:induction false} PowersMultiply(a: nat, b: nat)
    requires IsPowerOfTwo(a) && IsPowerOfTwo(b)
    ensures IsPowerOfTwo(a * b)
  {
    if a == 1 {
      assert a * b == b;
    } else {
      PowersMultiply(a / 2, b);
      assert a * b == 2 * ((a / 2) * b);
      DoubledPower((a / 2) * b);
    }
  }

  lemma WordSizesArePowersOfTwo()
    ensures IsPowerOfTwo(65536) && IsPowerOfTwo(0x1_0000_0000_0000_0000)
  {
    assert IsPowerOfTwo(4);
    PowersMultiply(4, 4);
    PowersMultiply(16, 16);
    PowersMultiply(256, 256);
    PowersMultiply(65536, 65536);
    PowersMultiply(0x1_0000_0000, 0x1_0000_0000);
  }

  lemma WrapKeepsSlot(a: int, n: nat, m: nat)
    requires IsPowerOfTwo(n) && IsPowerOfTwo(m) && n <= m
    ensures SlotOf(a % m, n) == SlotOf(a, n)
  {
    var k := PowersOfTwoDivide(n, m);
    ModOfMod(a, n, k);
    SlotIsMod(a, n);
    SlotIsMod(a % m, n);
  }

  lemma RemaindersDiffer(a: int, b: int, n: int)
    requires a < b < a + n
    ensures a % n != b % n
  {
    MultiplesAreFar(b / n - a / n, n);
    assert (b / n - a / n) * n == (b - a) - (b % n - a % n);
  }

  /** Two numbers less than `n` apart never share a slot of a ring of size `n`. */
  lemma SlotsDiffer(a: int, b: int, n: int)
    requires a < b < a + n
    ensures SlotOf(a, n) != SlotOf(b, n)
  {
    SlotIsMod(a, n);
    SlotIsMod(b, n);
    RemaindersDiffer(a, b, n);
  }

  lemma NextLap(a: int, n: int)
    requires n > 0
    ensures SlotOf(a + n, n) == SlotOf(a, n)
  {
    SlotIsMod(a, n);
    SlotIsMod(a + n, n);
    ModIsUnique(a + n, a / n + 1, n, a % n);
  }
}
