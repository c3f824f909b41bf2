/** Facts about Euclidean division with a variable divisor, and small arithmetic shared by the other modules. */
module Arithmetic {

  function Min(a: int, b: int): int {
    if a < b then a else b
  }

  function Max(a: int, b: int): int {
    if a < b then b else a
  }

  function Pow2(k: nat): nat {
    if k == 0 then 1 else 2 * Pow2(k - 1)
  }

  lemma MulAtLeast(k: nat, n: nat)
    requires k > 0
    ensures k * n >= n
  {
    assert k * n == (k - 1) * n + n;
  }

  /** Quotient and remainder are determined by the division equation. */
  lemma DivModUnique(x: int, n: nat, q: int, r: nat)
    requires n > 0 && r < n && x == q * n + r
    ensures x / n == q && x % n == r
  {
    var q', r' := x / n, x % n;
    assert (q - q') * n == r' - r by {
      assert x == q' * n + r';
    }
    if q > q' {
      MulAtLeast(q - q', n);
    } else if q < q' {
      MulAtLeast(q' - q, n);
    }
  }

  lemma SmallMod(x: nat, n: nat)
    requires x < n
    ensures x % n == x
  {
    DivModUnique(x, n, 0, x);
  }

  /** Adding a multiple of the divisor does not change the remainder. */
  lemma ModShift(x: int, n: nat, k: int)
    requires n > 0
    ensures (x + k * n) % n == x % n
  {
    DivModUnique(x + k * n, n, x / n + k, x % n);
  }

  lemma ModAdd(a: int, b: int, n: nat)
    requires n > 0
    ensures (a + b) % n == (a % n + b % n) % n
  {
    assert a + b == (a % n + b % n) + (a / n + b / n) * n;
    ModShift(a % n + b % n, n, a / n + b / n);
  }

  /** Two distinct positions less than one lap apart fall on distinct ring offsets. */
  lemma ModDistinct(a: int, b: int, n: nat)
    requires n > 0 && a < b < a + n
    ensures a % n != b % n
  {
    if a % n == b % n {
      var laps := b / n - a / n;
      assert b - a == laps * n;
      if laps > 0 {
        MulAtLeast(laps, n);
      }
    }
  }

  /** Walking within one lap: the offset is the start offset plus the distance, minus one lap if it passes the end. */
  lemma ModStep(a: int, i: nat, n: nat)
    requires n > 0 && i < n
    ensures (a + i) % n == if a % n + i < n then a % n + i else a % n + i - n
  {
    if a % n + i < n {
      DivModUnique(a + i, n, a / n, a % n + i);
    } else {
      DivModUnique(a + i, n, a / n + 1, a % n + i - n);
    }
  }

  /** A power of two has no odd divisor but one. */
  lemma {:induction false} OddDivisorOfPow2(q: nat, e: nat, k: nat)
    requires (2 * q + 1) * e == Pow2(k)
    ensures q == 0
  {
    if k == 0 {
      assert (2 * q + 1) * e == 2 * (q * e) + e;
      if q > 0 {
        MulAtLeast(q, e);
      }
    } else {
      var h := EvenFactor(q, e, Pow2(k - 1));
      OddDivisorOfPow2(q, h, k - 1);
    }
  }

  /** If an odd multiple of e is even, then so is e. */
  lemma EvenFactor(q: nat, e: nat, half: nat) returns (h: nat)
    requires (2 * q + 1) * e == 2 * half
    ensures e == 2 * h && (2 * q + 1) * h == half
  {
    assert (2 * q + 1) * e == 2 * (q * e) + e;
    h := half - q * e;
    assert (2 * q + 1) * (2 * h) == 2 * ((2 * q + 1) * h);
  }
}
