/**
 * Rust's `u64` range and saturating subtraction, and facts about Euclidean
 * division that the solver does not find on its own.
 */
module Arith {

  /** 2^64: `u64` arithmetic that wraps around is arithmetic modulo this. */
  const U64: nat := 0x1_0000_0000_0000_0000
  const U64_MAX: nat := U64 - 1

  /** `u64::saturating_sub`, and `Instant`/`Duration` subtraction that saturates at zero. */
  function SatSub(a: nat, b: nat): (r: nat)
    ensures a >= b ==> r + b == a
    ensures a < b ==> r == 0
  {
    if a >= b then a - b else 0
  }

  lemma MulAtLeast(a: int, n: int)
    requires a >= 1 && n > 0
    ensures a * n >= n
  {
    var b := a - 1;
    assert a * n == b * n + n;
    assert b * n >= 0;
  }

  /** Quotient and remainder are determined by `x == q * n + r` with `0 <= r < n`. */
  lemma DivModUnique(x: int, q: int, r: int, n: int)
    requires n > 0 && 0 <= r < n && x == q * n + r
    ensures x % n == r && x / n == q
  {
    var q', r' := x / n, x % n;
    assert x == q' * n + r';
    assert (q - q') * n == r' - r;
    if q > q' { MulAtLeast(q - q', n); }
    if q < q' { MulAtLeast(q' - q, n); }
  }

  /** A quotient is at most `c` when the dividend is at most `c` times the divisor. */
  lemma DivAtMost(x: nat, c: nat, d: nat)
    requires d > 0 && x <= c * d
    ensures x / d <= c
  {
  }

  /** Dividing twice is dividing by the product. */
  lemma DivDiv(x: nat, a: nat, b: nat)
    requires a > 0 && b > 0
    ensures x / a / b == x / (a * b)
  {
    var q1, r1 := x / a, x % a;
    var q2, r2 := q1 / b, q1 % b;
    assert x == q1 * a + r1;
    assert q1 == q2 * b + r2;
    Regroup(q2, b, r2, a, r1);
    RemainderBelow(r2, a, r1, b);
    DivModUnique(x, q2, r2 * a + r1, a * b);
  }

  lemma Regroup(q: int, b: int, r: int, a: int, s: int)
    ensures (q * b + r) * a + s == q * (a * b) + (r * a + s)
  {
  }

  lemma RemainderBelow(r2: nat, a: nat, r1: nat, b: nat)
    requires r2 < b && r1 < a
    ensures r2 * a + r1 < a * b
  {
    assert r2 * a <= (b - 1) * a;
    assert (b - 1) * a == a * b - a;
  }

  /** The quotient rounded down: `d` times it is at most `x`, and `d` times its successor exceeds `x`. */
  lemma DivBounds(x: nat, d: nat)
    requires d > 0
    ensures (x / d) * d <= x < (x / d + 1) * d
  {
    var q, r := x / d, x % d;
    assert x == q * d + r;
    assert (q + 1) * d == q * d + d;
  }

  /** A quotient is below `c` when the dividend is below `c` times the divisor. */
  lemma DivBelow(x: nat, c: nat, d: nat)
    requires d > 0 && x < c * d
    ensures x / d < c
  {
  }

  /** Reducing the left operand of a sum first does not change the sum's remainder. */
  lemma ModAddLeft(x: nat, y: nat, n: nat)
    requires n > 0
    ensures (x % n + y) % n == (x + y) % n
  {
    var q, r := x / n, x % n;
    var q2, r2 := (r + y) / n, (r + y) % n;
    assert x == q * n + r;
    assert r + y == q2 * n + r2;
    assert x + y == (q + q2) * n + r2;
    DivModUnique(x + y, q + q2, r2, n);
  }
}
