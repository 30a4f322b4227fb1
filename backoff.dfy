/** compute_backoff: an exponential retry delay, clamped to a maximum and
    scaled by a random jitter factor. The random draw is a parameter `r` in
    [0, 1), so the calculation is a pure function of its inputs. */
module Backoff {

  /** Defaults of the configuration the delay is computed from. */
  const DefaultBaseBackoff: real := 1.0
  const DefaultMaxBackoff: real := 12.0

  /** Jitter band: the factor is 0.7 + 0.6 * r. */
  const JitterLow: real := 0.7
  const JitterSpan: real := 0.6

  /** `2 ** attempt` for any integer attempt; a negative exponent gives a
      fraction, as integer powers with negative exponents do in the source. */
  function Pow2(n: int): (p: real)
    ensures p > 0.0
    decreases if n >= 0 then n else -n
  {
    if n == 0 then 1.0
    else if n > 0 then 2.0 * Pow2(n - 1)
    else Pow2(n + 1) / 2.0
  }

  lemma Pow2Step(n: int)
    ensures Pow2(n + 1) == 2.0 * Pow2(n)
  {
  }

  lemma {:induction false} Pow2Monotone(a: int, b: int)
    requires a <= b
    ensures Pow2(a) <= Pow2(b)
    decreases b - a
  {
    if a < b {
      Pow2Monotone(a, b - 1);
      Pow2Step(b - 1);
    }
  }

  /** The doubling outgrows every bound: 2^n > n. */
  lemma {:induction false} Pow2Unbounded(n: nat)
    ensures Pow2(n) >= n as real + 1.0
  {
    if n > 0 {
      Pow2Unbounded(n - 1);
    }
  }

  /** The deterministic delay before jitter: base * 2^attempt, clamped to
      maxBackoff (with the tie going to the exact value, as `min` does). */
  function Raw(base: real, maxBackoff: real, attempt: int): (raw: real)
    ensures raw <= maxBackoff
    ensures base * Pow2(attempt) <= maxBackoff ==> raw == base * Pow2(attempt)
    ensures base * Pow2(attempt) > maxBackoff ==> raw == maxBackoff
  {
    var exact := base * Pow2(attempt);
    if maxBackoff < exact then maxBackoff else exact
  }

  /** The jitter factor drawn from `r`. */
  function Jitter(r: real): (j: real)
    requires 0.0 <= r < 1.0
    ensures JitterLow <= j < JitterLow + JitterSpan
  {
    JitterLow + r * JitterSpan
  }

  /** The delay before retry number `attempt`: within the jitter band around
      the clamped value, and never above 1.3 times the maximum. */
  function ComputeBackoff(base: real, maxBackoff: real, attempt: int, r: real): (d: real)
    requires 0.0 <= r < 1.0
    ensures var raw := Raw(base, maxBackoff, attempt);
            0.0 <= raw ==> 0.7 * raw <= d <= 1.3 * raw && d <= 1.3 * maxBackoff
    ensures var raw := Raw(base, maxBackoff, attempt);
            0.0 < raw ==> d < 1.3 * raw
  {
    var raw := Raw(base, maxBackoff, attempt);
    var j := Jitter(r);
    assert 0.0 <= raw ==> raw * 0.7 <= raw * j <= raw * 1.3;
    assert 0.0 < raw ==> raw * j < raw * 1.3;
    raw * j
  }

  /** Scaling by a non-negative factor preserves order. */
  lemma ScaledOrder(x: real, y: real, k: real, xk: real, yk: real)
    requires x <= y && 0.0 <= k && xk == x * k && yk == y * k
    ensures xk <= yk
  {
  }

  /** For a non-negative base the clamped delay never shrinks as the attempt
      number grows. */
  lemma RawMonotone(base: real, maxBackoff: real, a: int, b: int)
    requires 0.0 <= base && a <= b
    ensures Raw(base, maxBackoff, a) <= Raw(base, maxBackoff, b)
  {
    Pow2Monotone(a, b);
    assert base * Pow2(a) <= base * Pow2(b);
  }

  /** With the same draw, a later attempt never waits less. */
  lemma BackoffMonotone(base: real, maxBackoff: real, a: int, b: int, r: real)
    requires 0.0 <= base && a <= b && 0.0 <= r < 1.0
    ensures ComputeBackoff(base, maxBackoff, a, r) <= ComputeBackoff(base, maxBackoff, b, r)
  {
    RawMonotone(base, maxBackoff, a, b);
    var j := Jitter(r);
    var ra, rb := Raw(base, maxBackoff, a), Raw(base, maxBackoff, b);
    var da, db := ComputeBackoff(base, maxBackoff, a, r), ComputeBackoff(base, maxBackoff, b, r);
    ScaledOrder(ra, rb, j, da, db);
  }

  /** An attempt number from which the exact value has reached the clamp. */
  function SaturationAttempt(base: real, maxBackoff: real): (k: nat)
    requires base > 0.0
    ensures base * Pow2(k) >= maxBackoff
  {
    var ratio := maxBackoff / base;
    var k: nat := if ratio <= 0.0 then 0 else ratio.Floor + 1;
    Pow2Unbounded(k);
    assert Pow2(k) >= ratio;
    assert base * Pow2(k) >= base * ratio;
    k
  }

  /** Saturation: from the saturation point on, the clamped delay is exactly
      maxBackoff, however large the attempt number grows. */
  lemma RawSaturates(base: real, maxBackoff: real, attempt: int)
    requires base > 0.0
    requires attempt >= SaturationAttempt(base, maxBackoff)
    ensures Raw(base, maxBackoff, attempt) == maxBackoff
  {
    var k := SaturationAttempt(base, maxBackoff);
    Pow2Monotone(k, attempt);
    assert base * Pow2(k) <= base * Pow2(attempt);
  }

  /** With the default configuration the delay saturates from the fourth
      retry on (2^4 = 16 > 12) and stays in [8.4, 15.6). */
  lemma DefaultsSaturateFromAttemptFour(attempt: int, r: real)
    requires attempt >= 4 && 0.0 <= r < 1.0
    ensures Raw(DefaultBaseBackoff, DefaultMaxBackoff, attempt) == DefaultMaxBackoff
    ensures 8.4 <= ComputeBackoff(DefaultBaseBackoff, DefaultMaxBackoff, attempt, r) < 15.6
  {
    assert Pow2(4) == 16.0;
    Pow2Monotone(4, attempt);
  }

  // ---------------------------------------------------------------------
  // The calculation as written multiplies a float by the integer
  // 2 ** attempt before clamping. Converting an integer of 2^1024 or more
  // to a float raises OverflowError, so every attempt from 1024 on fails
  // although the clamp would have produced maxBackoff. A negative exponent
  // makes Python compute the power in floating point, converting the
  // exponent itself to a float first; that conversion raises OverflowError
  // for exponents too large in magnitude for a double.
  // ---------------------------------------------------------------------

  /** Smallest exponent whose power of two does not fit a double. */
  const FloatExponentLimit: int := 1024

  /** Smallest integer magnitude that rounds (to nearest, ties to even) past
      the largest double: 2^1024 - 2^970, halfway between the largest double
      and 2^1024. */
  const IntToFloatLimit: int := 0xFFFFFFFFFFFFFC00_0000000000000000_0000000000000000_0000000000000000_0000000000000000_0000000000000000_0000000000000000_0000000000000000_0000000000000000_0000000000000000_0000000000000000_0000000000000000_0000000000000000_0000000000000000_0000000000000000_0000000000000000

  datatype Result<T> = Ok(value: T) | OverflowError

  /** compute_backoff as written, with the float conversion of 2 ** attempt
      made explicit. */
  function ComputeBackoffAsWritten(base: real, maxBackoff: real, attempt: int, r: real): (res: Result<real>)
    requires 0.0 <= r < 1.0
    ensures res.OverflowError? <==> attempt >= FloatExponentLimit || attempt <= -IntToFloatLimit
    ensures res.Ok? ==> res.value == ComputeBackoff(base, maxBackoff, attempt, r)
  {
    if attempt >= FloatExponentLimit || attempt <= -IntToFloatLimit then OverflowError
    else Ok(Raw(base, maxBackoff, attempt) * Jitter(r))
  }

  /** The discrepancy: with the default configuration attempt 1024 raises,
      while the clamped delay is defined and equal to the maximum. */
  lemma AsWrittenOverflowsAfterSaturation()
    ensures ComputeBackoffAsWritten(DefaultBaseBackoff, DefaultMaxBackoff, 1024, 0.0) == OverflowError
    ensures ComputeBackoff(DefaultBaseBackoff, DefaultMaxBackoff, 1024, 0.0) == 0.7 * DefaultMaxBackoff
  {
    DefaultsSaturateFromAttemptFour(1024, 0.0);
  }
}
