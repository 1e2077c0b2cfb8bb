/** Go's `time.Duration`: a signed 64-bit count of nanoseconds whose products wrap. */
module Durations {
  const SECOND: int := 1_000_000_000
  const HOUR: int := 3600 * SECOND
  const TWO_63: int := 0x8000_0000_0000_0000
  const TWO_64: int := 0x1_0000_0000_0000_0000

  type int64 = x: int | -0x8000_0000_0000_0000 <= x < 0x8000_0000_0000_0000

  /** The int64 that the machine product or sum `x` leaves behind. */
  function Wrap(x: int): int64 {
    (x + TWO_63) % TWO_64 - TWO_63
  }

  /** `time.Duration(n) * time.Second`. */
  function Seconds(n: int64): int64 {
    Wrap(n * SECOND)
  }

  /** `t.Sub(u)`: the difference, saturated at the ends of the int64 range. */
  function Sub(t: int, u: int): int64 {
    if t - u >= TWO_63 then TWO_63 - 1
    else if t - u < -TWO_63 then -TWO_63
    else t - u
  }

  /** A time as a certificate carries it: whole seconds, the rest dropped. */
  function Truncate(t: int): int {
    t / SECOND * SECOND
  }

  /** Dropping the fraction keeps order and loses less than a second. */
  lemma TruncateBounds(t: int, u: int)
    ensures Truncate(t) <= t < Truncate(t) + SECOND
    ensures t <= u ==> Truncate(t) <= Truncate(u)
    ensures Truncate(t + SECOND) == Truncate(t) + SECOND
  {
    assert (t + SECOND) / SECOND == t / SECOND + 1;
  }

  /** Whole-second shifts pass through truncation. */
  lemma {:induction false} TruncateShift(t: int, k: nat)
    ensures Truncate(t + k * SECOND) == Truncate(t) + k * SECOND
  {
    if k > 0 {
      TruncateShift(t, k - 1);
      TruncateBounds(t + (k - 1) * SECOND, t);
    }
  }

  /** A window's certificate length: within a second of the asked length, never above a
      whole-second ceiling, exact on whole seconds, and empty just when the window does not
      reach the next whole second. */
  lemma TruncatedWindow(t: int, d: int, max: nat)
    requires 0 < d <= max * SECOND
    ensures d - SECOND < Truncate(t + d) - Truncate(t) < d + SECOND
    ensures 0 <= Truncate(t + d) - Truncate(t) <= max * SECOND
    ensures d % SECOND == 0 ==> Truncate(t + d) - Truncate(t) == d
    ensures Truncate(t + d) == Truncate(t) <==> t % SECOND + d < SECOND
  {
    TruncateBounds(t, t + d);
    TruncateBounds(t + d, t + max * SECOND);
    TruncateShift(t, max);
    if d % SECOND == 0 {
      TruncateShift(t, d / SECOND);
    }
  }
}
