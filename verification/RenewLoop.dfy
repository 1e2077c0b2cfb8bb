/** The agent's renewal loop against a certd that is up or down: signing calls take no time, the
    renewal fraction is an exact rational, and the loop aborts on a failed attempt once the
    identity it authenticates with has expired. */
module RenewLoop {
  datatype Config = Config(num: int, den: int, minInterval: int, backoff: int) {
    /** A fraction strictly between 0 and 1, as `New` demands, and a positive retry backoff. */
    predicate Valid() {
      0 < num < den && 0 < backoff
    }
  }

  /** Waiting to attempt at `now` while holding a certificate good until `validBefore`. */
  datatype Loop = Running(now: int, validBefore: int) | Aborted(now: int)

  /** `nextRenewalDelay`, floored at the minimum interval. */
  function NextRenewalDelay(cfg: Config, validAfter: int, validBefore: int, now: int): int
    requires cfg.Valid()
  {
    var renewAfter := (validBefore - validAfter) * cfg.num / cfg.den;
    var wait := validAfter + renewAfter - now;
    if wait < cfg.minInterval then cfg.minInterval else wait
  }

  /** One attempt and the wait after it. `up(t)` says whether certd answers at `t`, and `life(t)`
      is the lifetime it grants then. */
  function Iterate(cfg: Config, up: int -> bool, life: int -> int, s: Loop): Loop
    requires cfg.Valid()
  {
    match s
    case Aborted(_) => s
    case Running(now, validBefore) =>
      if up(now) then
        Running(now + NextRenewalDelay(cfg, now, now + life(now), now), now + life(now))
      else if now < validBefore then Running(now + cfg.backoff, validBefore)
      else Aborted(now)
  }

  function After(cfg: Config, up: int -> bool, life: int -> int, s: Loop, n: nat): Loop
    requires cfg.Valid()
    decreases n
  {
    if n == 0 then s else After(cfg, up, life, Iterate(cfg, up, life, s), n - 1)
  }

  lemma {:induction false} AfterLast(cfg: Config, up: int -> bool, life: int -> int, s: Loop, n: nat)
    requires cfg.Valid()
    ensures After(cfg, up, life, s, n + 1) == Iterate(cfg, up, life, After(cfg, up, life, s, n))
    decreases n
  {
    if n > 0 {
      AfterLast(cfg, up, life, Iterate(cfg, up, life, s), n - 1);
    }
  }

  /** `Run`: signs at once and then loops, until an attempt aborts it or its context is cancelled,
      which happens in the wait after attempt `n`. */
  method Run(cfg: Config, up: int -> bool, life: int -> int, start: int, validBefore: int, n: nat)
    returns (s: Loop)
    requires cfg.Valid() && n > 0
    ensures s == After(cfg, up, life, Running(start, validBefore), n)
  {
    var now, expiry := start, validBefore;
    var i := 0;
    while true
      invariant 0 <= i < n
      invariant After(cfg, up, life, Running(start, validBefore), i) == Running(now, expiry)
      decreases n - i
    {
      AfterLast(cfg, up, life, Running(start, validBefore), i);
      var wait;
      if !up(now) {
        if now >= expiry {
          AbortedStays(cfg, up, life, Running(start, validBefore), i + 1, n, now);
          return Aborted(now);
        }
        wait := cfg.backoff;
      } else {
        expiry := now + life(now);
        wait := NextRenewalDelay(cfg, now, expiry, now);
      }
      i := i + 1;
      if i == n {
        return Running(now + wait, expiry);
      }
      now := now + wait;
    }
  }

  lemma {:induction false} AbortedStays(cfg: Config, up: int -> bool, life: int -> int, s: Loop, i: nat, n: nat, at: int)
    requires cfg.Valid() && i <= n && After(cfg, up, life, s, i) == Aborted(at)
    ensures After(cfg, up, life, s, n) == Aborted(at)
    decreases n - i
  {
    if i < n {
      AfterLast(cfg, up, life, s, i);
      AbortedStays(cfg, up, life, s, i + 1, n, at);
    }
  }

  // -------------------------------------------------------------------------------------
  // One outage
  // -------------------------------------------------------------------------------------

  /** `d` after the clock reads `elapsed` into the lifetime, the fraction num/den of it has passed, to
      the last whole unit. */
  predicate AtFraction(cfg: Config, lifetime: int, elapsed: int, d: int) {
    cfg.den * (elapsed + d) <= lifetime * cfg.num < cfg.den * (elapsed + d + 1)
  }

  lemma FloorExact(x: int, den: int, q: int)
    requires 0 < den
    ensures q == x / den <==> den * q <= x < den * (q + 1)
  {
    var p := x / den;
    assert x == den * p + x % den;
    if den * q <= x < den * (q + 1) && q != p {
      if q < p {
        MulMonotone(q + 1, p, den);
      } else {
        MulMonotone(p + 1, q, den);
      }
    }
  }

  /** The wait, whenever the clock reads: until the fraction of the lifetime has passed, or the
      minimum interval if that is longer. */
  lemma DelayExactly(cfg: Config, validAfter: int, validBefore: int, now: int, d: int)
    requires cfg.Valid()
    ensures d == NextRenewalDelay(cfg, validAfter, validBefore, now) <==>
      var lifetime, elapsed := validBefore - validAfter, now - validAfter;
      || (d >= cfg.minInterval && AtFraction(cfg, lifetime, elapsed, d))
      || (d == cfg.minInterval && lifetime * cfg.num < cfg.den * (elapsed + d + 1))
  {
    var lifetime, elapsed := validBefore - validAfter, now - validAfter;
    var q := lifetime * cfg.num / cfg.den;
    FloorExact(lifetime * cfg.num, cfg.den, elapsed + d);
    FloorExact(lifetime * cfg.num, cfg.den, q);
    if d == cfg.minInterval {
      if q <= elapsed + d {
        MulMonotone(q + 1, elapsed + d + 1, cfg.den);
      } else {
        MulMonotone(elapsed + d + 1, q, cfg.den);
      }
    }
  }

  /** The loop gives up exactly at an attempt that fails once the certificate has expired. */
  lemma AbortsExactly(cfg: Config, up: int -> bool, life: int -> int, now: int, validBefore: int)
    requires cfg.Valid()
    ensures
      var next := Iterate(cfg, up, life, Running(now, validBefore));
      && (next.Aborted? <==> !up(now) && now >= validBefore)
      && (next.Running? && !up(now) ==> next == Running(now + cfg.backoff, validBefore))
      && (up(now) ==> next.Running? && next.validBefore == now + life(now) && next.now >= now + cfg.minInterval)
  {
  }

  /** If certd never answers again, the loop retries at the backoff and gives up within one backoff of
      expiry, at the first attempt after it. */
  lemma {:induction false} DeadLoopAborts(cfg: Config, up: int -> bool, life: int -> int, now: int, validBefore: int) returns (n: nat)
    requires cfg.Valid() && forall t :: now <= t ==> !up(t)
    ensures After(cfg, up, life, Running(now, validBefore), n + 1) == Aborted(now + n * cfg.backoff)
    ensures validBefore <= now + n * cfg.backoff && (n > 0 ==> now + n * cfg.backoff < validBefore + cfg.backoff)
    decreases validBefore - now
  {
    if now >= validBefore {
      n := 0;
      assert After(cfg, up, life, Iterate(cfg, up, life, Running(now, validBefore)), 0) == Aborted(now);
    } else {
      var m := DeadLoopAborts(cfg, up, life, now + cfg.backoff, validBefore);
      n := m + 1;
      assert now + cfg.backoff + m * cfg.backoff == now + n * cfg.backoff;
    }
  }

  /** After an issuance the next attempt comes before expiry exactly when the floor between
      renewals is shorter than the lifetime. */
  lemma FirstAttemptBeforeExpiry(cfg: Config, now: int, lifetime: int)
    requires cfg.Valid() && 0 < lifetime
    ensures now + NextRenewalDelay(cfg, now, now + lifetime, now) < now + lifetime <==> cfg.minInterval < lifetime
  {
    FractionShrinks(lifetime, cfg.num, cfg.den);
  }

  lemma FractionShrinks(x: int, num: int, den: int)
    requires 0 < x && 0 < num < den
    ensures x * num / den < x
  {
    var q := x * num / den;
    assert x * num == q * den + x * num % den;
    if q >= x {
      assert q * den >= x * den by { MulMonotone(x, q, den); }
      assert x * den > x * num by { MulStrict(num, den, x); }
      assert false;
    }
  }

  lemma MulMonotone(a: int, b: int, c: int)
    requires a <= b && 0 <= c
    ensures a * c <= b * c
  {
  }

  lemma MulStrict(a: int, b: int, c: int)
    requires a < b && 0 < c
    ensures c * a < c * b
  {
  }

  /** If the first attempt comes before expiry, certd answers every attempt from `recovery` on and
      one backoff still fits before expiry, then the attempts fail at the backoff until one is
      answered, strictly before expiry, and the loop has not aborted. */
  lemma {:induction false} OutageTolerated(cfg: Config, up: int -> bool, life: int -> int, now: int, validBefore: int, recovery: int)
    returns (n: nat)
    requires cfg.Valid() && now < validBefore
    requires recovery + cfg.backoff <= validBefore && forall t :: recovery <= t ==> up(t)
    ensures After(cfg, up, life, Running(now, validBefore), n) == Running(now + n * cfg.backoff, validBefore)
    ensures up(now + n * cfg.backoff) && now + n * cfg.backoff < validBefore
    ensures forall k :: 0 <= k < n ==> !up(now + k * cfg.backoff)
    decreases recovery - now
  {
    if up(now) {
      n := 0;
    } else {
      var m := OutageTolerated(cfg, up, life, now + cfg.backoff, validBefore, recovery);
      n := m + 1;
      assert now + cfg.backoff + m * cfg.backoff == now + n * cfg.backoff;
      forall k | 0 <= k < n ensures !up(now + k * cfg.backoff) {
        if k > 0 {
          assert now + k * cfg.backoff == now + cfg.backoff + (k - 1) * cfg.backoff;
          assert !up(now + cfg.backoff + (k - 1) * cfg.backoff);
        }
      }
    }
  }

  // -------------------------------------------------------------------------------------
  // Any number of outages
  // -------------------------------------------------------------------------------------

  /** certd answers throughout [from, from + length]. */
  ghost predicate UpThrough(up: int -> bool, from: int, length: int) {
    forall t :: from <= t <= from + length ==> up(t)
  }

  /** Wherever time stands, within `outage` begins a stretch of one backoff in which certd answers. */
  ghost predicate Recovers(cfg: Config, up: int -> bool, outage: int) {
    forall t :: RecoversFrom(cfg, up, outage, t)
  }

  ghost predicate RecoversFrom(cfg: Config, up: int -> bool, outage: int, t: int) {
    exists u :: t <= u <= t + outage && UpThrough(up, u, cfg.backoff)
  }

  /** Every lifetime granted leaves room for an outage and a backoff, both after the fraction of it
      that is waited out and after the minimum interval. */
  ghost predicate Slack(cfg: Config, life: int -> int, outage: int) {
    forall t :: RoomIn(cfg, life(t), outage)
  }

  predicate RoomIn(cfg: Config, lifetime: int, outage: int) {
    && cfg.minInterval + outage + cfg.backoff < lifetime
    && lifetime * cfg.num < cfg.den * (lifetime - outage - cfg.backoff)
  }

  /** There is such room exactly when the wait after an issuance, an outage and a backoff together
      come before expiry. */
  lemma RoomExactly(cfg: Config, now: int, lifetime: int, outage: int)
    requires cfg.Valid()
    ensures RoomIn(cfg, lifetime, outage) <==> NextRenewalDelay(cfg, now, now + lifetime, now) + outage + cfg.backoff < lifetime
  {
    var q, room := lifetime * cfg.num / cfg.den, lifetime - outage - cfg.backoff;
    FloorExact(lifetime * cfg.num, cfg.den, q);
    if q < room {
      MulMonotone(q + 1, room, cfg.den);
    } else {
      MulMonotone(room, q, cfg.den);
    }
  }

  /** An answering stretch still lies ahead that ends before the certificate does. */
  ghost predicate WillRenew(cfg: Config, up: int -> bool, s: Loop) {
    s.Running? && exists u :: s.now <= u + cfg.backoff < s.validBefore && UpThrough(up, u, cfg.backoff)
  }

  lemma IterateKeepsRenewing(cfg: Config, up: int -> bool, life: int -> int, outage: int, s: Loop)
    requires cfg.Valid() && Recovers(cfg, up, outage) && Slack(cfg, life, outage) && WillRenew(cfg, up, s)
    ensures WillRenew(cfg, up, Iterate(cfg, up, life, s))
  {
    var u :| s.now <= u + cfg.backoff < s.validBefore && UpThrough(up, u, cfg.backoff);
    var s' := Iterate(cfg, up, life, s);
    if up(s.now) {
      assert RoomIn(cfg, life(s.now), outage);
      RoomExactly(cfg, s.now, life(s.now), outage);
      assert RecoversFrom(cfg, up, outage, s'.now);
      var v :| s'.now <= v <= s'.now + outage && UpThrough(up, v, cfg.backoff);
      assert s'.now <= v + cfg.backoff < s'.validBefore;
    } else {
      assert s.now < u;
      assert s'.now <= u + cfg.backoff < s'.validBefore;
    }
  }

  /** With outages bounded by the slack in every lifetime, the loop runs for ever: however many
      attempts are made, it has not aborted and the certificate it holds has not expired. */
  lemma {:induction false} NeverLapses(cfg: Config, up: int -> bool, life: int -> int, outage: int, s: Loop, n: nat)
    requires cfg.Valid() && Recovers(cfg, up, outage) && Slack(cfg, life, outage) && WillRenew(cfg, up, s)
    ensures
      var s' := After(cfg, up, life, s, n);
      s'.Running? && s'.now < s'.validBefore && WillRenew(cfg, up, s')
    decreases n
  {
    if n == 0 {
      var u :| s.now <= u + cfg.backoff < s.validBefore && UpThrough(up, u, cfg.backoff);
    } else {
      IterateKeepsRenewing(cfg, up, life, outage, s);
      NeverLapses(cfg, up, life, outage, Iterate(cfg, up, life, s), n - 1);
    }
  }

  /** The first attempt after any issuance starts such a run. */
  lemma IssuanceStartsRun(cfg: Config, up: int -> bool, life: int -> int, outage: int, now: int)
    requires cfg.Valid() && Recovers(cfg, up, outage) && Slack(cfg, life, outage)
    ensures WillRenew(cfg, up, Running(now + NextRenewalDelay(cfg, now, now + life(now), now), now + life(now)))
  {
    var first := now + NextRenewalDelay(cfg, now, now + life(now), now);
    assert RoomIn(cfg, life(now), outage);
    RoomExactly(cfg, now, life(now), outage);
    assert RecoversFrom(cfg, up, outage, first);
    var v :| first <= v <= first + outage && UpThrough(up, v, cfg.backoff);
    assert first <= v + cfg.backoff < now + life(now);
  }
}
