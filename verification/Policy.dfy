/**
 Retry delays and forget rules: functions of an address's history and the time. Times are whole
 seconds, `0` meaning never.
 */
module Policy {
  import opened Basics

  const SHORT_SESSION := 31
  const MAX_RECONNECTS := 25
  const U32_MAX := 0xFFFF_FFFF
  const U8_MAX := 255
  const DAY := 24 * 60 * 60

  const MANUAL_RETRY := 60
  const OTHER_CHAIN := DAY
  const VIOLATION := 60 * 60
  const STABLE_RECONNECT := 5
  const PROXY_UNREACHABLE := 30
  const NETWORK_UNREACHABLE := 60 * 60
  const NETWORK_DISABLED := DAY
  const EVICTION_BASE := 60
  const EVICTION_CAP := 60 * 60
  const WAS_GOOD_BASE := 60
  const WAS_GOOD_CAP := 6 * 60 * 60
  const BAD_BASE := 60 * 60
  const BAD_CAP := 7 * DAY
  const WAS_GOOD_FORGET_AFTER := 30 * DAY
  const BAD_FORGET_FAILURES_IF_STALE := 3
  const BAD_FORGET_FAILURES_ALWAYS := 5
  const BAD_ANNOUNCE_GRACE := 30 * DAY

  datatype Origin = Manual | Gossip
  datatype Class = Unknown | Good | WasGood | Bad
  datatype OurFault = NetworkUnreachable | ProxyUnreachable | NetworkDisabled
  datatype Outcome =
    | Failed
    | Disconnected(uptime: nat, silent: bool)
    | OtherChain
    | Violated
    | OurFaultOutcome(fault: OurFault)
  {
    predicate IsShortSession() { Disconnected? && (silent || uptime < SHORT_SESSION) }
  }

  function Classify(tried: bool, lastSuccess: nat, lastAttemptFailed: bool): Class {
    if lastSuccess > 0 then if lastAttemptFailed then WasGood else Good
    else if tried then Bad else Unknown
  }

  function SaturatingPow(base: nat, e: nat): nat {
    if e == 0 then 1 else Min(base * SaturatingPow(base, e - 1), U32_MAX)
  }

  /** `base * factor^(n-1)` in saturating 32-bit arithmetic, at most `cap`. */
  function ExpBackoff(base: nat, factor: nat, n: nat, cap: nat): nat {
    Min(Min(base * SaturatingPow(factor, Monus(n, 1)), U32_MAX), cap)
  }

  function RetryDelay(outcome: Outcome, origin: Origin, connectedBefore: bool, failures: nat, shortSessions: nat): nat {
    if outcome.OtherChain? then OTHER_CHAIN
    else if origin.Manual? then MANUAL_RETRY
    else match outcome
      case OtherChain => OTHER_CHAIN
      case Violated => VIOLATION
      case OurFaultOutcome(fault) =>
        (match fault
         case ProxyUnreachable => PROXY_UNREACHABLE
         case NetworkUnreachable => NETWORK_UNREACHABLE
         case NetworkDisabled => NETWORK_DISABLED)
      case Disconnected(_, _) =>
        if outcome.IsShortSession() then ExpBackoff(EVICTION_BASE, 2, shortSessions, EVICTION_CAP) else STABLE_RECONNECT
      case Failed =>
        if connectedBefore then ExpBackoff(WAS_GOOD_BASE, 2, failures, WAS_GOOD_CAP)
        else ExpBackoff(BAD_BASE, 4, failures, BAD_CAP)
  }

  /** A delay spread by a tenth either way; `r` is drawn from `[0, 1)`. */
  function Jitter(delay: nat, r: real): nat
    requires 0.0 <= r < 1.0
  {
    var spread := delay as real / 10.0 * (2.0 * r - 1.0);
    var rounded := (delay as real + spread + 0.5).Floor;
    if rounded < 1 then 1 else rounded
  }

  predicate ShouldForget(now: nat, origin: Origin, lastSuccess: nat, lastAnnounced: nat, failures: nat) {
    if origin.Manual? then false
    else if lastSuccess > 0 then Monus(now, lastSuccess) > WAS_GOOD_FORGET_AFTER
    else if failures >= BAD_FORGET_FAILURES_ALWAYS then true
    else failures >= BAD_FORGET_FAILURES_IF_STALE && Monus(now, lastAnnounced) > BAD_ANNOUNCE_GRACE
  }

  function Pow(base: nat, e: nat): nat { if e == 0 then 1 else base * Pow(base, e - 1) }

  /** Saturating before a product does not show after it. */
  lemma SaturatedProduct(base: nat, p: nat, cap: nat)
    requires base >= 1
    ensures Min(base * Min(p, cap), cap) == Min(base * p, cap) && base * p >= p
  {
    if p > cap {
      Grows(base, cap);
      Grows(base, p);
    } else {
      Grows(base, p);
    }
  }

  lemma Grows(base: nat, p: nat)
    requires base >= 1
    ensures base * p >= p
  {}

  lemma {:induction false} SaturatingPowIsPow(base: nat, e: nat)
    requires base >= 1
    ensures SaturatingPow(base, e) == Min(Pow(base, e), U32_MAX) && Pow(base, e) >= 1
  {
    if e > 0 {
      SaturatingPowIsPow(base, e - 1);
      SaturatedProduct(base, Pow(base, e - 1), U32_MAX);
    }
  }

  /** The saturation never shows: below the cap a backoff is the exact power. */
  lemma BackoffIsExact(base: nat, factor: nat, n: nat, cap: nat)
    requires base >= 1 && factor >= 1 && cap <= U32_MAX
    ensures ExpBackoff(base, factor, n, cap) == Min(base * Pow(factor, Monus(n, 1)), cap)
  {
    SaturatingPowIsPow(factor, Monus(n, 1));
    SaturatedProduct(base, Pow(factor, Monus(n, 1)), U32_MAX);
  }

  lemma {:induction false} PowOfTwo(e: nat)
    ensures Pow(2, e) == Pow2(e) && Pow(4, e) == Pow2(2 * e)
  {
    if e > 0 {
      PowOfTwo(e - 1);
      assert Pow2(2 * e) == 2 * Pow2(2 * e - 1) == 4 * Pow2(2 * e - 2);
    }
  }

  /** A doubling backoff, and one that doubles twice. */
  lemma BackoffDoubles(base: nat, n: nat, cap: nat)
    requires base >= 1 && n >= 1 && cap <= U32_MAX
    ensures ExpBackoff(base, 2, n, cap) == Min(base * Pow2(n - 1), cap)
    ensures ExpBackoff(base, 4, n, cap) == Min(base * Pow2(2 * (n - 1)), cap)
  {
    BackoffIsExact(base, 2, n, cap);
    BackoffIsExact(base, 4, n, cap);
    PowOfTwo(n - 1);
  }

  /** A spread delay is within a tenth, and rounding, of the delay. */
  lemma JitterIsClose(delay: nat, r: real)
    requires delay >= 1 && 0.0 <= r < 1.0
    ensures Jitter(delay, r) >= 1 && 9 * delay - 5 <= 10 * Jitter(delay, r) <= 11 * delay + 5
  {
    var d := delay as real;
    var spread := d / 10.0 * (2.0 * r - 1.0);
    assert -(d / 10.0) <= spread <= d / 10.0 by {
      assert d / 10.0 * (2.0 * r - 1.0) <= d / 10.0 * 1.0;
      assert d / 10.0 * (2.0 * r - 1.0) >= d / 10.0 * -1.0;
    }
    var rounded := (d + spread + 0.5).Floor;
    assert d + spread - 0.5 <= rounded as real <= d + spread + 0.5;
  }

  lemma Fraction(y: real, d: real)
    requires -d < y < d
    ensures -1.0 < y / d < 1.0 && d / 10.0 * (y / d) == y / 10.0
  {
    var x := y / d;
    assert x * d == y;
    assert x >= 1.0 ==> x * d >= d;
    assert x <= -1.0 ==> x * d <= -d;
    assert d / 10.0 * x == x * d / 10.0;
  }

  /** And every whole second nearer than a tenth is drawn. */
  lemma JitterReaches(delay: nat, m: nat) returns (r: real)
    requires 9 * delay < 10 * m < 11 * delay
    ensures 0.0 <= r < 1.0 && Jitter(delay, r) == m
  {
    var y := 10.0 * (m as real - delay as real);
    Fraction(y, delay as real);
    r := (y / delay as real + 1.0) / 2.0;
    assert 2.0 * r - 1.0 == y / delay as real;
  }
}
