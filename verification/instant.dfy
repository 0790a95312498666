/**
 * The browser `Instant`: a point in time as a `u128` count of milliseconds
 * since the Unix epoch, with arithmetic against `std::time::Duration`.
 * Every operation reads a duration through `as_millis`, so sub-millisecond
 * parts never reach an instant. A Rust `expect` that panics becomes a
 * precondition; reading the clock (`now`) and the JavaScript timers are
 * left to the caller, who passes the current instant in.
 */
module Timer {
  import opened Wrappers

  const U32_MAX: int := 0xFFFF_FFFF
  const U64_MAX: int := 0xFFFF_FFFF_FFFF_FFFF
  /** 2^128: one past the largest `u128`. */
  const U128_LIMIT: int := 0x1_0000_0000_0000_0000_0000_0000_0000_0000

  const NANOS_PER_SEC: int := 1_000_000_000
  const NANOS_PER_MILLI: int := 1_000_000

  type U128 = x: int | 0 <= x < U128_LIMIT

  datatype DurationParts = DurationParts(secs: int, nanos: int)

  /** `std::time::Duration`: whole seconds (a `u64`) and the nanoseconds below one second. */
  type Duration = d: DurationParts | 0 <= d.secs <= U64_MAX && 0 <= d.nanos < NANOS_PER_SEC
    witness DurationParts(0, 0)

  /** `Duration::as_millis`: whole milliseconds, the sub-millisecond rest dropped. */
  function AsMillis(d: Duration): (ms: nat)
    ensures ms < U128_LIMIT
    ensures ms * NANOS_PER_MILLI <= d.secs * NANOS_PER_SEC + d.nanos < (ms + 1) * NANOS_PER_MILLI
  {
    d.secs * 1000 + d.nanos / NANOS_PER_MILLI
  }

  /** `Duration::from_millis`, which `as_millis` reads back exactly. */
  function FromMillis(ms: nat): (d: Duration)
    requires ms <= U64_MAX
    ensures AsMillis(d) == ms
    ensures d.nanos % NANOS_PER_MILLI == 0
  {
    DurationParts(ms / 1000, (ms % 1000) * NANOS_PER_MILLI)
  }

  /** Instants are ordered by their millisecond counts (the derived `Ord`). */
  datatype Instant = Instant(epochMs: U128)

  predicate Before(a: Instant, b: Instant)
  {
    a.epochMs < b.epochMs
  }

  /** `try_add`: `None` exactly when the sum leaves the `u128` range. */
  function TryAdd(i: Instant, d: Duration): (r: Option<Instant>)
    ensures r.None? <==> i.epochMs + AsMillis(d) >= U128_LIMIT
    ensures r.Some? ==> r.value.epochMs == i.epochMs + AsMillis(d)
  {
    var sum := i.epochMs + AsMillis(d);
    if sum < U128_LIMIT then Some(Instant(sum)) else None
  }

  /** `try_subtract`: `None` exactly when the duration is longer than the time since the epoch. */
  function TrySubtract(i: Instant, d: Duration): (r: Option<Instant>)
    ensures r.None? <==> AsMillis(d) > i.epochMs
    ensures r.Some? ==> r.value.epochMs == i.epochMs - AsMillis(d)
  {
    if AsMillis(d) <= i.epochMs then Some(Instant(i.epochMs - AsMillis(d))) else None
  }

  /** `instant + duration`, which panics where `try_add` gives `None`. */
  function Add(i: Instant, d: Duration): (r: Instant)
    requires i.epochMs + AsMillis(d) < U128_LIMIT
    ensures TryAdd(i, d) == Some(r)
  {
    Instant(i.epochMs + AsMillis(d))
  }

  /** `instant - duration`, which panics where `try_subtract` gives `None`. */
  function Subtract(i: Instant, d: Duration): (r: Instant)
    requires AsMillis(d) <= i.epochMs
    ensures TrySubtract(i, d) == Some(r)
  {
    Instant(i.epochMs - AsMillis(d))
  }

  /**
   * `instant - instant`: zero when the left instant is the earlier one,
   * otherwise the difference, capped at `u64::MAX` milliseconds.
   */
  function Difference(a: Instant, b: Instant): (d: Duration)
    ensures Before(a, b) ==> AsMillis(d) == 0
    ensures !Before(a, b) && a.epochMs - b.epochMs <= U64_MAX ==> AsMillis(d) == a.epochMs - b.epochMs
    ensures !Before(a, b) && a.epochMs - b.epochMs > U64_MAX ==> AsMillis(d) == U64_MAX
  {
    FromMillis(if a.epochMs < b.epochMs then 0
      else if a.epochMs - b.epochMs <= U64_MAX then a.epochMs - b.epochMs
      else U64_MAX)
  }

  /** `since`: the time from `other` to `self`, i.e. `self - other`. */
  function Since(self: Instant, other: Instant): (d: Duration)
    ensures d == Difference(self, other)
  {
    Difference(self, other)
  }

  /**
   * The millisecond count `wait` hands to the browser; `None` where the
   * conversion to `u32` fails and the source panics.
   */
  function WaitMillis(d: Duration): (r: Option<nat>)
    ensures r.Some? <==> AsMillis(d) <= U32_MAX
    ensures r.Some? ==> r.value == AsMillis(d)
  {
    var ms := AsMillis(d);
    if ms <= U32_MAX then Some(ms) else None
  }

  /** `wait_until(target)`: wait for the time from `now` to `target`. */
  function WaitUntilMillis(target: Instant, now: Instant): (r: Option<nat>)
    ensures !Before(now, target) ==> r == Some(0)
    ensures Before(now, target) && target.epochMs - now.epochMs <= U32_MAX ==> r == Some(target.epochMs - now.epochMs)
    ensures target.epochMs - now.epochMs > U32_MAX ==> r.None?
  {
    WaitMillis(Since(target, now))
  }

  /** An instant held in a variable, which `+=` and `-=` update in place. */
  class InstantVar {
    var epochMs: U128

    constructor(i: Instant)
      ensures Value() == i
    {
      epochMs := i.epochMs;
    }

    function Value(): Instant
      reads this
    {
      Instant(epochMs)
    }

    /** `instant += duration`: the variable holds what `+` would return. */
    method AddAssign(d: Duration)
      requires epochMs + AsMillis(d) < U128_LIMIT
      modifies this
      ensures Value() == Add(old(Value()), d)
    {
      epochMs := epochMs + AsMillis(d);
    }

    /** `instant -= duration`: the variable holds what `-` would return. */
    method SubAssign(d: Duration)
      requires AsMillis(d) <= epochMs
      modifies this
      ensures Value() == Subtract(old(Value()), d)
    {
      epochMs := epochMs - AsMillis(d);
    }
  }

  // Properties.

  /** Adding then subtracting the same duration returns to the start, and the reverse. */
  lemma AddSubtractInverse(i: Instant, d: Duration)
    ensures TryAdd(i, d).Some? ==> TrySubtract(TryAdd(i, d).value, d) == Some(i)
    ensures TrySubtract(i, d).Some? ==> TryAdd(TrySubtract(i, d).value, d) == Some(i)
  {
  }

  /** Durations that agree in whole milliseconds act identically on every instant. */
  lemma MillisecondsDecide(i: Instant, d1: Duration, d2: Duration)
    requires AsMillis(d1) == AsMillis(d2)
    ensures TryAdd(i, d1) == TryAdd(i, d2) && TrySubtract(i, d1) == TrySubtract(i, d2)
  {
  }

  /** A duration under one millisecond moves no instant. */
  lemma SubMillisecondIsNothing(i: Instant, nanos: int)
    requires 0 <= nanos < NANOS_PER_MILLI
    ensures TryAdd(i, DurationParts(0, nanos)) == Some(i)
    ensures TrySubtract(i, DurationParts(0, nanos)) == Some(i)
  {
    assert AsMillis(DurationParts(0, nanos)) == 0;
  }

  /**
   * The time since an earlier instant, added back to it, gives the later
   * instant, as long as the difference fits the `u64` cap.
   */
  lemma SinceThenAdd(later: Instant, earlier: Instant)
    requires !Before(later, earlier) && later.epochMs - earlier.epochMs <= U64_MAX
    ensures TryAdd(earlier, Since(later, earlier)) == Some(later)
  {
  }

  /** Waiting until an instant that has already passed waits zero milliseconds. */
  lemma WaitUntilPast(target: Instant, now: Instant)
    requires !Before(now, target)
    ensures WaitUntilMillis(target, now) == Some(0)
  {
    if Before(target, now) {
      assert AsMillis(Since(target, now)) == 0;
    } else {
      assert target.epochMs == now.epochMs;
      assert AsMillis(Since(target, now)) == 0;
    }
  }
}
