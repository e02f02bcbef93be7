/** The clock event device and its polled deadline (arch/orlix/kernel/time.c). */
module HostTimer {
  import opened HostTypes
  import opened Arithmetic

  const HALF: nat := 0x8000_0000_0000_0000

  // ---------------------------------------------------------------- 64-bit comparison

  /** `(s64)(now - deadline) >= 0` on `u64` values. */
  predicate Expired(now: nat, deadline: nat)
    requires now < ADDRESS_SPACE && deadline < ADDRESS_SPACE
  {
    (now + ADDRESS_SPACE - deadline) % ADDRESS_SPACE < HALF
  }

  function Wrapped(t: nat): (r: nat)
    ensures r < ADDRESS_SPACE
  {
    t % ADDRESS_SPACE
  }

  /** The wrapped comparison is the comparison of the times themselves while they are less than 2^63 apart. */
  lemma ExpiredIsPast(now: nat, due: nat)
    requires now < due + HALF && due <= now + HALF
    ensures Expired(Wrapped(now), Wrapped(due)) <==> now >= due
  {
    var d := (Wrapped(now) + ADDRESS_SPACE - Wrapped(due)) % ADDRESS_SPACE;
    if now >= due {
      ModUnique(ADDRESS_SPACE, 0, now - due);
      WrappedDifference(now, due);
    } else {
      ModUnique(ADDRESS_SPACE, 0, now + ADDRESS_SPACE - due);
      WrappedDifference(now, due);
    }
  }

  lemma WrappedDifference(now: nat, due: nat)
    requires due <= now + ADDRESS_SPACE
    ensures (Wrapped(now) + ADDRESS_SPACE - Wrapped(due)) % ADDRESS_SPACE == (now + ADDRESS_SPACE - due) % ADDRESS_SPACE
  {
  }

  /**
   The device announces that it can wait up to 2^64 - 1 ns. A one-shot polled at once goes off early
   exactly when it was armed more than 2^63 ns ahead.
   */
  lemma EarlyExactly(now: nat, delta: nat)
    requires delta < ADDRESS_SPACE
    ensures Expired(Wrapped(now), Wrapped(now + delta)) <==> delta == 0 || delta > HALF
  {
    WrappedDifference(now, now + delta);
  }

  lemma WrappedSum(a: nat, b: nat)
    ensures (Wrapped(a) + b) % ADDRESS_SPACE == Wrapped(a + b)
  {
  }

  // ---------------------------------------------------------------- the timer on unbounded times

  datatype Timer = Timer(armed: bool, periodic: bool, due: nat, period: nat)

  /** The timer after a poll, and whether it went off. */
  function Polled(t: Timer, now: nat): (Timer, bool) {
    if !t.armed || now < t.due then (t, false)
    else if !t.periodic then (t.(armed := false), true)
    else (t.(due := if now >= t.due + t.period then now + t.period else t.due + t.period), true)
  }

  /** The times at which the timer goes off when it is polled at the given times. */
  function Events(t: Timer, polls: seq<nat>): (r: seq<nat>)
    ensures |r| <= |polls|
    decreases |polls|
  {
    if polls == [] then []
    else
      var (next, fired) := Polled(t, polls[0]);
      (if fired then [polls[0]] else []) + Events(next, polls[1..])
  }

  /** After each event the next deadline lies ahead, at most a period away, and at least a period after the last one. */
  lemma NextDeadline(t: Timer, now: nat)
    requires t.armed && t.periodic && t.period > 0 && Polled(t, now).1
    ensures var next := Polled(t, now).0;
            now < next.due <= now + t.period && next.due >= t.due + t.period && next == t.(due := next.due)
  {
  }

  /** The `k`-th event of a periodic timer comes no earlier than its `k`-th deadline would without delays. */
  lemma {:induction false} EventAfter(t: Timer, polls: seq<nat>, k: nat)
    requires t.armed && t.periodic && t.period > 0 && k < |Events(t, polls)|
    ensures Events(t, polls)[k] >= t.due + k * t.period
    ensures Events(t, polls)[k] in polls
    decreases |polls|
  {
    var (next, fired) := Polled(t, polls[0]);
    if !fired {
      EventAfter(next, polls[1..], k);
    } else if k > 0 {
      NextDeadline(t, polls[0]);
      EventAfter(next, polls[1..], k - 1);
      assert (k - 1) * t.period + t.period == k * t.period;
      assert Events(t, polls)[k] == Events(next, polls[1..])[k - 1];
    }
  }

  lemma PeriodsWithin(n: nat, period: nat, x: nat)
    requires period > 0 && n * period <= x
    ensures n <= x / period
  {
    MulStep(period, x / period, n);
    assert x < period * (x / period) + period;
  }

  /**
   However it is polled, a periodic timer has gone off by time `end` at most once, and once more for every
   period since its first deadline.
   */
  lemma EventsBounded(t: Timer, polls: seq<nat>, end: nat)
    requires t.armed && t.periodic && t.period > 0 && forall i :: 0 <= i < |polls| ==> polls[i] <= end
    ensures if end < t.due then Events(t, polls) == [] else |Events(t, polls)| <= 1 + (end - t.due) / t.period
  {
    var n := |Events(t, polls)|;
    if n > 0 {
      EventAfter(t, polls, n - 1);
      PeriodsWithin(n - 1, t.period, end - t.due);
    }
  }

  /** A poll at or after the deadline is never missed: the first such poll is an event. */
  lemma {:induction false} FirstEvent(t: Timer, polls: seq<nat>, i: nat)
    requires t.armed && i < |polls| && polls[i] >= t.due
    requires forall j :: 0 <= j < i ==> polls[j] < t.due
    ensures Events(t, polls) != [] && Events(t, polls)[0] == polls[i]
    decreases i
  {
    if i > 0 {
      FirstEvent(t, polls[1..], i - 1);
    }
  }

  /** A one-shot goes off at most once per arming. */
  lemma {:induction false} OneShotOnce(t: Timer, polls: seq<nat>)
    requires !t.periodic
    ensures |Events(t, polls)| <= if t.armed then 1 else 0
    decreases |polls|
  {
    if polls != [] {
      OneShotOnce(Polled(t, polls[0]).0, polls[1..]);
    }
  }

  /** Nanoseconds of a tick. */
  function PeriodOf(hz: nat): (r: nat)
    requires 0 < hz <= 1_000_000_000
    ensures 0 < r <= 1_000_000_000
  {
    MulStep(hz, 1_000_000_000 / hz, 0);
    1_000_000_000 / hz
  }

  // ---------------------------------------------------------------- the device

  class ClockEvent {
    var deadline: nat
    var period: nat
    var armed: bool
    var periodic: bool
    /** The deadline without wrap-around. */
    ghost var due: nat

    ghost predicate Valid()
      reads this
    {
      deadline == Wrapped(due) && (periodic ==> 0 < period < HALF)
    }

    ghost function State(): Timer
      reads this
    {
      Timer(armed, periodic, due, period)
    }

    constructor ()
      ensures Valid() && !armed && !periodic
    {
      deadline, period, armed, periodic, due := 0, 0, false, false, 0;
    }

    /** `now` is the host clock, which the device sees modulo 2^64. */
    method SetNextEvent(now: nat, delta: nat)
      requires Valid() && delta < ADDRESS_SPACE
      modifies this
      ensures Valid() && State() == Timer(true, false, now + delta, old(period))
    {
      periodic := false;
      deadline := (Wrapped(now) + delta) % ADDRESS_SPACE;
      armed := true;
      due := now + delta;
    }

    method SetPeriodic(now: nat, hz: nat)
      requires Valid() && 0 < hz <= 1_000_000_000
      modifies this
      ensures Valid() && State() == Timer(true, true, now + PeriodOf(hz), PeriodOf(hz))
    {
      hide PeriodOf;
      period := PeriodOf(hz);
      periodic := true;
      deadline := (Wrapped(now) + period) % ADDRESS_SPACE;
      armed := true;
      due := now + period;
    }

    /** `orlix_timer_set_oneshot` and `orlix_timer_shutdown`. */
    method Shutdown()
      requires Valid()
      modifies this`periodic, this`armed
      ensures Valid() && State() == old(State()).(armed := false, periodic := false)
    {
      periodic := false;
      armed := false;
    }

    method NextDeadline() returns (r: nat)
      requires Valid()
      ensures r == if armed then Wrapped(due) else 0
    {
      r := if armed then deadline else 0;
    }

    /** `orlix_timer_poll` up to the call of the event handler. */
    method Poll(now: nat) returns (fired: bool)
      requires Valid() && (armed ==> now < due + HALF && due <= now + HALF)
      modifies this`deadline, this`armed, this`due
      ensures Valid() && (State(), fired) == Polled(old(State()), now)
    {
      if !armed {
        return false;
      }
      hide Wrapped, Expired;
      var clock := Wrapped(now);
      ExpiredIsPast(now, due);
      if !Expired(clock, deadline) {
        return false;
      }
      if periodic {
        WrappedSum(due, period);
        WrappedSum(now, period);
        var next := (deadline + period) % ADDRESS_SPACE;
        ExpiredIsPast(now, due + period);
        due := due + period;
        if Expired(clock, next) {
          next := (clock + period) % ADDRESS_SPACE;
          due := now + period;
        }
        deadline := next;
      } else {
        armed := false;
      }
      fired := true;
    }
  }
}
