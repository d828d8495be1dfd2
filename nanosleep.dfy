/** `do_clock_nanosleep` and `do_nanosleep`: which clocks may be slept on,
    absolute versus relative mode, the early return for an absolute target
    already reached, and how the waiter's outcome becomes the call's result
    and the remaining time written back to the caller.

    The host clock and the cooperative waiter are parameters. The waiter is
    given the timeout, suspends the task, and reports how it was resumed
    together with the time that was left of the timeout (Rust updates the
    `duration` it is handed through `&mut`). */
module Nanosleep {
  import opened Wrappers
  import opened Ints
  import opened Durations
  import opened TimeValues
  import opened Clocks

  const TIMER_ABSTIME: I32 := 0x01

  /** How `Waiter::wait_timeout` resumed (`Ok` for an explicit wake, or an
      errno) and the time left of the timeout it was given. */
  datatype WaitReport = WaitReport(result: Result<()>, remaining: Duration)

  type Waiter = Duration -> WaitReport

  /** The waiter's own promise: what is left never exceeds the timeout. */
  ghost predicate HonoursTimeout(waiter: Waiter)
  {
    forall d: Duration :: DurationLe(waiter(d).remaining, d)
  }

  /** The clocks `clock_nanosleep` accepts. */
  predicate SleepClockAllowed(clockid: ClockId)
  {
    clockid == CLOCK_REALTIME || clockid == CLOCK_MONOTONIC || clockid == CLOCK_BOOTTIME
  }

  /** The result of a sleep from the way its waiter resumed: a timeout is the
      normal end of a sleep, an interrupt surfaces as EINTR, and an explicit
      wake or any other errno reaches `unreachable!`. */
  function WakeOutcome(res: Result<()>): (r: Outcome<Result<int>>)
    ensures r == Returns(Ok(0)) <==> res == Err(ETIMEDOUT)
    ensures r == Returns(Err(EINTR)) <==> res == Err(EINTR)
    ensures r.Returns? ==> r.value == Ok(0) || r.value == Err(EINTR)
  {
    match res
    case Ok(_) => Panics
    case Err(e) =>
      if e == ETIMEDOUT then Returns(Ok(0))
      else if e == EINTR then Returns(Err(EINTR))
      else Panics
  }

  /** The Duration a valid timespec denotes. */
  function ReqDuration(req: Timespec): (d: Duration)
    requires TimespecValidate(req).Ok?
    ensures TimespecAsDuration(req) == Returns(d)
  {
    Duration(req.sec, req.nsec)
  }

  /** `do_clock_nanosleep`. `rem` is the caller's remaining-time slot when it
      passed one, and `remAfter` is that slot after the call. `slept` is the
      timeout the waiter was given, or None when the call did not suspend. */
  method ClockNanosleep(clockid: ClockId, flags: I32, req: Timespec, rem: Option<Timespec>,
                        clock: HostClock, waiter: Waiter)
    returns (r: Outcome<Result<int>>, remAfter: Option<Timespec>, ghost slept: Option<Duration>)
    // An unsupported clock is refused before anything else.
    ensures !SleepClockAllowed(clockid) ==> r == Returns(Err(EINVAL)) && slept == None
    // The slot is only ever overwritten, never created or dropped, and an
    // absolute sleep never touches it.
    ensures remAfter.Some? <==> rem.Some?
    ensures flags == TIMER_ABSTIME || slept == None ==> remAfter == rem
    // Whenever the waiter ran, its resume reason alone decides the result.
    ensures slept.Some? ==> r == WakeOutcome(waiter(slept.value).result)
    // Relative mode: wait for `req` itself.
    ensures SleepClockAllowed(clockid) && flags != TIMER_ABSTIME && TimespecValidate(req).Ok? ==>
              slept == Some(ReqDuration(req))
    // Absolute mode: a failing clock read is passed on, a target already
    // reached returns 0 at once, otherwise wait for `target - now`.
    ensures SleepClockAllowed(clockid) && flags == TIMER_ABSTIME && clock(clockid).Err? ==>
              r == Returns(Err(clock(clockid).errno)) && slept == None
    ensures SleepClockAllowed(clockid) && flags == TIMER_ABSTIME && clock(clockid).Ok? &&
            TimespecValidate(req).Ok? ==>
              var now, target := clock(clockid).value, ReqDuration(req);
              if DurationLess(now, target) then slept == Some(DurationSub(target, now))
              else r == Returns(Ok(0)) && slept == None
    // Relative mode writes back what the waiter left, on timeout and on interrupt alike.
    ensures flags != TIMER_ABSTIME && rem.Some? && slept.Some? && r.Returns? ==>
              remAfter == Some(TimespecFromDuration(waiter(slept.value).remaining))
    // and, for a valid request and a waiter that keeps its promise, that is a
    // valid timespec no longer than the request.
    ensures SleepClockAllowed(clockid) && flags != TIMER_ABSTIME && TimespecValidate(req).Ok? &&
            HonoursTimeout(waiter) && rem.Some? && r.Returns? ==>
              TimespecValidate(remAfter.value).Ok? &&
              TotalNanos(TimespecAsDuration(remAfter.value).value) <= TotalNanos(ReqDuration(req))
  {
    remAfter, slept := rem, None;
    if !SleepClockAllowed(clockid) {
      return Returns(Err(EINVAL)), remAfter, slept;
    }

    var duration: Duration;
    if flags != TIMER_ABSTIME {
      var reqd := TimespecAsDuration(req);
      if reqd.Panics? {
        return Panics, remAfter, slept;
      }
      duration := reqd.value;
    } else {
      var now := clock(clockid);
      if now.Err? {
        return Returns(Err(now.errno)), remAfter, slept;
      }
      var target := TimespecAsDuration(req);
      if target.Panics? {
        return Panics, remAfter, slept;
      }
      if DurationLess(now.value, target.value) {
        duration := DurationSub(target.value, now.value);
      } else {
        return Returns(Ok(0)), remAfter, slept;
      }
    }

    slept := Some(duration);
    var report := waiter(duration);
    duration := report.remaining;
    r := WakeOutcome(report.result);
    if r.Panics? {
      return;
    }

    if flags != TIMER_ABSTIME {
      if rem.Some? {
        remAfter := Some(TimespecFromDuration(duration));
      }
      if TimespecValidate(req).Ok? && HonoursTimeout(waiter) {
        RemainingWithinRequest(req, waiter);
      }
    }
  }

  /** `do_nanosleep`: a relative sleep on the real-time clock. */
  method Nanosleep(req: Timespec, rem: Option<Timespec>, clock: HostClock, waiter: Waiter)
    returns (r: Outcome<Result<int>>, remAfter: Option<Timespec>)
    ensures remAfter.Some? <==> rem.Some?
    ensures TimespecValidate(req).Ok? ==>
              var report := waiter(ReqDuration(req));
              r == WakeOutcome(report.result) &&
              (rem.Some? && r.Returns? ==> remAfter == Some(TimespecFromDuration(report.remaining)))
    ensures TimespecValidate(req).Ok? && HonoursTimeout(waiter) && rem.Some? && r.Returns? ==>
              TimespecValidate(remAfter.value).Ok? &&
              TotalNanos(TimespecAsDuration(remAfter.value).value) <= TotalNanos(ReqDuration(req))
  {
    ghost var slept;
    r, remAfter, slept := ClockNanosleep(CLOCK_REALTIME, 0, req, rem, clock, waiter);
  }

  /** What a relative sleep writes back is a valid timespec that is no
      longer than the request, whenever the waiter keeps its promise. */
  lemma {:induction false} RemainingWithinRequest(req: Timespec, waiter: Waiter)
    requires TimespecValidate(req).Ok?
    requires HonoursTimeout(waiter)
    ensures var written := TimespecFromDuration(waiter(ReqDuration(req)).remaining);
            TimespecValidate(written).Ok? &&
            TimespecAsDuration(written).Returns? &&
            TotalNanos(TimespecAsDuration(written).value) <= TotalNanos(ReqDuration(req))
  {
    var d := ReqDuration(req);
    var left := waiter(d).remaining;
    assert DurationLe(left, d);
    DurationLessIsShorter(d, left);
    assert left.secs <= d.secs;
    DurationTimespecRoundTrip(left);
  }

  /** The absolute wait `target - now` ends exactly at the target. */
  lemma {:induction false} AbsoluteWaitEndsAtTarget(now: Duration, target: Duration)
    requires DurationLess(now, target)
    ensures TotalNanos(now) + TotalNanos(DurationSub(target, now)) == TotalNanos(target)
    ensures 0 < TotalNanos(DurationSub(target, now))
  {
    DurationLessIsShorter(now, target);
  }
}
