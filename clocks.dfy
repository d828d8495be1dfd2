/** The clock queries: `do_clock_gettime`, `do_clock_getres` and
    `do_gettimeofday`. The host's vDSO clock is not modelled: it is a
    parameter that answers each clock id with a Duration or an errno. */
module Clocks {
  import opened Wrappers
  import opened Ints
  import opened Durations
  import opened TimeValues

  /** The Linux clock ids known to the vDSO layer. */
  datatype ClockId =
    | CLOCK_REALTIME
    | CLOCK_MONOTONIC
    | CLOCK_PROCESS_CPUTIME_ID
    | CLOCK_THREAD_CPUTIME_ID
    | CLOCK_MONOTONIC_RAW
    | CLOCK_REALTIME_COARSE
    | CLOCK_MONOTONIC_COARSE
    | CLOCK_BOOTTIME

  /** What the host answers for a clock: its current time or its resolution. */
  type HostClock = ClockId -> Result<Duration>

  /** The two CPU-time clocks the generic clock path refuses. */
  predicate IsCpuTimeClock(clockid: ClockId)
  {
    clockid == CLOCK_PROCESS_CPUTIME_ID || clockid == CLOCK_THREAD_CPUTIME_ID
  }

  /** `do_clock_gettime`: CPU-time clocks fail with EINVAL before the host is
      asked; any other clock is read (an error from the host panics at the
      `unwrap`) and the reading must convert to a valid timespec (otherwise
      the `expect` panics). */
  function ClockGettime(clockid: ClockId, clock: HostClock): (r: Outcome<Result<Timespec>>)
    ensures IsCpuTimeClock(clockid) ==> r == Returns(Err(EINVAL))
    ensures !IsCpuTimeClock(clockid) ==>
              (r.Returns? <==> clock(clockid).Ok? && clock(clockid).value.secs <= I64_MAX)
    ensures r.Returns? && r.value.Err? ==> IsCpuTimeClock(clockid)
    ensures r.Returns? && r.value.Ok? ==>
              TimespecValidate(r.value.value).Ok? &&
              TimespecAsDuration(r.value.value) == Returns(clock(clockid).value)
  {
    if IsCpuTimeClock(clockid) then Returns(Err(EINVAL))
    else
      var now := clock(clockid);
      if now.Err? then Panics
      else
        var tv := TimespecFromDuration(now.value);
        if TimespecValidate(tv).Err? then Panics
        else Returns(Ok(tv))
  }

  /** The sanity check `do_clock_getres` applies to a resolution: zero whole
      seconds and a positive number of nanoseconds below one second. */
  function ResolutionValidate(res: Timespec): (r: Result<()>)
    ensures r.Ok? <==> res.sec == 0 && 0 < res.nsec < 1_000_000_000
    ensures r.Err? ==> r.errno == EINVAL
  {
    if res.sec == 0 && res.nsec > 0 && res.nsec < NANOS_PER_SEC then Ok(()) else Err(EINVAL)
  }

  /** An accepted resolution is a valid timespec denoting a duration strictly
      between zero and one second. */
  lemma ResolutionIsSubSecond(res: Timespec)
    requires ResolutionValidate(res).Ok?
    ensures TimespecValidate(res).Ok?
    ensures var d := TimespecAsDuration(res).value;
            TimespecAsDuration(res).Returns? && 0 < TotalNanos(d) < NANOS_PER_SEC
  {
  }

  /** `do_clock_getres`: asks the host for the resolution (an error panics at
      the `unwrap`), converts it, and panics at the `expect` unless the
      resolution check accepts it. It never returns an error. */
  function ClockGetres(clockid: ClockId, getres: HostClock): (r: Outcome<Result<Timespec>>)
    ensures r.Returns? <==> getres(clockid).Ok? && getres(clockid).value.secs == 0 && getres(clockid).value.nanos > 0
    ensures r.Returns? ==> r.value == Ok(Timespec(0, getres(clockid).value.nanos))
  {
    var res := getres(clockid);
    if res.Err? then Panics
    else
      var ts := TimespecFromDuration(res.value);
      if ResolutionValidate(ts).Err? then Panics
      else Returns(Ok(ts))
  }

  /** `do_gettimeofday`: reads the real-time clock (an error panics at the
      `unwrap`), cuts it to whole microseconds and panics unless the result
      validates. */
  function Gettimeofday(clock: HostClock): (r: Outcome<Timeval>)
    ensures r.Returns? <==> clock(CLOCK_REALTIME).Ok? && clock(CLOCK_REALTIME).value.secs <= I64_MAX
    ensures r.Returns? ==>
              var now := clock(CLOCK_REALTIME).value;
              TimevalValidate(r.value).Ok? &&
              TimevalAsDuration(r.value) == Returns(Duration(now.secs, now.nanos - now.nanos % NANOS_PER_MICRO))
  {
    var now := clock(CLOCK_REALTIME);
    if now.Err? then Panics
    else
      var tv := TimevalFromDuration(now.value);
      if TimevalValidate(tv).Err? then Panics
      else
        TimevalDurationTruncates(now.value);
        Returns(tv)
  }
}
