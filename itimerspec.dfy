/** The timer-file value pair: `itimerspec_t` (wire form, two timespecs)
    and `TimerfileDurations` (the same pair as Durations). */
module Itimerspec {
  import opened Wrappers
  import opened Ints
  import opened Durations
  import opened TimeValues

  /** `it_interval` is the re-arm period, `it_value` the time to the first expiry. */
  datatype Itimerspec = Itimerspec(interval: Timespec, value: Timespec)

  datatype TimerfileDurations = TimerfileDurations(interval: Duration, value: Duration)

  /** `itimerspec_t::validate`: the interval is checked first, then the value. */
  function ItimerspecValidate(its: Itimerspec): (r: Result<()>)
    ensures r.Ok? <==> TimespecValidate(its.interval).Ok? && TimespecValidate(its.value).Ok?
    ensures r.Err? ==> r.errno == EINVAL
  {
    var i := TimespecValidate(its.interval);
    if i.Err? then Err(i.errno)
    else
      var v := TimespecValidate(its.value);
      if v.Err? then Err(v.errno) else Ok(())
  }

  /** `itimerspec_t::from_raw_ptr` once the value has been read. */
  function ItimerspecFromRaw(its: Itimerspec): (r: Result<Itimerspec>)
    ensures r.Ok? <==> TimespecValidate(its.interval).Ok? && TimespecValidate(its.value).Ok?
    ensures r.Ok? ==> r.value == its
    ensures r.Err? ==> r.errno == EINVAL
  {
    var v := ItimerspecValidate(its);
    if v.Err? then Err(v.errno) else Ok(its)
  }

  /** `From<TimerfileDurations> for itimerspec_t`: each component through
      `From<Duration> for timespec_t`. */
  function ItimerspecFromDurations(ds: TimerfileDurations): (r: Itimerspec)
    ensures r.interval.nsec == ds.interval.nanos && r.value.nsec == ds.value.nanos
    ensures ItimerspecValidate(r).Ok? <==> ds.interval.secs <= I64_MAX && ds.value.secs <= I64_MAX
  {
    Itimerspec(TimespecFromDuration(ds.interval), TimespecFromDuration(ds.value))
  }

  /** `From<itimerspec_t> for TimerfileDurations`: each component through
      `timespec_t::as_duration`, which panics on a seconds overflow. */
  function DurationsFromItimerspec(its: Itimerspec): (r: Outcome<TimerfileDurations>)
    ensures ItimerspecValidate(its).Ok? ==>
              r == Returns(TimerfileDurations(Duration(its.interval.sec, its.interval.nsec),
                                              Duration(its.value.sec, its.value.nsec)))
  {
    var interval := TimespecAsDuration(its.interval);
    var value := TimespecAsDuration(its.value);
    if interval.Panics? || value.Panics? then Panics
    else Returns(TimerfileDurations(interval.value, value.value))
  }

  /** Durations -> itimerspec -> Durations is the identity while both
      second counts fit in `i64`. */
  lemma {:induction false} DurationsRoundTrip(ds: TimerfileDurations)
    requires ds.interval.secs <= I64_MAX && ds.value.secs <= I64_MAX
    ensures DurationsFromItimerspec(ItimerspecFromDurations(ds)) == Returns(ds)
  {
    DurationTimespecRoundTrip(ds.interval);
    DurationTimespecRoundTrip(ds.value);
  }

  /** A valid itimerspec survives itimerspec -> Durations -> itimerspec. */
  lemma {:induction false} ItimerspecRoundTrip(its: Itimerspec)
    requires ItimerspecValidate(its).Ok?
    ensures DurationsFromItimerspec(its).Returns?
    ensures ItimerspecFromDurations(DurationsFromItimerspec(its).value) == its
  {
    TimespecRoundTrip(its.interval);
    TimespecRoundTrip(its.value);
  }
}
