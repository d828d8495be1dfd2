/** The two wire shapes of a point in time or a length of time:
    `timeval_t` (seconds + microseconds) and `timespec_t` (seconds +
    nanoseconds), both with signed 64-bit fields, their validators and
    their conversions to and from `Duration`.

    Arithmetic on the `i64` fields is modelled without overflow checks
    (a product that leaves the `i64` range wraps); it only matters for
    values that the validators reject. */
module TimeValues {
  import opened Wrappers
  import opened Ints
  import opened Durations

  const MICROS_PER_SEC: int := 1_000_000
  const NANOS_PER_MICRO: int := 1_000

  datatype Timeval = Timeval(sec: I64, usec: I64)

  datatype Timespec = Timespec(sec: I64, nsec: I64)

  // ----- timeval_t -----

  /** `timeval_t::validate`: seconds non-negative, microseconds in [0, 1e6). */
  function TimevalValidate(tv: Timeval): (r: Result<()>)
    ensures r.Ok? <==> tv.sec >= 0 && 0 <= tv.usec < 1_000_000
    ensures r.Err? ==> r.errno == EINVAL
  {
    if tv.sec >= 0 && tv.usec >= 0 && tv.usec < MICROS_PER_SEC then Ok(()) else Err(EINVAL)
  }

  /** `timeval_t::new`: builds the value and unwraps its validation, so an
      invalid pair panics. */
  function TimevalNew(sec: I64, usec: I64): (r: Outcome<Timeval>)
    ensures r.Returns? <==> sec >= 0 && 0 <= usec < 1_000_000
    ensures r.Returns? ==> r.value == Timeval(sec, usec) && TimevalValidate(r.value).Ok?
  {
    var time := Timeval(sec, usec);
    if TimevalValidate(time).Ok? then Returns(time) else Panics
  }

  /** `timeval_t::as_duration`: `Duration::new(sec as u64, (usec * 1000) as u32)`. */
  function TimevalAsDuration(tv: Timeval): (r: Outcome<Duration>)
    ensures TimevalValidate(tv).Ok? ==> r == Returns(Duration(tv.sec, tv.usec * NANOS_PER_MICRO))
  {
    DurationNew(I64AsU64(tv.sec), I64AsU32(WrapI64(tv.usec * NANOS_PER_MICRO)))
  }

  /** `From<Duration> for timeval_t`: seconds cast to `i64`, the sub-second
      part cut down to whole microseconds. */
  function TimevalFromDuration(d: Duration): (r: Timeval)
    ensures r.usec * NANOS_PER_MICRO <= d.nanos < (r.usec + 1) * NANOS_PER_MICRO
    ensures TimevalValidate(r).Ok? <==> d.secs <= I64_MAX
    ensures d.secs <= I64_MAX ==> r.sec == d.secs
  {
    Timeval(U64AsI64(d.secs), d.nanos / NANOS_PER_MICRO)
  }

  /** Duration -> timeval -> Duration keeps the seconds and rounds the
      nanoseconds down to a whole microsecond: the result is never longer
      than `d` and falls short of it by less than one microsecond. */
  lemma TimevalDurationTruncates(d: Duration)
    requires d.secs <= I64_MAX
    ensures TimevalAsDuration(TimevalFromDuration(d)) == Returns(Duration(d.secs, d.nanos - d.nanos % NANOS_PER_MICRO))
    ensures var back := TimevalAsDuration(TimevalFromDuration(d)).value;
            DurationLe(back, d) && TotalNanos(d) - TotalNanos(back) < NANOS_PER_MICRO
  {
    var tv := TimevalFromDuration(d);
    assert tv.usec * NANOS_PER_MICRO == d.nanos - d.nanos % NANOS_PER_MICRO;
    DurationLessIsShorter(d, Duration(d.secs, d.nanos - d.nanos % NANOS_PER_MICRO));
  }

  /** A valid timeval survives timeval -> Duration -> timeval unchanged. */
  lemma TimevalRoundTrip(tv: Timeval)
    requires TimevalValidate(tv).Ok?
    ensures TimevalAsDuration(tv).Returns?
    ensures TimevalFromDuration(TimevalAsDuration(tv).value) == tv
  {
  }

  // ----- timespec_t -----

  /** `timespec_t::validate`: seconds non-negative, nanoseconds in [0, 1e9). */
  function TimespecValidate(ts: Timespec): (r: Result<()>)
    ensures r.Ok? <==> ts.sec >= 0 && 0 <= ts.nsec < 1_000_000_000
    ensures r.Err? ==> r.errno == EINVAL
  {
    if ts.sec >= 0 && ts.nsec >= 0 && ts.nsec < NANOS_PER_SEC then Ok(()) else Err(EINVAL)
  }

  /** `timespec_t::from_raw_ptr` once the value has been read: it is handed
      back only when it validates. */
  function TimespecFromRaw(ts: Timespec): (r: Result<Timespec>)
    ensures r.Ok? <==> TimespecValidate(ts).Ok?
    ensures r.Ok? ==> r.value == ts
    ensures r.Err? ==> r.errno == EINVAL
  {
    var v := TimespecValidate(ts);
    if v.Err? then Err(v.errno) else Ok(ts)
  }

  /** `timespec_t::as_duration`: `Duration::new(sec as u64, nsec as u32)`. */
  function TimespecAsDuration(ts: Timespec): (r: Outcome<Duration>)
    ensures TimespecValidate(ts).Ok? ==> r == Returns(Duration(ts.sec, ts.nsec))
  {
    DurationNew(I64AsU64(ts.sec), I64AsU32(ts.nsec))
  }

  /** `From<Duration> for timespec_t`: seconds cast to `i64`, nanoseconds kept. */
  function TimespecFromDuration(d: Duration): (r: Timespec)
    ensures r.nsec == d.nanos
    ensures TimespecValidate(r).Ok? <==> d.secs <= I64_MAX
    ensures d.secs <= I64_MAX ==> r.sec == d.secs
  {
    Timespec(U64AsI64(d.secs), d.nanos)
  }

  /** Every Duration whose seconds fit in `i64` survives Duration ->
      timespec -> Duration exactly, through a valid timespec. */
  lemma DurationTimespecRoundTrip(d: Duration)
    requires d.secs <= I64_MAX
    ensures TimespecValidate(TimespecFromDuration(d)).Ok?
    ensures TimespecAsDuration(TimespecFromDuration(d)) == Returns(d)
  {
  }

  /** Every valid timespec survives timespec -> Duration -> timespec. */
  lemma TimespecRoundTrip(ts: Timespec)
    requires TimespecValidate(ts).Ok?
    ensures TimespecAsDuration(ts).Returns?
    ensures TimespecFromDuration(TimespecAsDuration(ts).value) == ts
  {
  }

  /** The valid timespecs are exactly the images of the durations whose
      seconds fit in `i64`. */
  lemma TimespecValidIsImage(ts: Timespec)
    ensures TimespecValidate(ts).Ok? <==>
            exists d: Duration :: d.secs <= I64_MAX && TimespecFromDuration(d) == ts
  {
    if TimespecValidate(ts).Ok? {
      var d := Duration(ts.sec, ts.nsec);
      assert TimespecFromDuration(d) == ts;
    }
  }

  /** `From<timeval_t> for timespec_t`: seconds kept, microseconds scaled to
      nanoseconds. */
  function TimespecFromTimeval(tv: Timeval): (r: Timespec)
    ensures r.sec == tv.sec
    ensures I64_MIN <= tv.usec * NANOS_PER_MICRO <= I64_MAX ==> r.nsec == tv.usec * NANOS_PER_MICRO
  {
    Timespec(tv.sec, WrapI64(tv.usec * NANOS_PER_MICRO))
  }

  /** A valid timeval converts to a valid timespec with `nsec = usec * 1000`
      that denotes the same Duration. */
  lemma TimevalToTimespecPreserves(tv: Timeval)
    requires TimevalValidate(tv).Ok?
    ensures var ts := TimespecFromTimeval(tv);
            ts == Timespec(tv.sec, tv.usec * NANOS_PER_MICRO) &&
            TimespecValidate(ts).Ok? &&
            TimespecAsDuration(ts) == TimevalAsDuration(tv)
  {
  }

  /** `From<time_t> for timespec_t`: whole seconds, no nanoseconds. */
  function TimespecFromTime(time: I64): (r: Timespec)
    ensures r.sec == time && r.nsec == 0
    ensures TimespecValidate(r).Ok? <==> time >= 0
    ensures time >= 0 ==> TimespecAsDuration(r) == Returns(Duration(time, 0))
  {
    Timespec(time, 0)
  }
}
