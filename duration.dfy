/** `std::time::Duration`: whole seconds (`u64`) plus a nanosecond part
    below one second. Its derived ordering compares seconds first. */
module Durations {
  import opened Wrappers
  import opened Ints

  const NANOS_PER_SEC: int := 1_000_000_000

  type Nanos = n: int | 0 <= n < NANOS_PER_SEC

  datatype Duration = Duration(secs: U64, nanos: Nanos)

  /** The length of a duration in nanoseconds. */
  function TotalNanos(d: Duration): nat
  {
    d.secs * NANOS_PER_SEC + d.nanos
  }

  /** The derived `<` on `Duration`: lexicographic on (secs, nanos). */
  predicate DurationLess(a: Duration, b: Duration)
  {
    a.secs < b.secs || (a.secs == b.secs && a.nanos < b.nanos)
  }

  predicate DurationLe(a: Duration, b: Duration)
  {
    !DurationLess(b, a)
  }

  /** The lexicographic order is the order of lengths. */
  lemma DurationLessIsShorter(a: Duration, b: Duration)
    ensures DurationLess(a, b) <==> TotalNanos(a) < TotalNanos(b)
  {
    if a.secs < b.secs {
      assert TotalNanos(a) < (a.secs + 1) * NANOS_PER_SEC <= TotalNanos(b);
    } else if a.secs > b.secs {
      assert TotalNanos(b) < (b.secs + 1) * NANOS_PER_SEC <= TotalNanos(a);
    }
  }

  /** `Duration::new(secs, nanos)`: carries whole seconds out of `nanos`
      and panics when the carry overflows the `u64` seconds. */
  function DurationNew(secs: U64, nanos: U32): (r: Outcome<Duration>)
    ensures r.Returns? <==> secs + nanos / NANOS_PER_SEC <= U64_MAX
    ensures r.Returns? ==> TotalNanos(r.value) == secs * NANOS_PER_SEC + nanos
    ensures nanos < NANOS_PER_SEC ==> r == Returns(Duration(secs, nanos))
  {
    var carried := secs + nanos / NANOS_PER_SEC;
    if carried <= U64_MAX then Returns(Duration(carried, nanos % NANOS_PER_SEC)) else Panics
  }

  /** `a - b` on durations, which the caller only performs when `b <= a`
      (otherwise the subtraction panics). */
  function DurationSub(a: Duration, b: Duration): (r: Duration)
    requires DurationLe(b, a)
    ensures TotalNanos(r) == TotalNanos(a) - TotalNanos(b)
    ensures DurationLe(r, a)
  {
    if a.nanos >= b.nanos then Duration(a.secs - b.secs, a.nanos - b.nanos)
    else Duration(a.secs - b.secs - 1, a.nanos + NANOS_PER_SEC - b.nanos)
  }
}
