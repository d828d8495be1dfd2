# Time values and clock queries of the LibOS time subsystem

This project models the time-value layer of the LibOS time subsystem
(`src/libos/src/time/mod.rs`) in Dafny and proves properties of it:

- the two wire shapes `timeval_t` (seconds + microseconds) and `timespec_t`
  (seconds + nanoseconds), their validators, and their conversions to and from
  `std::time::Duration` and between each other;
- the timer pair `itimerspec_t` (interval, initial value), its validator, and its
  conversions to and from `TimerfileDurations`;
- the clock queries `do_clock_gettime`, `do_clock_getres` and `do_gettimeofday`,
  with the host's vDSO clock as a parameter;
- the decision logic of `do_clock_nanosleep` and `do_nanosleep`: which clock ids
  are allowed, absolute versus relative mode, the early return for a target that
  has already passed, how the waiter's outcome maps to the result, and the
  write-back of the remaining time.

Layout:

| file | module | contents |
|---|---|---|
| `wrappers.dfy` | `Wrappers` | `Errno`, `Result<T>`, `Option<T>` and `Outcome<T>`. `Outcome<T>` is either a returned value or a panic. |
| `ints.dfy` | `Ints` | the `i64`/`u64`/`u32`/`i32` ranges and the `as` casts between them |
| `duration.dfy` | `Durations` | `Duration` with `secs: u64` and `nanos < 1e9`, plus its ordering, `Duration::new` and subtraction |
| `time_values.dfy` | `TimeValues` | `timeval_t`, `timespec_t` and their conversions |
| `itimerspec.dfy` | `Itimerspec` | `itimerspec_t` and `TimerfileDurations` |
| `clocks.dfy` | `Clocks` | `ClockId` and the clock queries |
| `nanosleep.dfy` | `Nanosleep` | `do_clock_nanosleep` and `do_nanosleep` |

Modelling choices:

- **Panics are outcomes.** Each `unwrap`, `expect` and `unreachable!` becomes the
  `Panics` outcome, and so does an overflowing `Duration::new`. None of them is
  turned into a precondition.
- **Casts are written out.**
  - `u64 as i64` wraps to a negative value at 2^63 and above.
  - `i64 as u64` adds 2^64 to a negative value.
  - `i64 as u32` keeps the low 32 bits.
  - The `i64` products `usec * 1_000` are modelled with wrapping (release-profile) arithmetic. A build with overflow checks would panic instead, which only happens for values the validators reject.
  - `debug_assert!` is a debug-build check, and it is not modelled as a panic.
- **The host clock is a parameter.** It has type `HostClock = ClockId -> Result<Duration>` and stands for `vdso_time::clock_gettime` or `clock_getres`.
- **The waiter is a parameter.** It has type `Waiter = Duration -> WaitReport`. Given a timeout, it reports:
  - how the task was resumed: `Ok` for an explicit wake, or an errno such as `ETIMEDOUT` or `EINTR`;
  - the time left of the timeout. In the source the waiter writes this back through `&mut duration`.

  The waiter's promise that the time left never exceeds the timeout is the predicate `HonoursTimeout`. It appears as a hypothesis in the contracts that need it.
- **The `rem` slot is an input plus an output.** The `Option<&mut timespec_t>` parameter becomes the caller's slot `rem: Option<Timespec>` and its value after the call, `remAfter`. A ghost output `slept` records the timeout the waiter was given, or `None` when the call never suspended.
- **Only exactly `TIMER_ABSTIME` selects absolute mode.** In the code a `flags` value of `TIMER_ABSTIME` with any other bit set counts as relative, because the test is `flags != TIMER_ABSTIME` and not a bit test. POSIX `clock_nanosleep` tests the bit. The model follows the code.

Behaviour of the code worth knowing when reading the contracts:

- `do_clock_gettime` panics at the `expect` (mod.rs:158-159) on a host reading that does not convert to a valid timespec. It does not return EINVAL for it.
- `do_clock_getres` (mod.rs:163-176) does not reject the CPU-time clocks. It panics when the host call fails and when the resolution is outside (0, 1 s).
- The duration that `wait_timeout` updates through `&mut duration` is what mod.rs:227-233 writes back to `rem`.

## Model

| member | source | states |
|---|---|---|
| `TimeValues.TimevalValidate` | src/libos/src/time/mod.rs:49-55 | Succeeds exactly when `sec >= 0` and `0 <= usec < 1_000_000`. Otherwise it fails with EINVAL. |
| `TimeValues.TimevalNew` | src/libos/src/time/mod.rs:42-47 | Returns `Timeval(sec, usec)` exactly when the pair validates. Otherwise it panics. |
| `TimeValues.TimevalAsDuration` | src/libos/src/time/mod.rs:65-67 | A valid timeval converts without panicking to the Duration with the same seconds and `usec * 1000` nanoseconds. |
| `TimeValues.TimevalFromDuration` | src/libos/src/time/mod.rs:70-77 | The microseconds are the nanoseconds rounded down: `usec*1000 <= nanos < (usec+1)*1000`. The result is valid exactly when the seconds fit in `i64`, and then the seconds are kept. |
| `TimeValues.TimevalDurationTruncates` | src/libos/src/time/mod.rs:65-76 | Duration → timeval → Duration keeps the seconds and rounds the nanoseconds down to a multiple of 1000. The result is never longer than the input and is short of it by less than 1 µs. |
| `TimeValues.TimevalRoundTrip` | src/libos/src/time/mod.rs:65-76 | A valid timeval comes back unchanged from timeval → Duration → timeval. |
| `TimeValues.TimespecValidate` | src/libos/src/time/mod.rs:125-131 | Succeeds exactly when `sec >= 0` and `0 <= nsec < 1_000_000_000`. Otherwise it fails with EINVAL. |
| `TimeValues.TimespecFromRaw` | src/libos/src/time/mod.rs:119-123 | Returns the value read exactly when it validates. Otherwise it returns EINVAL. |
| `TimeValues.TimespecAsDuration` | src/libos/src/time/mod.rs:141-143 | A valid timespec converts without panicking to the Duration with the same seconds and nanoseconds. |
| `TimeValues.TimespecFromDuration` | src/libos/src/time/mod.rs:94-101 | Keeps the nanoseconds. The result is valid exactly when the Duration's seconds fit in `i64`. |
| `TimeValues.DurationTimespecRoundTrip` | src/libos/src/time/mod.rs:94-101 | For every Duration whose seconds fit in `i64`, `timespec_t::from(d)` is valid and its `as_duration` is exactly `d`. |
| `TimeValues.TimespecRoundTrip` | src/libos/src/time/mod.rs:141-143 | A valid timespec comes back unchanged from timespec → Duration → timespec. |
| `TimeValues.TimespecValidIsImage` | src/libos/src/time/mod.rs:125-131 | A timespec is valid exactly when it is `from(d)` for some Duration `d` whose seconds fit in `i64`. |
| `TimeValues.TimespecFromTimeval` | src/libos/src/time/mod.rs:103-110 | Keeps `sec`. Sets `nsec = usec * 1000` whenever that product fits in `i64`. |
| `TimeValues.TimevalToTimespecPreserves` | src/libos/src/time/mod.rs:103-110 | A valid timeval becomes the valid timespec `(sec, usec*1000)`, and the two denote the same Duration. |
| `TimeValues.TimespecFromTime` | src/libos/src/time/mod.rs:112-116 | Gives `(time, 0)`. This is valid exactly when `time >= 0`, and then it denotes `time` whole seconds. |
| `Itimerspec.ItimerspecValidate` | src/libos/src/time/mod.rs:300-304 | Succeeds exactly when both the interval and the value validate. Otherwise it fails with EINVAL. |
| `Itimerspec.ItimerspecFromRaw` | src/libos/src/time/mod.rs:295-299 | Returns the pair read exactly when both components validate. Otherwise it returns EINVAL. |
| `Itimerspec.ItimerspecFromDurations` | src/libos/src/time/mod.rs:307-317 | Keeps both nanosecond parts. The result validates exactly when both second counts fit in `i64`. |
| `Itimerspec.DurationsFromItimerspec` | src/libos/src/time/mod.rs:319-329 | A valid pair converts without panicking, component by component, to the Durations with the same seconds and nanoseconds. |
| `Itimerspec.DurationsRoundTrip` | src/libos/src/time/mod.rs:307-329 | TimerfileDurations → itimerspec → TimerfileDurations is the identity while both second counts fit in `i64`. |
| `Itimerspec.ItimerspecRoundTrip` | src/libos/src/time/mod.rs:307-329 | A valid itimerspec comes back unchanged from itimerspec → TimerfileDurations → itimerspec. |
| `Clocks.ClockGettime` | src/libos/src/time/mod.rs:149-161 | For the two CPU-time clocks it returns EINVAL whatever the host clock would answer. For any other clock it returns when the host reading succeeds and its seconds fit in `i64`, and it panics otherwise. It never returns any other error. The timespec it returns is valid and denotes exactly the host's reading. |
| `Clocks.ResolutionValidate` | src/libos/src/time/mod.rs:165-172 | Accepts exactly `sec == 0 && 0 < nsec < 1e9`. Otherwise it fails with EINVAL. |
| `Clocks.ResolutionIsSubSecond` | src/libos/src/time/mod.rs:165-172 | An accepted resolution is a valid timespec whose Duration lies strictly between 0 and 1 s. |
| `Clocks.ClockGetres` | src/libos/src/time/mod.rs:163-176 | Returns exactly when the host's resolution has 0 seconds and a positive number of nanoseconds, and then returns `(0, nanos)`. Otherwise it panics. It never returns an error. |
| `Clocks.Gettimeofday` | src/libos/src/time/mod.rs:79-84 | Returns exactly when the real-time reading succeeds and its seconds fit in `i64`. The timeval is valid and denotes the reading truncated to whole microseconds. |
| `Durations.DurationNew` | src/libos/src/time/mod.rs:66 | Panics exactly when carrying whole seconds out of `nanos` overflows `u64`. Otherwise it keeps the total length, and it is the identity on an in-range `nanos`. |
| `Durations.DurationLessIsShorter` | src/libos/src/time/mod.rs:205 | The derived lexicographic `<` on Duration is the order of total nanoseconds. |
| `Durations.DurationSub` | src/libos/src/time/mod.rs:206 | For `b <= a`, `a - b` has length `len(a) - len(b)` and is no longer than `a`. |
| `Nanosleep.WakeOutcome` | src/libos/src/time/mod.rs:214-225 | A timeout gives `Ok(0)` and an interrupt gives `Err(EINTR)`, each in both directions. An explicit wake or any other errno panics. |
| `Nanosleep.ClockNanosleep` | src/libos/src/time/mod.rs:184-237 | A clock other than REALTIME, MONOTONIC or BOOTTIME gives EINVAL without waiting. Relative mode waits for `req`. Absolute mode passes on a clock error, returns `Ok(0)` without waiting when `target <= now`, and otherwise waits for `target - now`. The waiter's outcome alone decides the result. In relative mode, after a timeout or an interrupt, `rem` receives what the waiter left, and that is valid and no longer than `req`. Absolute mode never writes `rem`. |
| `Nanosleep.Nanosleep` | src/libos/src/time/mod.rs:180-182 | A relative real-time sleep for `req`. It writes back the waiter's remaining time, valid and no longer than `req`. |
| `Nanosleep.RemainingWithinRequest` | src/libos/src/time/mod.rs:227-234 | For a valid request and a waiter that keeps its promise, the timespec written to `rem` is valid and no longer than the request. |
| `Nanosleep.AbsoluteWaitEndsAtTarget` | src/libos/src/time/mod.rs:203-207 | The absolute-mode wait `target - now` is positive and ends exactly at the target. |

## Left out

- `vdso_time::clock_gettime` and `clock_getres`: the host clock reads are foreign calls. They become the `HostClock` parameter.
- `Waiter::new` and `Waiter::wait_timeout`: the cooperative suspension is not modelled. Only what the waiter reports is kept, as the `Waiter` parameter, and the model does not prove that an explicit wake is unreachable. It maps such a wake to the `unreachable!` panic, as the code does.
- `do_thread_getcpuclock` and `do_rdtsc`: these are enclave-boundary calls whose transport status is asserted. The `validate` after the thread CPU clock read is `TimespecValidate`.
- `timespec_t::from_raw_ptr` and `itimerspec_t::from_raw_ptr`: the unsafe raw-pointer read is not modelled. Only the validate-then-return step on a given value is (`TimespecFromRaw`, `ItimerspecFromRaw`).
- `OcclumTimeProvider`: a thin adapter for the file system that copies the fields of a `do_clock_gettime` result.
- The accessors `sec()`, `usec()` and `nsec()`, and the constant `SC_CLK_TCK`: these are field reads and a constant with nothing to state.
- `debug_assert!(sec >= 0)` in the two `From<Duration>` conversions: a debug-only check. The model computes the release-build value. The contracts of `TimevalFromDuration` and `TimespecFromDuration` say when that value is negative.
- The `timer_file`, `timer_slack`, `up_time` and `syscalls` submodules are not part of this model. Neither is the ClockId enum's definition in the vDSO crate. Its variants are written out here after the Linux clock ids.

