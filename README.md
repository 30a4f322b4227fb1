# Sliding-window rate limiter and retry backoff

A Dafny model of the call-rate governor in `src/agents/rate_limiter.py`:

- `AsyncRateLimiter`, a sliding-window limiter. It keeps a log of grant timestamps, oldest first. Each call of `acquire` purges the timestamps that have aged out of the window. It then grants and records a timestamp if fewer than `max_calls` remain, or sleeps until the oldest one ages out and tries again.
- `rate_limited`, the admission gate. It performs one `acquire` on entry and nothing on exit.
- `compute_backoff`, the retry delay: `min(base * 2^attempt, max_backoff)` scaled by a jitter factor in [0.7, 1.3).

The project has three modules:

- `SlidingWindow` (`sliding_window.dfy`) holds the pure rule of one admission attempt. `Purge` is the purge loop and `Admit` is one attempt. The module also proves the properties the limiter relies on. The log stays sorted and stays within the quota. Every survivor of the purge is fresh. Advised sleeps are longer than the 0.01 s margin. No window of length `period` ever holds more than `max_calls` grants.
- `RateLimiter` (`rate_limiter.dfy`) holds the limiter object. The class `AsyncRateLimiter` has its configuration as `const` fields (set only by the constructor) and the log as a `seq<real>` field. `PurgeStale` pops stale entries off the front in a `while` loop, and `Step` is one attempt under the lock. Both are proved against `Purge` and `Admit`. `PurgeAndCheck` is the body of `Step`'s critical section. It is split out so that its proof does not carry the object invariant, which keeps the proof cheap. `Acquire` is the retry: after an advised sleep it calls itself on the remaining readings, as the source does, and it is proved against the function `RetryLoop`. `RateLimited` is the gate. Ghost fields keep the full history of grants and the latest clock reading, so that the object invariant can state the quota over all windows.
- `Backoff` (`backoff.dfy`) holds `compute_backoff` as a pure function over `real`. The random draw is a parameter `r` with `0 <= r < 1`.

Time is a `real` number of seconds on a monotonic clock. `time.monotonic()` is not called. Each attempt receives the two readings the source takes: `now` before the purge and `grantTime` when it records a grant. The monotonic-clock guarantee becomes the precondition `ClockAllows`. The sleeps are not performed either. `Acquire` returns the sleep durations it advised, and the reading of the next attempt stands for the time after the sleep.

In these places the model follows the code where it differs from what the limiter is meant to do:

- The constructor does not validate `max_calls` or `period`. With `max_calls <= 0` and an empty purged log, the code indexes `_events[0]` and raises `IndexError`. The model has this as the outcome `IndexError`.
- `random.random()` is below 1, so the jitter band is [0.7, 1.3), not the closed band.

In two places the project carries both versions, and the rest of the model uses the corrected one (see Findings):

- The lock. The code holds its lock across the sleep and then calls `acquire` again. The lock is meant to be released before sleeping, so that no caller waits on the lock while another one sleeps. `RateLimiter.AcquireAsWritten` follows the code. `RateLimiter.AsyncRateLimiter.Acquire` releases the lock before the sleep, and `RateLimited` and `SleepingAsAdvisedIsGranted` build on it.
- The overflow. The code converts `2 ** attempt` to a float before clamping, which raises OverflowError for large attempts. `Backoff.ComputeBackoffAsWritten` follows the code. `Backoff.ComputeBackoff` saturates at `max_backoff` for every attempt.

## Model

| member | source | states |
|---|---|---|
| SlidingWindow.Purge | src/agents/rate_limiter.py:30-31 | The purge keeps at most the entries it was given. Every entry it drops is stale (`now - t >= period`). The first survivor, if any, is fresh. |
| SlidingWindow.PurgeIsSuffix | src/agents/rate_limiter.py:30-31 | The purge only pops from the front. The survivors are a suffix of the old log, in the same order. |
| SlidingWindow.PurgeIsShortestFreshSuffix | src/agents/rate_limiter.py:30-31 | Reference characterisation of the purge: any cut whose prefix is all stale and whose next entry is fresh gives exactly the purge's result. |
| SlidingWindow.PurgeLeavesOnlyFresh | src/agents/rate_limiter.py:30-31 | On a sorted log, every timestamp left after the purge satisfies `now - t < period`. |
| SlidingWindow.Admit | src/agents/rate_limiter.py:28-36 | One attempt under the lock grants exactly when the purged log has fewer than `max_calls` entries, and any sleep it advises is longer than the 0.01 margin. |
| SlidingWindow.AdmitOutcome | src/agents/rate_limiter.py:30-36 | An attempt grants exactly when the purged log has fewer than `max_calls` entries. A grant appends exactly one timestamp and leaves at most `max_calls`. Otherwise nothing is appended. `IndexError` occurs exactly when `max_calls <= 0` and the purged log is empty. Any advised sleep is longer than 0.01. |
| SlidingWindow.WaitEndsAfterOldestExpires | src/agents/rate_limiter.py:33 | The advised sleep ends exactly 0.01 after the oldest survivor ages out, and the oldest survivor is stale at the wake-up time. When no logged time is later than `now`, the sleep is at most `period + 0.01`. |
| SlidingWindow.AdmitKeepsSorted | src/agents/rate_limiter.py:28-36 | With a non-decreasing clock, an attempt keeps the log sorted oldest first, and no entry is later than the latest reading. |
| SlidingWindow.AdmitKeepsLengthBound | src/agents/rate_limiter.py:32-36 | If the log holds at most `max_calls` entries (none when `max_calls <= 0`), so does the log after any attempt. |
| SlidingWindow.RetryAfterAdvisedSleepIsGranted | src/agents/rate_limiter.py:30-35 | A lone caller that sleeps at least the advised time and tries again is granted, provided the log was within the quota. |
| SlidingWindow.PurgeKeepsTracking | src/agents/rate_limiter.py:28-31 | After a purge with a later clock reading, every grant that is no longer in the log is stale. |
| SlidingWindow.GrantKeepsQuota | src/agents/rate_limiter.py:32-36 | The history splits into grants that are stale at the attempt's first clock reading and the purged log. A grant made while the purged log holds fewer than `max_calls` entries keeps every window of length `period` within `max_calls` grants. |
| SlidingWindow.AdmitKeepsQuota | src/agents/rate_limiter.py:26-36 | Quota invariant: every attempt with a non-decreasing clock keeps the whole history of grants within `max_calls` per window of length `period`. The log remains the recent part of that history. |
| SlidingWindow.AdmitKeepsLimiterState | src/agents/rate_limiter.py:26-36 | Every attempt preserves the limiter's whole state invariant: sorted, bounded, tracked and within the quota. |
| RateLimiter.AsyncRateLimiter.constructor | src/agents/rate_limiter.py:20-24 | Stores `max_calls` and `period` unvalidated and starts with an empty log that satisfies the invariant. |
| RateLimiter.AsyncRateLimiter.PurgeStale | src/agents/rate_limiter.py:30-31 | The in-place purge loop leaves exactly `Purge` of the old log and changes nothing else. |
| RateLimiter.AsyncRateLimiter.Step | src/agents/rate_limiter.py:26-36 | One attempt under the lock. The outcome and new log are those of `Admit`. The history and the clock become `Record` and `NextClock` of the outcome: only a grant adds to the history, and exactly its timestamp. The invariant is kept. `max_calls` and `period` are `const` and cannot change. |
| RateLimiter.AsyncRateLimiter.PurgeAndCheck | src/agents/rate_limiter.py:30-36 | The body of the critical section: purge, then check, then append or advise a sleep. The outcome and new log are those of `Admit`, and the history and the clock are `Record` and `NextClock` of the outcome. |
| RateLimiter.RetryLoop | src/agents/rate_limiter.py:26-35 | The retry loop ends at the first attempt that does not wait. A loop that ends at attempt k advised exactly k sleeps. A loop that runs out of readings advised one sleep per reading. |
| RateLimiter.RetrySleepsExceedMargin | src/agents/rate_limiter.py:33-35 | Every sleep the retry loop advises is longer than the 0.01 margin. |
| RateLimiter.SleepingAsAdvisedIsGranted | src/agents/rate_limiter.py:26-35 | With `max_calls >= 1` and a log within the quota, a lone caller that sleeps as advised is granted on its first or second attempt. |
| RateLimiter.AsyncRateLimiter.Acquire | src/agents/rate_limiter.py:26-35 | acquire with the lock released before the sleep, calling itself again on the remaining readings. Its ending, advised sleeps and final log equal `RetryLoop`. The history gains exactly the granting attempt's timestamp, or nothing. The clock ends at the last reading taken: the granting attempt's `grantTime`, or the `now` of the last attempt. The invariant is kept, so the same limiter can be acquired again. |
| RateLimiter.RateLimited | src/agents/rate_limiter.py:45-48 | One acquire on entry and nothing on exit. The gate is entered exactly when `RetryLoop` ends in a grant, and the log is the one `RetryLoop` leaves. Entering adds to the history exactly the timestamp of the granting attempt, after every earlier grant. Not entering adds none. The invariant and the clock are left as `Acquire` states, so the gate can be entered again. |
| RateLimiter.AcquireAsWritten | src/agents/rate_limiter.py:27-35 | As written, for a call that finds the lock free, the call hangs exactly when its first attempt has to wait. It returns exactly when the purged log has room. |
| RateLimiter.ThirdCallAtAnyInstant | src/agents/rate_limiter.py:26-36 | With `max_calls=2`, any `period > 0` and any instant t: the first two calls at t are granted, and a third call is told to sleep `period + 0.01` and is granted when it wakes. |
| RateLimiter.ThirdCallInOneInstant | src/agents/rate_limiter.py:26-36 | `max_calls=2`, `period=1.0`, three calls at t=0. The first two are granted. The third hangs as written. With the lock released before the sleep, it is told to sleep 1.01 and is granted at t=1.01. |
| Backoff.Pow2 | src/agents/rate_limiter.py:42 | `2 ** attempt` is positive for every integer attempt, negative ones included. |
| Backoff.Pow2Monotone | src/agents/rate_limiter.py:42 | `2 ** attempt` is non-decreasing in the attempt. |
| Backoff.Pow2Unbounded | src/agents/rate_limiter.py:42 | `2 ** n >= n + 1`, so the exponential outgrows every bound. |
| Backoff.Raw | src/agents/rate_limiter.py:42 | `raw` is never greater than `max_backoff`. It equals `base * 2^attempt` whenever that is at most `max_backoff`, and `max_backoff` otherwise. |
| Backoff.Jitter | src/agents/rate_limiter.py:43 | For `r` in [0, 1), the jitter factor lies in [0.7, 1.3). |
| Backoff.ComputeBackoff | src/agents/rate_limiter.py:42-43 | For `raw >= 0`, the delay lies in `[0.7*raw, 1.3*raw]`, strictly below `1.3*raw` when `raw > 0`, and never above `1.3*max_backoff`. |
| Backoff.RawMonotone | src/agents/rate_limiter.py:42 | For `base >= 0`, `raw` is non-decreasing in the attempt. |
| Backoff.BackoffMonotone | src/agents/rate_limiter.py:42-43 | For `base >= 0` and the same draw, a later attempt never gets a shorter delay. |
| Backoff.SaturationAttempt | src/agents/rate_limiter.py:42 | For `base > 0` there is an attempt number at which `base * 2^k` reaches `max_backoff`. |
| Backoff.RawSaturates | src/agents/rate_limiter.py:42 | From the saturation attempt on, `raw` equals `max_backoff` exactly, however large the attempt. |
| Backoff.DefaultsSaturateFromAttemptFour | src/agents/rate_limiter.py:11-12 | With `base=1.0` and `max=12.0`, `raw` is 12.0 from attempt 4 on, and the delay lies in [8.4, 15.6). |
| Backoff.ComputeBackoffAsWritten | src/agents/rate_limiter.py:42-43 | As written, the call raises OverflowError exactly when `attempt >= 1024`, or when `attempt <= -(2^1024 - 2^970)`, where the exponent itself rounds past the largest double. Otherwise it returns the clamped, jittered delay. |
| Backoff.AsWrittenOverflowsAfterSaturation | src/agents/rate_limiter.py:42 | With the defaults, attempt 1024 raises as written, though the clamped delay is defined and equals `0.7 * 12.0` for `r = 0`. |

## Findings

| source | as written | input that shows it | evidently intended | confidence | as-written member | corrected member |
|---|---|---|---|---|---|---|
| src/agents/rate_limiter.py:27-35 | `acquire` sleeps inside `async with self._lock` and then awaits `self.acquire()`. The nested call waits for the same `asyncio.Lock`, which is not re-entrant, so a call that has to wait never returns. Every other caller then blocks on the lock too; the model shows the hang of the waiting call and does not model the other callers. | `max_calls=2`, `period=1.0`, three `acquire()` calls at t=0 | Give up the lock before sleeping, then call `acquire` again to retry the purge and check | high; not executed | RateLimiter.AcquireAsWritten | RateLimiter.AsyncRateLimiter.Acquire |
| src/agents/rate_limiter.py:42 | `_BASE_BACKOFF * (2 ** attempt)` converts the integer `2 ** attempt` to a float before `min` clamps it. From `attempt = 1024` on, that conversion raises OverflowError. | `compute_backoff(1024)` with the defaults | Saturate at `max_backoff` for every attempt | high; not executed | Backoff.ComputeBackoffAsWritten | Backoff.ComputeBackoff |

`RateLimiter.ThirdCallInOneInstant` exhibits the first row: the third call hangs as written and is granted at t=1.01 by the corrected `Acquire`. `RateLimiter.SleepingAsAdvisedIsGranted` proves the intended progress for a lone caller whose log is within the quota. `Backoff.AsWrittenOverflowsAfterSaturation` exhibits the second row. `Backoff.RawSaturates` proves the intended saturation.

## Left out

- asyncio itself is not modelled: the lock, task suspension, `asyncio.sleep` and cancellation. Each `Step` is one critical section under the lock, and concurrent callers appear as any interleaving of `Step` calls. The quota invariant is proved per step, so it holds for every interleaving. No fairness or liveness is claimed for several concurrent callers.
- `time.monotonic()` is not called. Its readings are inputs, with the monotonic-clock guarantee as the precondition `ClockAllows` / `Monotonic`.
- Floating point is not modelled. Times and delays are exact `real`s, so IEEE rounding of `now - t`, of the 0.01 margin and of the jitter product is not captured. For attempts far below zero the float power underflows to 0.0, while the model keeps the exact power. The one float effect kept is OverflowError: for `2 ** attempt` from 1024 on, and for exponents too large in magnitude to convert to a float.
- `random.random()` is replaced by the parameter `r` with `0 <= r < 1`.
- The environment parsing of the defaults (lines 8-12) is not modelled. The defaults appear as constants (`DefaultMaxCalls`, `DefaultPeriod`, `DefaultBaseBackoff`, `DefaultMaxBackoff`).
- `GLOBAL_RATE_LIMITER` (line 38) is not modelled as a module-level object. `RateLimited` takes the shared limiter as a parameter.
- `_MAX_RETRIES` is exported but nothing in the file consults it, so it is not modelled.
- RateLimiter.AsyncRateLimiter.Acquire: a finite sequence of readings stands for the source's unbounded retries. When the readings run out, the call ends as `StillWaiting` with no grant.
- RateLimiter.RateLimited: the protected body is the caller's code and is not modelled. The method states only what the gate itself does on entry and on exit.
- src/services/vector_service.py, src/config/settings.py and src/config/chroma_settings.py are not part of this model. They wrap an external vector store and read configuration.
