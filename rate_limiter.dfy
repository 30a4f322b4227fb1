/** AsyncRateLimiter: the limiter object shared by every caller of one quota,
    its retry loop, and the rate_limited admission gate.

    The clock is not read here: each attempt receives the two monotonic clock
    readings the source takes (`now` before the purge and `grantTime` when
    recording a grant), and sleeping is left to the caller, who receives the
    advised durations. */
module RateLimiter {
  import opened SlidingWindow

  /** Defaults of the configuration the shared limiter is built from. */
  const DefaultMaxCalls: int := 4
  const DefaultPeriod: real := 1.0

  /** The two clock readings taken by one attempt. */
  datatype Reading = Reading(now: real, grantTime: real)

  /** Readings of a monotonic clock, in the order the attempts take them. */
  ghost predicate Monotonic(readings: seq<Reading>) {
    (forall i :: 0 <= i < |readings| ==> readings[i].now <= readings[i].grantTime) &&
    (forall i, j :: 0 <= i < j < |readings| ==> readings[i].grantTime <= readings[j].now)
  }

  /** How a call of acquire ends after some attempts: granted on attempt
      `attempt`, failed with the IndexError of a quota of zero or less, or
      still waiting when the readings run out. */
  datatype Acquisition = Acquired(attempt: nat) | Raised(attempt: nat) | StillWaiting {
    /** The same ending, counted `n` attempts later. */
    function Later(n: nat): Acquisition {
      match this
      case Acquired(k) => Acquired(k + n)
      case Raised(k) => Raised(k + n)
      case StillWaiting => StillWaiting
    }
  }

  /** The ending of a retry loop, the sleeps it advised and the log it left. */
  datatype Retry = Retry(result: Acquisition, sleeps: seq<real>, log: seq<real>)

  /** The retry loop of acquire, one attempt per reading: a grant or an
      IndexError ends it, a wait advises a sleep and moves to the next
      reading. The attempt that ends the loop is the first that does not
      wait. */
  function RetryLoop(log: seq<real>, readings: seq<Reading>, maxCalls: int, period: real): (r: Retry)
    ensures r.result.Acquired? || r.result.Raised? ==>
              r.result.attempt < |readings| && |r.sleeps| == r.result.attempt
    ensures r.result.StillWaiting? ==> |r.sleeps| == |readings|
    decreases |readings|
  {
    if readings == [] then Retry(StillWaiting, [], log)
    else
      var a := Admit(log, readings[0].now, readings[0].grantTime, maxCalls, period);
      match a.outcome
      case Granted => Retry(Acquired(0), [], a.log)
      case IndexError => Retry(Raised(0), [], a.log)
      case Wait(sleepFor) =>
        var rest := RetryLoop(a.log, readings[1..], maxCalls, period);
        Retry(rest.result.Later(1), [sleepFor] + rest.sleeps, rest.log)
  }

  /** Every sleep the retry loop advises is longer than the margin. */
  lemma {:induction false} RetrySleepsExceedMargin(log: seq<real>, readings: seq<Reading>, maxCalls: int, period: real)
    ensures forall s :: s in RetryLoop(log, readings, maxCalls, period).sleeps ==> s > Margin
    decreases |readings|
  {
    if readings != [] {
      var a := Admit(log, readings[0].now, readings[0].grantTime, maxCalls, period);
      if a.outcome.Wait? {
        AdmitOutcome(log, readings[0].now, readings[0].grantTime, maxCalls, period);
        var rest := RetryLoop(a.log, readings[1..], maxCalls, period);
        RetrySleepsExceedMargin(a.log, readings[1..], maxCalls, period);
        assert RetryLoop(log, readings, maxCalls, period).sleeps == [a.outcome.sleepFor] + rest.sleeps;
      }
    }
  }

  /** A lone caller that sleeps at least as long as advised is granted on
      its first or second attempt, whenever the quota is at least one. */
  lemma SleepingAsAdvisedIsGranted(log: seq<real>, readings: seq<Reading>, maxCalls: int, period: real)
    requires 1 <= maxCalls && |log| <= maxCalls && 2 <= |readings|
    requires var a := Admit(log, readings[0].now, readings[0].grantTime, maxCalls, period);
             a.outcome.Wait? ==> readings[1].now >= readings[0].now + a.outcome.sleepFor
    ensures RetryLoop(log, readings, maxCalls, period).result in {Acquired(0), Acquired(1)}
  {
    var a := Admit(log, readings[0].now, readings[0].grantTime, maxCalls, period);
    if a.outcome.Wait? {
      RetryAfterAdvisedSleepIsGranted(log, readings[0].now, readings[0].grantTime,
                                      readings[1].now, readings[1].grantTime, maxCalls, period);
      assert readings[1..][0] == readings[1];
    }
  }

  class AsyncRateLimiter {
    const maxCalls: int
    const period: real

    /** Timestamps of recent grants, oldest first. */
    var events: seq<real>

    /** Every grant ever recorded, and the latest clock reading. */
    ghost var grants: seq<real>
    ghost var clock: real

    /** The object invariant: the log is sorted and no later than the clock,
        it never holds more than the quota, and the whole history of grants
        respects the quota in every window. */
    ghost predicate Valid()
      reads this
    {
      LimiterState(events, grants, clock, maxCalls, period)
    }

    /** The readings of one attempt come from a clock that has not gone
        backwards since the last grant. */
    ghost predicate ClockAllows(r: Reading)
      reads this
    {
      (grants == [] || clock <= r.now) && r.now <= r.grantTime
    }

    /** Stores the configuration as given (it is not validated) and starts
        with an empty log. */
    constructor (maxCalls: int, period: real)
      ensures Valid()
      ensures this.maxCalls == maxCalls && this.period == period
      ensures events == [] && grants == []
    {
      this.maxCalls := maxCalls;
      this.period := period;
      events := [];
      grants := [];
      clock := 0.0;
    }

    /** One attempt under the lock: purge the front of the log, then grant
        and record `grantTime`, or report how long to sleep. The log and the
        outcome are those of Admit; a grant adds exactly one entry to the
        history and the configuration never changes. */
    method Step(r: Reading) returns (outcome: Outcome)
      requires Valid() && ClockAllows(r)
      modifies this
      ensures Valid()
      ensures var a := Admit(old(events), r.now, r.grantTime, maxCalls, period);
              outcome == a.outcome && events == a.log
      ensures grants == Record(old(grants), outcome, r.grantTime)
      ensures clock == NextClock(outcome, r.now, r.grantTime)
    {
      AdmitKeepsLimiterState(events, grants, clock, r.now, r.grantTime, maxCalls, period);
      outcome := PurgeAndCheck(r);
    }

    /** The body of Step's critical section, with the bookkeeping of the
        history and the clock: purge, check, and append or advise a sleep.
        It is split from Step so that its proof does not carry Valid(). */
    method PurgeAndCheck(r: Reading) returns (outcome: Outcome)
      modifies this
      ensures var a := Admit(old(events), r.now, r.grantTime, maxCalls, period);
              outcome == a.outcome && events == a.log &&
              grants == Record(old(grants), outcome, r.grantTime) &&
              clock == NextClock(outcome, r.now, r.grantTime)
    {
      ghost var log0, grants0 := events, grants;
      ghost var a := Admit(log0, r.now, r.grantTime, maxCalls, period);
      PurgeStale(r.now);
      ghost var kept := events;
      if |events| >= maxCalls {
        if events == [] {
          outcome := IndexError;
        } else {
          outcome := Wait(period - (r.now - events[0]) + Margin);
        }
        assert a == Attempt(outcome, kept);
      } else {
        events := events + [r.grantTime];
        outcome := Granted;
        grants := grants + [r.grantTime];
        assert a == Attempt(Granted, kept + [r.grantTime]);
      }
      clock := NextClock(outcome, r.now, r.grantTime);
    }

    /** The purge loop: pop stale timestamps off the front of the log. */
    method PurgeStale(now: real)
      modifies this`events
      ensures events == Purge(old(events), now, period)
    {
      while events != [] && Stale(events[0], now, period)
        invariant Purge(events, now, period) == Purge(old(events), now, period)
        decreases |events|
      {
        events := events[1..];
      }
    }

    /** acquire with the lock released before the sleep: attempt, and after
        an advised sleep call acquire again on the remaining readings, until
        a grant or an IndexError. The ending, the advised sleeps and the log
        are those of RetryLoop, and only a granting attempt adds to the
        history. */
    method Acquire(readings: seq<Reading>) returns (result: Acquisition, sleeps: seq<real>)
      requires Valid() && Monotonic(readings)
      requires readings != [] ==> ClockAllows(readings[0])
      modifies this
      ensures Valid()
      ensures var spec := RetryLoop(old(events), readings, maxCalls, period);
              result == spec.result && sleeps == spec.sleeps && events == spec.log
      ensures result.Acquired? ==> grants == old(grants) + [readings[result.attempt].grantTime]
      ensures !result.Acquired? ==> grants == old(grants)
      ensures result.Acquired? ==> clock == readings[result.attempt].grantTime
      ensures result.Raised? ==> clock == readings[result.attempt].now
      ensures result.StillWaiting? && readings == [] ==> clock == old(clock)
      ensures result.StillWaiting? && readings != [] ==> clock == readings[|readings| - 1].now
      decreases |readings|
    {
      if readings == [] {
        return StillWaiting, [];
      }
      var outcome := Step(readings[0]);
      match outcome
      case Granted =>
        return Acquired(0), [];
      case IndexError =>
        return Raised(0), [];
      case Wait(sleepFor) =>
        MonotonicTail(readings);
        var rest, later := Acquire(readings[1..]);
        result, sleeps := rest.Later(1), [sleepFor] + later;
    }
  }

  /** The readings after the first stay monotonic, and the next attempt
      starts no earlier than the first one's grant reading. */
  lemma MonotonicTail(readings: seq<Reading>)
    requires Monotonic(readings) && readings != []
    ensures Monotonic(readings[1..])
    ensures |readings| > 1 ==> readings[0].now <= readings[0].grantTime <= readings[1].now
  {
  }

  /** rate_limited: one acquire on entry, then the protected body; leaving
      the block records nothing and releases nothing, so the history grows
      by exactly the one grant of entry and keeps every earlier grant. */
  method RateLimited(limiter: AsyncRateLimiter, readings: seq<Reading>) returns (entered: bool)
    requires limiter.Valid() && Monotonic(readings)
    requires readings != [] ==> limiter.ClockAllows(readings[0])
    modifies limiter
    ensures limiter.Valid()
    ensures var spec := RetryLoop(old(limiter.events), readings, limiter.maxCalls, limiter.period);
            entered == spec.result.Acquired? && limiter.events == spec.log &&
            (entered ==> limiter.clock == readings[spec.result.attempt].grantTime) &&
            (spec.result.Raised? ==> limiter.clock == readings[spec.result.attempt].now) &&
            (spec.result.StillWaiting? ==>
               limiter.clock == if readings == [] then old(limiter.clock) else readings[|readings| - 1].now)
    ensures var spec := RetryLoop(old(limiter.events), readings, limiter.maxCalls, limiter.period);
            entered ==> limiter.grants == old(limiter.grants) + [readings[spec.result.attempt].grantTime]
    ensures !entered ==> limiter.grants == old(limiter.grants)
  {
    var result, _ := limiter.Acquire(readings);
    entered := result.Acquired?;
  }

  // ---------------------------------------------------------------------
  // acquire as written holds its lock while it sleeps and then calls
  // itself, and the nested call waits for that same lock, which an
  // asyncio lock never grants to its holder. So every call that has to
  // wait never returns. Acquire above is the intended behaviour: the lock
  // is given up before the sleep and each retry starts afresh.
  // ---------------------------------------------------------------------

  /** How one call of acquire as written ends. */
  datatype CallEnd = Returned | RaisedIndexError | Hangs

  /** acquire as written, entered with its lock free: a grant returns, an
      empty full log raises, and a wait re-enters while the lock is held. */
  function AcquireAsWritten(log: seq<real>, now: real, grantTime: real, maxCalls: int, period: real): (end: CallEnd)
    ensures end == Hangs <==> |Purge(log, now, period)| >= maxCalls && Purge(log, now, period) != []
    ensures end == Returned <==> |Purge(log, now, period)| < maxCalls
  {
    match Admit(log, now, grantTime, maxCalls, period).outcome
    case Granted => Returned
    case IndexError => RaisedIndexError
    case Wait(_) => Hangs
  }

  /** Two grants at time 0 with a quota of two per second, then a third
      call at time 0: as written it never returns; with the lock released it is told to
      sleep 1.01 seconds and is granted when it tries again at 1.01. */
  lemma ThirdCallInOneInstant()
    ensures var a1 := Admit([], 0.0, 0.0, 2, 1.0);
            var a2 := Admit(a1.log, 0.0, 0.0, 2, 1.0);
            var a3 := Admit(a2.log, 0.0, 0.0, 2, 1.0);
            a1.outcome == Granted && a2.outcome == Granted &&
            AcquireAsWritten(a2.log, 0.0, 0.0, 2, 1.0) == Hangs &&
            a3.outcome == Wait(1.01) &&
            Admit(a3.log, 1.01, 1.01, 2, 1.0).outcome == Granted
  {
    assert Purge([], 0.0, 1.0) == [];
    assert Admit([], 0.0, 0.0, 2, 1.0).log == [0.0];
    assert Purge([0.0], 0.0, 1.0) == [0.0];
    assert Admit([0.0], 0.0, 0.0, 2, 1.0).log == [0.0, 0.0];
    assert Purge([0.0, 0.0], 0.0, 1.0) == [0.0, 0.0];
    assert Admit([0.0, 0.0], 0.0, 0.0, 2, 1.0) == Attempt(Wait(1.01), [0.0, 0.0]);
    RetryAfterAdvisedSleepIsGranted([0.0, 0.0], 0.0, 0.0, 1.01, 1.01, 2, 1.0);
  }

  /** The steps of that scenario at any instant `t` and for any positive
      period: two grants at `t`, then a retry loop that sleeps
      `period + Margin` and is granted on its second attempt. */
  lemma ThirdCallAtAnyInstant(t: real, period: real)
    requires period > 0.0
    ensures Admit([], t, t, 2, period) == Attempt(Granted, [t])
    ensures Admit([t], t, t, 2, period) == Attempt(Granted, [t, t])
    ensures var wake := t + period + Margin;
            RetryLoop([t, t], [Reading(t, t), Reading(wake, wake)], 2, period) ==
            Retry(Acquired(1), [period + Margin], [wake])
  {
    var wake := t + period + Margin;
    assert Purge([], t, period) == [];
    assert Purge([t], t, period) == [t];
    assert Purge([t, t], t, period) == [t, t];
    assert Purge([t, t], wake, period) == [];
    assert [Reading(t, t), Reading(wake, wake)][1..] == [Reading(wake, wake)];
  }

  /** A single reading whose purged log has room ends the loop at once
      with a grant. */
  lemma GrantOnFirstReading(log: seq<real>, r: Reading, maxCalls: int, period: real)
    requires |log| < maxCalls
    ensures RetryLoop(log, [r], maxCalls, period) ==
            Retry(Acquired(0), [], Purge(log, r.now, period) + [r.grantTime])
  {
  }

  /** The shared limiter with its default quota of four calls per second:
      two gates entered one after another on the same limiter both get in,
      whatever the readings of a monotonic clock, the second starting from
      the state the first one left. */
  method DefaultGateTwice(first: Reading, second: Reading)
    requires first.now <= first.grantTime <= second.now <= second.grantTime
  {
    var limiter := new AsyncRateLimiter(DefaultMaxCalls, DefaultPeriod);
    GrantOnFirstReading([], first, DefaultMaxCalls, DefaultPeriod);
    var entered := RateLimited(limiter, [first]);
    assert entered;
    GrantOnFirstReading(limiter.events, second, DefaultMaxCalls, DefaultPeriod);
    entered := RateLimited(limiter, [second]);
    assert entered && |limiter.grants| == 2;
  }
}
