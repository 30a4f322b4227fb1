/** The sliding-window admission rule of AsyncRateLimiter.acquire, as pure
    functions over the call log, and the properties the limiter relies on.

    Time is an abstract ordered quantity (`real` seconds of a monotonic clock).
    The log holds the timestamps of earlier grants, oldest first. */
module SlidingWindow {

  /** Margin added to every advised sleep so that the caller wakes just after
      the oldest grant has left the window. */
  const Margin: real := 0.01

  /** Non-decreasing order: the log is kept oldest first. */
  ghost predicate Sorted(s: seq<real>) {
    |s| <= 1 || (s[0] <= s[1] && Sorted(s[1..]))
  }

  /** In a sorted log every entry is at most every later entry. */
  lemma {:induction false} SortedAt(s: seq<real>, i: nat, j: nat)
    requires Sorted(s) && i <= j < |s|
    ensures s[i] <= s[j]
    decreases j
  {
    if i < j {
      if i == 0 {
        SortedAt(s[1..], 0, j - 1);
        if j > 1 {
          SortedAt(s, 0, 1);
        }
      } else {
        SortedAt(s[1..], i - 1, j - 1);
      }
    }
  }

  /** A timestamp has aged out of the window at `now`. */
  predicate Stale(t: real, now: real, period: real) {
    now - t >= period
  }

  /** The purge loop: drop entries from the front while the front one has
      aged out. The survivors are a suffix of the log, every dropped entry is
      stale and the first survivor (if any) is not. */
  function Purge(log: seq<real>, now: real, period: real): (kept: seq<real>)
    ensures |kept| <= |log|
    ensures forall i :: 0 <= i < |log| - |kept| ==> Stale(log[i], now, period)
    ensures kept != [] ==> !Stale(kept[0], now, period)
    decreases |log|
  {
    if log != [] && Stale(log[0], now, period) then Purge(log[1..], now, period) else log
  }

  /** The purge only removes from the front: what survives is a suffix of
      the log, in the same order. */
  lemma {:induction false} PurgeIsSuffix(log: seq<real>, now: real, period: real)
    ensures Purge(log, now, period) == log[|log| - |Purge(log, now, period)|..]
    decreases |log|
  {
    if log != [] && Stale(log[0], now, period) {
      PurgeIsSuffix(log[1..], now, period);
      assert log[1..][|log| - 1 - |Purge(log, now, period)|..] == log[|log| - |Purge(log, now, period)|..];
    }
  }

  /** Purge removes exactly the longest stale prefix: any cut point `k` whose
      prefix is stale and whose next entry is fresh is the one Purge finds. */
  lemma PurgeIsShortestFreshSuffix(log: seq<real>, now: real, period: real, k: nat)
    requires k <= |log|
    requires forall i :: 0 <= i < k ==> Stale(log[i], now, period)
    requires k < |log| ==> !Stale(log[k], now, period)
    ensures Purge(log, now, period) == log[k..]
  {
    PurgeIsSuffix(log, now, period);
  }

  /** On a sorted log every survivor of the purge is still inside the window. */
  lemma PurgeLeavesOnlyFresh(log: seq<real>, now: real, period: real)
    requires Sorted(log)
    ensures forall t :: t in Purge(log, now, period) ==> !Stale(t, now, period)
  {
    var kept := Purge(log, now, period);
    PurgeIsSuffix(log, now, period);
    forall t | t in kept
      ensures !Stale(t, now, period)
    {
      var j :| 0 <= j < |kept| && kept[j] == t;
      assert kept[0] == log[|log| - |kept|] && kept[j] == log[|log| - |kept| + j];
      SortedAt(log, |log| - |kept|, |log| - |kept| + j);
    }
  }

  /** What one admission attempt tells its caller. `IndexError` is the
      exception raised when the log is empty yet counts as full, which only
      a quota of zero or less allows. */
  datatype Outcome = Granted | Wait(sleepFor: real) | IndexError

  /** The outcome of one attempt together with the log it leaves behind. */
  datatype Attempt = Attempt(outcome: Outcome, log: seq<real>)

  /** One pass of acquire under the lock: purge with the clock reading `now`,
      then either record `grantTime` (a second clock reading) or advise a
      sleep until the oldest survivor leaves the window. The purge is kept
      whatever the outcome. */
  function Admit(log: seq<real>, now: real, grantTime: real, maxCalls: int, period: real): (a: Attempt)
    ensures a.outcome == Granted <==> |Purge(log, now, period)| < maxCalls
    ensures a.outcome.Wait? ==> a.outcome.sleepFor > Margin
  {
    var kept := Purge(log, now, period);
    if |kept| >= maxCalls then
      if kept == [] then Attempt(IndexError, kept)
      else Attempt(Wait(period - (now - kept[0]) + Margin), kept)
    else Attempt(Granted, kept + [grantTime])
  }

  /** A step grants exactly when the purged log has room, and then appends
      exactly one timestamp, leaving at most `maxCalls`; otherwise it appends
      nothing. It raises only for a quota of zero or less, and any advised
      sleep is longer than the margin because the oldest survivor is fresh. */
  lemma AdmitOutcome(log: seq<real>, now: real, grantTime: real, maxCalls: int, period: real)
    ensures var a := Admit(log, now, grantTime, maxCalls, period);
            var kept := Purge(log, now, period);
            (a.outcome == Granted <==> |kept| < maxCalls) &&
            (a.outcome == Granted ==> a.log == kept + [grantTime] && |a.log| <= maxCalls) &&
            (a.outcome != Granted ==> a.log == kept && |a.log| >= maxCalls) &&
            (a.outcome == IndexError <==> maxCalls <= 0 && kept == []) &&
            (a.outcome.Wait? ==> a.outcome.sleepFor > Margin)
  {
  }

  /** The advised sleep ends exactly `Margin` after the oldest kept grant
      leaves the window, and is never longer than one period plus the margin
      when the log holds no timestamp later than `now`. */
  lemma WaitEndsAfterOldestExpires(log: seq<real>, now: real, grantTime: real, maxCalls: int, period: real)
    requires Admit(log, now, grantTime, maxCalls, period).outcome.Wait?
    ensures var a := Admit(log, now, grantTime, maxCalls, period);
            a.log != [] &&
            now + a.outcome.sleepFor == a.log[0] + period + Margin &&
            Stale(a.log[0], now + a.outcome.sleepFor, period)
    ensures (forall t :: t in log ==> t <= now) ==>
            Admit(log, now, grantTime, maxCalls, period).outcome.sleepFor <= period + Margin
  {
    var a := Admit(log, now, grantTime, maxCalls, period);
    PurgeIsSuffix(log, now, period);
    assert a.log[0] in log;
  }

  lemma {:induction false} SuffixOfSorted(s: seq<real>, k: nat)
    requires Sorted(s) && k <= |s|
    ensures Sorted(s[k..])
    decreases k
  {
    if k > 0 {
      SuffixOfSorted(s[1..], k - 1);
      assert s[1..][k - 1..] == s[k..];
    }
  }

  lemma {:induction false} AppendToSorted(s: seq<real>, x: real)
    requires Sorted(s) && forall t :: t in s ==> t <= x
    ensures Sorted(s + [x])
    decreases |s|
  {
    if |s| >= 1 {
      assert s[0] in s;
      if |s| >= 2 {
        assert forall t :: t in s[1..] ==> t in s;
      }
      AppendToSorted(s[1..], x);
      assert (s + [x])[1..] == s[1..] + [x];
    }
  }

  /** With a monotonic clock (every logged time at most `now`, and
      `now <= grantTime`), a step keeps the log sorted and bounded by the
      latest reading. */
  lemma AdmitKeepsSorted(log: seq<real>, now: real, grantTime: real, maxCalls: int, period: real)
    requires Sorted(log)
    requires forall t :: t in log ==> t <= now
    requires now <= grantTime
    ensures var a := Admit(log, now, grantTime, maxCalls, period);
            Sorted(a.log) &&
            forall t :: t in a.log ==> t <= (if a.outcome == Granted then grantTime else now)
  {
    var kept := Purge(log, now, period);
    PurgeIsSuffix(log, now, period);
    SuffixOfSorted(log, |log| - |kept|);
    assert forall t :: t in kept ==> t in log;
    if |kept| < maxCalls {
      AppendToSorted(kept, grantTime);
    }
  }

  /** The number of grants a window may hold; a quota of zero or less
      admits nothing. */
  function Capacity(maxCalls: int): nat {
    if maxCalls < 0 then 0 else maxCalls
  }

  /** The log never outgrows the quota: if it fits before a step, it fits
      after. */
  lemma AdmitKeepsLengthBound(log: seq<real>, now: real, grantTime: real, maxCalls: int, period: real)
    requires |log| <= Capacity(maxCalls)
    ensures |Admit(log, now, grantTime, maxCalls, period).log| <= Capacity(maxCalls)
  {
  }

  /** A lone caller that sleeps as advised and tries again is granted: the
      oldest entry has then aged out, which frees a slot in a log that was
      exactly full. */
  lemma RetryAfterAdvisedSleepIsGranted(log: seq<real>, now: real, grantTime: real,
                                        later: real, laterGrant: real, maxCalls: int, period: real)
    requires |log| <= maxCalls
    requires Admit(log, now, grantTime, maxCalls, period).outcome.Wait?
    requires later >= now + Admit(log, now, grantTime, maxCalls, period).outcome.sleepFor
    ensures var a := Admit(log, now, grantTime, maxCalls, period);
            Admit(a.log, later, laterGrant, maxCalls, period).outcome == Granted
  {
    var a := Admit(log, now, grantTime, maxCalls, period);
    WaitEndsAfterOldestExpires(log, now, grantTime, maxCalls, period);
    assert Stale(a.log[0], later, period);
    var again := Purge(a.log, later, period);
    assert |again| < |a.log|;
  }

  // ---------------------------------------------------------------------
  // The quota: no window of length `period` holds more than `maxCalls`
  // grants. A grant at time t lies in the window ending at x when
  // x - period < t <= x, the same boundary the purge uses.
  // ---------------------------------------------------------------------

  /** Number of entries of `s` in the half-open interval (lo, hi]. */
  function CountIn(s: seq<real>, lo: real, hi: real): (n: nat)
    ensures n <= |s|
  {
    if s == [] then 0
    else CountIn(s[..|s| - 1], lo, hi) + (if lo < s[|s| - 1] <= hi then 1 else 0)
  }

  lemma {:induction false} CountInNone(s: seq<real>, lo: real, hi: real)
    requires forall i :: 0 <= i < |s| ==> s[i] <= lo
    ensures CountIn(s, lo, hi) == 0
  {
    if s != [] {
      CountInNone(s[..|s| - 1], lo, hi);
    }
  }

  /** Grants of `s` that fall in the window of length `period` ending at `x`. */
  function WindowCount(s: seq<real>, x: real, period: real): nat {
    CountIn(s, x - period, x)
  }

  lemma {:induction false} CountInConcat(a: seq<real>, b: seq<real>, lo: real, hi: real)
    ensures CountIn(a + b, lo, hi) == CountIn(a, lo, hi) + CountIn(b, lo, hi)
    decreases |b|
  {
    if b == [] {
      assert a + b == a;
    } else {
      assert (a + b)[..|a + b| - 1] == a + b[..|b| - 1];
      CountInConcat(a, b[..|b| - 1], lo, hi);
    }
  }

  /** The quota holds for a history of grants. */
  ghost predicate WithinQuota(grants: seq<real>, maxCalls: int, period: real) {
    forall x :: WindowCount(grants, x, period) <= Capacity(maxCalls)
  }

  /** What ties the full history of grants to the log: the log is the most
      recent part of the history, and every older grant had aged out by the
      latest clock reading `clock`. */
  ghost predicate Tracks(grants: seq<real>, log: seq<real>, clock: real, period: real) {
    |log| <= |grants| &&
    (forall i :: |grants| - |log| <= i < |grants| ==> grants[i] == log[i - (|grants| - |log|)]) &&
    forall i :: 0 <= i < |grants| - |log| ==> Stale(grants[i], clock, period)
  }

  ghost predicate WindowInvariant(grants: seq<real>, log: seq<real>, clock: real, maxCalls: int, period: real) {
    Tracks(grants, log, clock, period) && WithinQuota(grants, maxCalls, period)
  }

  /** The history reached after one step. */
  function Record(grants: seq<real>, outcome: Outcome, grantTime: real): seq<real> {
    if outcome == Granted then grants + [grantTime] else grants
  }

  /** Purging with a later clock reading keeps the history tracked: what the
      purge drops is stale at `now`, and so is everything dropped before. */
  lemma PurgeKeepsTracking(grants: seq<real>, log: seq<real>, clock: real, now: real, period: real)
    requires Tracks(grants, log, clock, period)
    requires clock <= now
    ensures Tracks(grants, Purge(log, now, period), now, period)
  {
    var kept := Purge(log, now, period);
    PurgeIsSuffix(log, now, period);
    var before := |grants| - |log|;
    forall i | 0 <= i < |grants| - |kept|
      ensures Stale(grants[i], now, period)
    {
      if i >= before {
        assert grants[i] == log[i - before];
      }
    }
    assert kept == grants[|grants| - |kept|..];
  }

  /** A tracked history is its older part followed by the log. */
  lemma TrackedSplit(grants: seq<real>, log: seq<real>, clock: real, period: real)
    requires Tracks(grants, log, clock, period)
    ensures grants == grants[..|grants| - |log|] + log
  {
    var cut := |grants| - |log|;
    forall i | 0 <= i < |grants|
      ensures grants[i] == (grants[..cut] + log)[i]
    {
      if i >= cut {
        assert log[i - cut] == grants[i];
      }
    }
  }

  /** A window that holds a grant made at or after `now` holds none of the
      grants that had aged out by `now`: only the log can fill it. */
  lemma WindowAtGrant(older: seq<real>, kept: seq<real>, now: real, grantTime: real, x: real, period: real)
    requires forall i :: 0 <= i < |older| ==> Stale(older[i], now, period)
    requires now <= grantTime && x - period < grantTime <= x
    ensures WindowCount(older + kept, x, period) <= |kept|
  {
    var lo := x - period;
    forall i | 0 <= i < |older| ensures older[i] <= lo {
      assert Stale(older[i], now, period);
    }
    CountInNone(older, lo, x);
    CountInConcat(older, kept, lo, x);
  }

  /** A grant made while fewer than `maxCalls` entries of the history are
      fresh keeps every window within the quota: a window holding the new
      grant ends at or after `now`, so it holds none of the older, stale
      grants. The history is split into those and the log `kept`. */
  lemma GrantKeepsQuota(older: seq<real>, kept: seq<real>, now: real, grantTime: real, maxCalls: int, period: real)
    requires forall i :: 0 <= i < |older| ==> Stale(older[i], now, period)
    requires WithinQuota(older + kept, maxCalls, period)
    requires |kept| < maxCalls && now <= grantTime
    ensures WithinQuota(older + kept + [grantTime], maxCalls, period)
  {
    var grants := older + kept;
    forall x
      ensures WindowCount(grants + [grantTime], x, period) <= Capacity(maxCalls)
    {
      CountInConcat(grants, [grantTime], x - period, x);
      assert [grantTime][..0] == [];
      assert WindowCount(grants, x, period) <= Capacity(maxCalls);
      if x - period < grantTime <= x {
        WindowAtGrant(older, kept, now, grantTime, x, period);
      }
    }
  }

  /** The quota invariant: every step of the limiter, with clock readings
      that do not go backwards, keeps every window within `maxCalls` grants. */
  lemma AdmitKeepsQuota(grants: seq<real>, log: seq<real>, clock: real,
                        now: real, grantTime: real, maxCalls: int, period: real)
    requires WindowInvariant(grants, log, clock, maxCalls, period)
    requires clock <= now <= grantTime
    ensures var a := Admit(log, now, grantTime, maxCalls, period);
            WindowInvariant(Record(grants, a.outcome, grantTime), a.log,
                            NextClock(a.outcome, now, grantTime), maxCalls, period)
  {
    var kept := Purge(log, now, period);
    PurgeKeepsTracking(grants, log, clock, now, period);
    if |kept| < maxCalls {
      var older := grants[..|grants| - |kept|];
      TrackedSplit(grants, kept, now, period);
      GrantKeepsQuota(older, kept, now, grantTime, maxCalls, period);
      var grants' := grants + [grantTime];
      var log' := kept + [grantTime];
      assert log' == grants'[|grants'| - |log'|..];
      forall i | 0 <= i < |grants'| - |log'|
        ensures Stale(grants'[i], grantTime, period)
      {
        assert grants'[i] == grants[i];
      }
    }
  }

  /** The latest clock reading after a step. */
  function NextClock(outcome: Outcome, now: real, grantTime: real): real {
    if outcome == Granted then grantTime else now
  }

  /** Everything the limiter maintains about its log and history. */
  ghost predicate LimiterState(log: seq<real>, grants: seq<real>, clock: real, maxCalls: int, period: real) {
    Sorted(log) &&
    (forall i :: 0 <= i < |log| ==> log[i] <= clock) &&
    |log| <= Capacity(maxCalls) &&
    WindowInvariant(grants, log, clock, maxCalls, period)
  }

  /** Every step preserves the limiter's state invariant, provided the clock
      has not gone backwards since the last grant. */
  lemma AdmitKeepsLimiterState(log: seq<real>, grants: seq<real>, clock: real,
                               now: real, grantTime: real, maxCalls: int, period: real)
    requires LimiterState(log, grants, clock, maxCalls, period)
    requires (grants == [] || clock <= now) && now <= grantTime
    ensures var a := Admit(log, now, grantTime, maxCalls, period);
            LimiterState(a.log, Record(grants, a.outcome, grantTime), NextClock(a.outcome, now, grantTime), maxCalls, period)
  {
    var clock' := if grants == [] then now else clock;
    assert WindowInvariant(grants, log, clock', maxCalls, period);
    forall t | t in log ensures t <= now {
      var i :| 0 <= i < |log| && log[i] == t;
    }
    AdmitKeepsSorted(log, now, grantTime, maxCalls, period);
    var a := Admit(log, now, grantTime, maxCalls, period);
    forall i | 0 <= i < |a.log| ensures a.log[i] <= NextClock(a.outcome, now, grantTime) {
      assert a.log[i] in a.log;
    }
    AdmitKeepsLengthBound(log, now, grantTime, maxCalls, period);
    AdmitKeepsQuota(grants, log, clock', now, grantTime, maxCalls, period);
  }
}
