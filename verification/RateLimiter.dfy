/** Login back-off (apps/worker/src/durable/auth-rate-limiter.ts). */
module RateLimiter {
  import opened Common

  const BASE_DELAY_SECONDS := 1
  const MAX_DELAY_SECONDS := 15 * 60
  const STATE_TTL_MS := 24 * 60 * 60 * 1_000
  const MAX_FAILURES := 31

  datatype Scope = Ip | Account

  function Threshold(scope: Scope): nat { if scope.Account? then 20 else 5 }

  datatype LimitState = LimitState(failures: nat, blockedUntil: int, lastFailureAt: int)

  type Stored = Option<LimitState>

  datatype Verdict = Verdict(allowed: bool, retryAfterSeconds: Option<int>)

  function DelaySeconds(scope: Scope, failures: nat): nat {
    if failures < Threshold(scope) then 0
    else Min(MAX_DELAY_SECONDS, BASE_DELAY_SECONDS * Pow2(failures - Threshold(scope)))
  }

  /** `Math.ceil(ms / 1000)`. */
  function SecondsUp(ms: int): int { (ms + 999) / 1000 }

  // ---------------------------------------------------------------- reference steps

  /** `readFreshState`: a state older than a day is cleared. */
  function Fresh(s: Stored, now: int): Stored {
    if s.Some? && s.value.lastFailureAt + STATE_TTL_MS > now then s else None
  }

  function CheckVerdict(s: Stored, now: int): Verdict {
    var f := Fresh(s, now);
    if f.None? || f.value.blockedUntil <= now then Verdict(true, None)
    else Verdict(false, Some(Max(1, SecondsUp(f.value.blockedUntil - now))))
  }

  function Counted(s: Stored, scope: Scope, now: int): LimitState {
    var f := Fresh(s, now);
    var failures := Min((if f.Some? then f.value.failures else 0) + 1, MAX_FAILURES);
    LimitState(failures, now + DelaySeconds(scope, failures) * 1_000, now)
  }

  function Attempt(s: Stored, scope: Scope, now: int): (Stored, Verdict) {
    var v := CheckVerdict(s, now);
    if !v.allowed then (Fresh(s, now), v) else (Some(Counted(s, scope, now)), Verdict(true, None))
  }

  function Failure(s: Stored, scope: Scope, now: int): (Stored, Verdict) {
    var next := Counted(s, scope, now);
    var delay := DelaySeconds(scope, next.failures);
    (Some(next), if delay == 0 then Verdict(true, None) else Verdict(false, Some(delay)))
  }

  // ---------------------------------------------------------------- the Durable Object

  class AuthRateLimiter {
    var stored: Stored
    var alarmAt: Option<int>

    /** The alarm is set exactly while a state is stored, a day after its last failure. */
    ghost predicate Valid()
      reads this
    {
      alarmAt == if stored.Some? then Some(stored.value.lastFailureAt + STATE_TTL_MS) else None
    }

    constructor ()
      ensures Valid() && stored == None
    {
      stored, alarmAt := None, None;
    }

    method Clear()
      modifies this
      ensures Valid() && stored == None
    {
      stored, alarmAt := None, None;
    }

    method ReadFreshState(now: int) returns (f: Stored)
      requires Valid()
      modifies this
      ensures Valid() && f == stored == Fresh(old(stored), now)
    {
      if stored.None? { return None; }
      if stored.value.lastFailureAt + STATE_TTL_MS > now { return stored; }
      Clear();
      return None;
    }

    method Check(now: int) returns (v: Verdict)
      requires Valid()
      modifies this
      ensures Valid() && stored == Fresh(old(stored), now) && v == CheckVerdict(old(stored), now)
    {
      var s := ReadFreshState(now);
      if s.None? || s.value.blockedUntil <= now { return Verdict(true, None); }
      return Verdict(false, Some(Max(1, SecondsUp(s.value.blockedUntil - now))));
    }

    method UpdateFailureState(scope: Scope, allowCurrentAttempt: bool, now: int) returns (v: Verdict)
      requires Valid()
      modifies this
      ensures Valid() && stored == Some(Counted(old(stored), scope, now))
      ensures v == if allowCurrentAttempt then Verdict(true, None) else Failure(old(stored), scope, now).1
    {
      hide DelaySeconds;
      var previous := ReadFreshState(now);
      var failures := Min((if previous.Some? then previous.value.failures else 0) + 1, MAX_FAILURES);
      var delaySeconds := DelaySeconds(scope, failures);
      stored := Some(LimitState(failures, now + delaySeconds * 1_000, now));
      alarmAt := Some(now + STATE_TTL_MS);
      if allowCurrentAttempt { return Verdict(true, None); }
      return if delaySeconds == 0 then Verdict(true, None) else Verdict(false, Some(delaySeconds));
    }

    method ReserveAttempt(scope: Scope, now: int) returns (v: Verdict)
      requires Valid()
      modifies this
      ensures Valid() && (stored, v) == Attempt(old(stored), scope, now)
    {
      v := Check(now);
      if !v.allowed { return; }
      assert Counted(stored, scope, now) == Counted(old(stored), scope, now);
      v := UpdateFailureState(scope, true, now);
    }

    method RecordFailure(scope: Scope, now: int) returns (v: Verdict)
      requires Valid()
      modifies this
      ensures Valid() && (stored, v) == Failure(old(stored), scope, now)
    {
      v := UpdateFailureState(scope, false, now);
    }
  }

  // ---------------------------------------------------------------- runs without a reset

  datatype Event = Tries(at: int) | Fails(at: int) | Checks(at: int)

  function Step(s: Stored, scope: Scope, e: Event): Stored {
    match e
    case Tries(now) => Attempt(s, scope, now).0
    case Fails(now) => Failure(s, scope, now).0
    case Checks(now) => Fresh(s, now)
  }

  function After(scope: Scope, events: seq<Event>): Stored {
    if events == [] then None else Step(After(scope, events[..|events| - 1]), scope, events[|events| - 1])
  }

  /** Event k is an attempt that was let through. */
  predicate LetThrough(scope: Scope, events: seq<Event>, k: nat)
    requires k < |events|
  {
    events[k].Tries? && Attempt(After(scope, events[..k]), scope, events[k].at).1.allowed
  }

  /** The clock does not go back, and nothing stored is a day old when it is read. */
  ghost predicate Ordinary(scope: Scope, events: seq<Event>) {
    && (forall i, j :: 0 <= i <= j < |events| ==> events[i].at <= events[j].at)
    && forall k :: 0 <= k < |events| ==> Fresh(After(scope, events[..k]), events[k].at) == After(scope, events[..k])
  }

  /** The times of the attempts let through. */
  function AllowedTimes(scope: Scope, events: seq<Event>): seq<int> {
    if events == [] then []
    else
      var before := events[..|events| - 1];
      AllowedTimes(scope, before) + if LetThrough(scope, events, |events| - 1) then [events[|events| - 1].at] else []
  }

  /** The seconds that n counted failures enforce in total. */
  function TotalDelay(scope: Scope, n: nat): nat {
    if n == 0 then 0 else TotalDelay(scope, n - 1) + DelaySeconds(scope, Min(n, MAX_FAILURES))
  }

  lemma {:induction false} Pow2Monotone(m: nat, n: nat)
    requires m <= n
    ensures Pow2(m) <= Pow2(n)
  {
    if m < n { Pow2Monotone(m, n - 1); }
  }

  lemma DelayMonotone(scope: Scope, m: nat, n: nat)
    requires m <= n
    ensures DelaySeconds(scope, m) <= DelaySeconds(scope, n)
  {
    if m >= Threshold(scope) { Pow2Monotone(m - Threshold(scope), n - Threshold(scope)); }
  }

  /** A stored state blocks for the delay of its failures from its last failure on. */
  predicate Consistent(s: Stored, scope: Scope, now: int) {
    s.Some? ==>
      && s.value.failures <= MAX_FAILURES && s.value.lastFailureAt <= now
      && s.value.blockedUntil == s.value.lastFailureAt + 1_000 * DelaySeconds(scope, s.value.failures)
  }

  /** `blockedUntil` never moves back, whatever is tried or reported. */
  lemma BlockNeverShrinks(s: Stored, scope: Scope, e: Event)
    requires Consistent(s, scope, e.at) && Fresh(s, e.at) == s
    ensures Consistent(Step(s, scope, e), scope, e.at)
    ensures s.Some? ==> Step(s, scope, e).Some? && s.value.blockedUntil <= Step(s, scope, e).value.blockedUntil
                        && s.value.failures <= Step(s, scope, e).value.failures
  {
    if s.Some? { DelayMonotone(scope, s.value.failures, Min(s.value.failures + 1, MAX_FAILURES)); }
  }

  /** The seconds answered to a refused caller are exact: waiting that long is enough, and a second less
      is not. */
  lemma RetryAfterExact(s: Stored, scope: Scope, now: int)
    requires Consistent(s, scope, now) && !CheckVerdict(s, now).allowed
    ensures var r := CheckVerdict(s, now).retryAfterSeconds;
            && r.Some? && r.value >= 1
            && CheckVerdict(s, now + 1_000 * r.value).allowed && !CheckVerdict(s, now + 1_000 * (r.value - 1)).allowed
  {
    hide Pow2;
    assert DelaySeconds(scope, s.value.failures) <= MAX_DELAY_SECONDS;
  }

  lemma {:induction false} RunConsistent(scope: Scope, events: seq<Event>, now: int)
    requires Ordinary(scope, events) && forall k :: 0 <= k < |events| ==> events[k].at <= now
    ensures Consistent(After(scope, events), scope, now)
  {
    if events != [] {
      var before, e := events[..|events| - 1], events[|events| - 1];
      OrdinaryBefore(scope, events);
      RunConsistent(scope, before, e.at);
      BlockNeverShrinks(After(scope, before), scope, e);
    }
  }

  lemma OrdinaryBefore(scope: Scope, events: seq<Event>)
    requires Ordinary(scope, events) && events != []
    ensures var before, e := events[..|events| - 1], events[|events| - 1];
            && Ordinary(scope, before) && Fresh(After(scope, before), e.at) == After(scope, before)
            && forall k :: 0 <= k < |before| ==> before[k].at <= e.at
  {
    var before := events[..|events| - 1];
    hide After, Fresh;
    forall k | 0 <= k < |before| ensures before[..k] == events[..k] && before[k] == events[k] {}
  }

  /** After the n-th attempt let through, the block reaches at least the total delay past the first. */
  ghost predicate Enforced(s: Stored, scope: Scope, times: seq<int>) {
    times != [] ==>
      s.Some? && s.value.failures >= Min(|times|, MAX_FAILURES) && s.value.blockedUntil >= times[0] + 1_000 * TotalDelay(scope, |times|)
  }

  lemma AttemptEnforces(s: Stored, scope: Scope, times: seq<int>, now: int)
    requires Fresh(s, now) == s && Enforced(s, scope, times) && Attempt(s, scope, now).1.allowed
    ensures Enforced(Attempt(s, scope, now).0, scope, times + [now])
    ensures times != [] ==> now >= times[0] + 1_000 * TotalDelay(scope, |times|)
  {
    var n := |times| + 1;
    var failures := Counted(s, scope, now).failures;
    assert failures >= Min(n, MAX_FAILURES);
    DelayMonotone(scope, Min(n, MAX_FAILURES), failures);
    assert TotalDelay(scope, n) == TotalDelay(scope, |times|) + DelaySeconds(scope, Min(n, MAX_FAILURES));
    assert times == [] ==> TotalDelay(scope, |times|) == 0;
    hide DelaySeconds, TotalDelay;
  }

  /** The last event, in terms of the run before it. */
  lemma OneMore(scope: Scope, events: seq<Event>)
    requires events != []
    ensures var before, e := events[..|events| - 1], events[|events| - 1];
            && After(scope, events) == Step(After(scope, before), scope, e)
            && AllowedTimes(scope, events) ==
               AllowedTimes(scope, before) + if e.Tries? && Attempt(After(scope, before), scope, e.at).1.allowed then [e.at] else []
  {
  }

  /** The n-th attempt let through comes at least the total delay of n - 1 failures after the first. */
  ghost predicate Spaced(scope: Scope, times: seq<int>) {
    forall n :: 1 <= n < |times| ==> times[n] >= times[0] + 1_000 * TotalDelay(scope, n)
  }

  lemma SpacedAppend(scope: Scope, times: seq<int>, now: int)
    requires Spaced(scope, times) && (times != [] ==> now >= times[0] + 1_000 * TotalDelay(scope, |times|))
    ensures Spaced(scope, times + [now])
  {
    hide TotalDelay;
  }

  lemma {:induction false} RunEnforces(scope: Scope, events: seq<Event>)
    requires Ordinary(scope, events)
    ensures Enforced(After(scope, events), scope, AllowedTimes(scope, events)) && Spaced(scope, AllowedTimes(scope, events))
  {
    if events != [] {
      hide After, AllowedTimes, TotalDelay, DelaySeconds, Counted, Ordinary, Fresh, Spaced;
      var before, e := events[..|events| - 1], events[|events| - 1];
      OrdinaryBefore(scope, events);
      RunEnforces(scope, before);
      RunConsistent(scope, before, e.at);
      OneMore(scope, events);
      var s, times := After(scope, before), AllowedTimes(scope, before);
      BlockNeverShrinks(s, scope, e);
      if e.Tries? && Attempt(s, scope, e.at).1.allowed {
        hide Enforced;
        AttemptEnforces(s, scope, times, e.at);
        SpacedAppend(scope, times, e.at);
      } else {
        hide Attempt, Step;
        assert AllowedTimes(scope, events) == times;
      }
    }
  }

  lemma {:induction false} TotalIpDelay(n: nat)
    requires n >= 14
    ensures TotalDelay(Ip, n) == 1_023 + 900 * (n - 14)
  {
    if n == 14 {
      SmallPowers();
      assert TotalDelay(Ip, 4) == 0;
      assert TotalDelay(Ip, 6) == 3 && TotalDelay(Ip, 8) == 15 && TotalDelay(Ip, 10) == 63 && TotalDelay(Ip, 12) == 255;
    } else {
      TotalIpDelay(n - 1);
      SmallPowers();
      Pow2Monotone(10, Min(n, MAX_FAILURES) - 5);
    }
  }

  lemma SmallPowers()
    ensures Pow2(0) == 1 && Pow2(1) == 2 && Pow2(2) == 4 && Pow2(3) == 8 && Pow2(4) == 16 && Pow2(5) == 32
    ensures Pow2(6) == 64 && Pow2(7) == 128 && Pow2(8) == 256 && Pow2(9) == 512 && Pow2(10) == 1024 && Pow2(11) == 2048
  {
    assert Pow2(3) == 8;
    assert Pow2(6) == 64;
    assert Pow2(9) == 512;
  }

  lemma {:induction false} NoAccountDelay(n: nat)
    requires n <= 19
    ensures TotalDelay(Account, n) == 0
  {
    if n > 0 { NoAccountDelay(n - 1); }
  }

  /** The same for accounts, where the delays start with the twentieth failure. */
  lemma {:induction false} TotalAccountDelay(n: nat)
    requires n >= 29
    ensures TotalDelay(Account, n) == 1_023 + 900 * (n - 29)
  {
    SmallPowers();
    if n == 29 {
      NoAccountDelay(19);
      assert TotalDelay(Account, 21) == 3 && TotalDelay(Account, 23) == 15 && TotalDelay(Account, 25) == 63;
      assert TotalDelay(Account, 27) == 255;
    } else {
      TotalAccountDelay(n - 1);
      Pow2Monotone(10, Min(n, MAX_FAILURES) - 20);
    }
  }

  /** The saturated failure count still reaches the longest delay in both scopes. */
  lemma SaturationReachesCap(scope: Scope)
    ensures DelaySeconds(scope, MAX_FAILURES) == MAX_DELAY_SECONDS
  {
    SmallPowers();
    Pow2Monotone(10, MAX_FAILURES - Threshold(scope));
  }

  /** The attempt-rate bound: from one address the n-th attempt let through (n >= 15) comes at least
      1023 + 900 (n - 15) seconds after the first. */
  lemma AttemptRate(events: seq<Event>, n: nat)
    requires Ordinary(Ip, events) && 15 <= n <= |AllowedTimes(Ip, events)|
    ensures var times := AllowedTimes(Ip, events); times[n - 1] - times[0] >= 1_000 * (1_023 + 900 * (n - 15))
  {
    RunEnforces(Ip, events);
    TotalIpDelay(n - 1);
  }

  /** And for one account (n >= 30), at least 1023 + 900 (n - 30) seconds after the first. */
  lemma AccountAttemptRate(events: seq<Event>, n: nat)
    requires Ordinary(Account, events) && 30 <= n <= |AllowedTimes(Account, events)|
    ensures var times := AllowedTimes(Account, events); times[n - 1] - times[0] >= 1_000 * (1_023 + 900 * (n - 30))
  {
    RunEnforces(Account, events);
    TotalAccountDelay(n - 1);
  }

  /** A reported failure is answered with what a check at the same moment would answer: the delay that
      the failure started. */
  lemma FailureAnswersCheck(s: Stored, scope: Scope, now: int)
    ensures Failure(s, scope, now).1 == CheckVerdict(Failure(s, scope, now).0, now)
  {
    hide Pow2;
  }

  /** A day after the last failure everything is forgotten, and not a moment earlier. */
  lemma DayForgets(s: LimitState, scope: Scope, now: int)
    ensures now >= s.lastFailureAt + 86_400_000 ==>
              CheckVerdict(Some(s), now).allowed && Attempt(Some(s), scope, now) == Attempt(None, scope, now)
              && Failure(Some(s), scope, now) == Failure(None, scope, now)
    ensures now < s.lastFailureAt + 86_400_000 ==>
              Failure(Some(s), scope, now).0.value.failures == Min(s.failures + 1, 31)
              && (CheckVerdict(Some(s), now).allowed <==> s.blockedUntil <= now)
  {
    hide Pow2, DelaySeconds;
  }

  // ---------------------------------------------------------------- the bound is attained

  /** n attempts, each made the moment the block ends. */
  function Greedy(scope: Scope, n: nat): seq<Event> {
    if n == 0 then [] else Greedy(scope, n - 1) + [Tries(1_000 * TotalDelay(scope, n - 1))]
  }

  lemma {:induction false} TotalMonotone(scope: Scope, m: nat, n: nat)
    requires m <= n
    ensures TotalDelay(scope, m) <= TotalDelay(scope, n)
  {
    if m < n { TotalMonotone(scope, m, n - 1); }
  }

  lemma {:induction false} GreedyTimes(scope: Scope, n: nat)
    ensures |Greedy(scope, n)| == n
    ensures forall k :: 0 <= k < n ==> Greedy(scope, n)[k] == Tries(1_000 * TotalDelay(scope, k))
    ensures forall k :: 0 <= k <= n ==> Greedy(scope, n)[..k] == Greedy(scope, k)
  {
    hide TotalDelay;
    if n > 0 {
      GreedyTimes(scope, n - 1);
      forall k | 0 <= k < n ensures Greedy(scope, n)[..k] == Greedy(scope, k) {
        assert Greedy(scope, n)[..k] == Greedy(scope, n - 1)[..k];
      }
    }
  }

  function GreedyState(scope: Scope, n: nat): Stored {
    if n == 0 then None
    else Some(LimitState(Min(n, MAX_FAILURES), 1_000 * TotalDelay(scope, n), 1_000 * TotalDelay(scope, n - 1)))
  }

  /** An attempt the moment the block ends is let through. */
  lemma GreedyStep(scope: Scope, n: nat)
    ensures var s, now := GreedyState(scope, n), 1_000 * TotalDelay(scope, n);
            Fresh(s, now) == s && Attempt(s, scope, now) == (GreedyState(scope, n + 1), Verdict(true, None))
  {
    hide TotalDelay, DelaySeconds;
    OneDelay(scope, n + 1);
    if n > 0 { OneDelay(scope, n); }
  }

  lemma OneDelay(scope: Scope, n: nat)
    requires n > 0
    ensures TotalDelay(scope, n) == TotalDelay(scope, n - 1) + DelaySeconds(scope, Min(n, MAX_FAILURES))
    ensures DelaySeconds(scope, Min(n, MAX_FAILURES)) <= MAX_DELAY_SECONDS
  {
    hide Pow2;
  }

  lemma OrdinaryAppend(scope: Scope, before: seq<Event>, e: Event)
    requires Ordinary(scope, before) && forall k :: 0 <= k < |before| ==> before[k].at <= e.at
    requires Fresh(After(scope, before), e.at) == After(scope, before)
    ensures Ordinary(scope, before + [e])
  {
    hide After, Fresh;
    var events := before + [e];
    forall k | 0 <= k < |events|
      ensures Fresh(After(scope, events[..k]), events[k].at) == After(scope, events[..k])
    {
      if k < |before| {
        assert events[..k] == before[..k] && events[k] == before[k];
      } else {
        assert events[..k] == before;
      }
    }
  }

  /** The times at which the greedy attempts are made. */
  function GreedySchedule(scope: Scope, n: nat): seq<int> {
    if n == 0 then [] else GreedySchedule(scope, n - 1) + [1_000 * TotalDelay(scope, n - 1)]
  }

  /** Every greedy attempt is let through, so the bound cannot be improved. */
  lemma {:induction false} GreedyAttains(scope: Scope, n: nat)
    ensures Ordinary(scope, Greedy(scope, n)) && After(scope, Greedy(scope, n)) == GreedyState(scope, n)
    ensures AllowedTimes(scope, Greedy(scope, n)) == GreedySchedule(scope, n)
  {
    hide TotalDelay, Greedy, GreedyState, Fresh, Attempt, Ordinary, After, AllowedTimes, DelaySeconds;
    if n == 0 {
      GreedyNone(scope);
    } else {
      GreedyAttains(scope, n - 1);
      GreedyTimes(scope, n - 1);
      GreedyStep(scope, n - 1);
      var before, e := Greedy(scope, n - 1), Tries(1_000 * TotalDelay(scope, n - 1));
      forall k | 0 <= k < |before| ensures before[k].at <= e.at { TotalMonotone(scope, k, n - 1); }
      OrdinaryAppend(scope, before, e);
      GreedyUnfold(scope, n);
      OneMore(scope, Greedy(scope, n));
    }
  }

  lemma GreedyNone(scope: Scope)
    ensures Ordinary(scope, Greedy(scope, 0)) && After(scope, Greedy(scope, 0)) == GreedyState(scope, 0)
    ensures AllowedTimes(scope, Greedy(scope, 0)) == []
  {
  }

  lemma GreedyUnfold(scope: Scope, n: nat)
    requires n > 0
    ensures Greedy(scope, n) == Greedy(scope, n - 1) + [Tries(1_000 * TotalDelay(scope, n - 1))]
    ensures Greedy(scope, n)[..|Greedy(scope, n)| - 1] == Greedy(scope, n - 1)
  {
  }
}
