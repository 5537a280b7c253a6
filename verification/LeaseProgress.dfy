/** Progress of the session lease protocol: live sessions stay live, renewals extend their leases, and
  closed sessions give theirs back. */
module LeaseProgress {
  import opened Common
  import opened LeaseRegistry
  import opened LeaseProtocol

  // ---------------------------------------------------------------- what ends a live session

  /** The session is closed for a reason of its own, or a renewal fails with at most 5 s left. */
  predicate Ends(w: World, a: Action, id: SessionId) {
    || a == Close(id)
    || (a == Fail(id) && Get(w, id).Live? && Get(w, id).leaseExpiresAt - w.now <= 5_000)
  }

  /** Under punctual calls nothing else ends a live session: no answer, no other session and no pruning. */
  lemma LiveStaysIff(t: Timing, w: World, a: Action, id: SessionId)
    requires Safe(t, w) && Enabled(t, w, a) && id in LiveIds(w)
    ensures id in LiveIds(Apply(t, w, a)) <==> !Ends(w, a, id)
  {
    assert SessionSafe(t, w.leases, id, w.sessions[id], w.now);
    hide Safe, SessionSafe, FreshLeases;
    if a == Answer(id) { GrantedReply(t, w, id); }
  }

  lemma GrantedReply(t: Timing, w: World, id: SessionId)
    requires Safe(t, w) && Enabled(t, w, Answer(id))
    ensures var reply := Get(w, id).timer.reply.value;
            reply.Granted? && Get(w, id).timer.sentAt + SSH_SESSION_LEASE_TTL_MS <= reply.expiresAt
  {
    assert SessionSafe(t, w.leases, id, w.sessions[id], w.now);
  }

  lemma RunPrefix(t: Timing, actions: seq<Action>, n: nat)
    requires IsRun(t, actions) && n <= |actions|
    ensures IsRun(t, actions[..n])
    decreases |actions|
  {
    if n < |actions| {
      assert actions[..|actions| - 1][..n] == actions[..n];
      RunPrefix(t, actions[..|actions| - 1], n);
    } else {
      assert actions[..n] == actions;
    }
  }

  /** The world before action k of a run. */
  ghost function WorldBefore(t: Timing, actions: seq<Action>, k: nat): World
    requires IsRun(t, actions) && k <= |actions|
  {
    RunPrefix(t, actions, k);
    After(t, actions[..k])
  }

  /** Over whole runs: a session that is live stays live until it is closed, or a renewal fails with at
      most 5 s left. */
  lemma {:induction false} LiveUntilEnded(t: Timing, actions: seq<Action>, n: nat, id: SessionId)
    requires Punctual(t) && IsRun(t, actions) && n <= |actions| && id in LiveIds(WorldBefore(t, actions, n))
    requires forall k :: n <= k < |actions| ==> !Ends(WorldBefore(t, actions, k), actions[k], id)
    ensures id in LiveIds(After(t, actions))
    decreases |actions|
  {
    if n < |actions| {
      var before, a := actions[..|actions| - 1], actions[|actions| - 1];
      hide Safe, Ends, Apply, LiveIds;
      forall k | n <= k <= |before| ensures WorldBefore(t, actions, k) == WorldBefore(t, before, k) {
        assert before[..k] == actions[..k];
      }
      assert forall k :: n <= k < |before| ==> before[k] == actions[k];
      LiveUntilEnded(t, before, n, id);
      assert WorldBefore(t, before, |before|) == After(t, before) by { assert before[..|before|] == before; }
      RunSafe(t, before);
      LiveStaysIff(t, After(t, before), a, id);
    } else {
      assert actions[..n] == actions;
    }
  }

  // ---------------------------------------------------------------- renewal

  /** An answered renewal extends the lease to two minutes after its sending or later, forgets earlier
      failures and sets the next renewal 40 s ahead. */
  lemma AnswerRenews(t: Timing, w: World, id: SessionId)
    requires Safe(t, w) && Enabled(t, w, Answer(id))
    ensures var s := Get(Apply(t, w, Answer(id)), id);
            s.Live? && s.leaseExpiresAt >= Get(w, id).timer.sentAt + 120_000 && s.retries == 0 && s.timer == Due(w.now + 40_000)
  {
    GrantedReply(t, w, id);
  }

  /** A single session "s" that was last renewed at `renewedAt`. */
  function Renewed(now: int, renewedAt: int, timer: Timer): World {
    World(now, map["s" := renewedAt + 120_000], map["s" := Live(renewedAt + 120_000, 0, timer)])
  }

  lemma RenewOnce(t: Timing, actions: seq<Action>, at: int) returns (more: seq<Action>)
    requires IsRun(t, actions) && After(t, actions) == Renewed(at, at, Due(at + 40_000))
    ensures IsRun(t, more) && After(t, more) == Renewed(at + 40_000, at + 40_000, Due(at + 80_000))
  {
    hide After, IsRun;
    Extend(t, actions, Tick(40_000));
    more := actions + [Tick(40_000)];
    assert After(t, more) == Renewed(at + 40_000, at, Due(at + 40_000));
    Extend(t, more, FireTimer("s"));
    more := more + [FireTimer("s")];
    assert After(t, more) == Renewed(at + 40_000, at, InFlight(at + 40_000, None));
    more := RenewAndAnswer(t, more, at);
  }

  lemma RenewAndAnswer(t: Timing, actions: seq<Action>, at: int) returns (more: seq<Action>)
    requires IsRun(t, actions) && After(t, actions) == Renewed(at + 40_000, at, InFlight(at + 40_000, None))
    ensures IsRun(t, more) && After(t, more) == Renewed(at + 40_000, at + 40_000, Due(at + 80_000))
  {
    hide After, IsRun;
    var w, now := Renewed(at + 40_000, at, InFlight(at + 40_000, None)), at + 40_000;
    assert FreshLeases(w.leases, now) == w.leases;
    Extend(t, actions, ExecuteRenew("s"));
    more := actions + [ExecuteRenew("s")];
    var renewed := World(now, map["s" := now + 120_000], map["s" := Live(at + 120_000, 0, InFlight(now, Some(Granted(now + 120_000))))]);
    assert After(t, more) == renewed;
    Extend(t, more, Answer("s"));
    more := more + [Answer("s")];
  }

  /** A session whose calls succeed lives as long as one likes: any number of renewals can follow. */
  lemma {:induction false} RenewsForever(t: Timing, n: nat) returns (actions: seq<Action>)
    requires t.maximum >= 1
    ensures IsRun(t, actions) && After(t, actions) == Renewed(40_000 * n, 40_000 * n, Due(40_000 * n + 40_000))
  {
    hide After, IsRun, Renewed;
    if n == 0 {
      actions := LoneGranted(t);
      actions := FirstLive(t, actions);
    } else {
      actions := RenewsForever(t, n - 1);
      actions := RenewOnce(t, actions, 40_000 * (n - 1));
    }
  }

  lemma FirstLive(t: Timing, actions: seq<Action>) returns (more: seq<Action>)
    requires IsRun(t, actions) && After(t, actions) == World(0, map["s" := 120_000], map["s" := Starting(0, 120_000)])
    ensures IsRun(t, more) && After(t, more) == Renewed(0, 0, Due(40_000))
  {
    hide After, IsRun;
    Extend(t, actions, GoLive("s"));
    more := actions + [GoLive("s")];
  }

  // ---------------------------------------------------------------- closing

  /** The release of a closed session frees its place at the registry and touches no other lease. */
  lemma ReleaseFrees(t: Timing, w: World, id: SessionId)
    requires Enabled(t, w, ReleaseClosed(id))
    ensures var leases := Apply(t, w, ReleaseClosed(id)).leases;
            id !in leases && forall other :: other in leases <==> other != id && other in w.leases && w.leases[other] > w.now
  {
  }
}
