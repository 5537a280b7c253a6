/** The session lease protocol: session objects (apps/worker/src/durable/ssh-session.ts) that
  acquire, renew, retry and give up on timers, against the registry of LeaseRegistry.

  Every registry call is split in its sending, its execution at the registry and the arrival (or
  loss) of its answer, and all of these interleave freely between sessions.  Time is shared and
  only passes while no deadline is overrun: a timer fires when it is due, a call is answered or
  fails within `callMs` and a granted session goes live within `startupMs`. */
module LeaseProtocol {
  import opened Common
  import opened LeaseRegistry

  const SSH_SESSION_LEASE_RENEW_MS := 40_000
  const RETRY_MS := 5_000
  const MINIMUM_DELAY_MS := 250

  datatype Timing = Timing(callMs: nat, startupMs: nat, maximum: nat)

  /** The bound under which the protocol is safe. */
  predicate Punctual(t: Timing) {
    t.callMs <= 4_750 && t.startupMs + t.callMs < 80_000
  }

  datatype Reply = Granted(expiresAt: int) | Refused

  /** The renewal timer: armed, or a renewal is in flight (with the registry's answer once it has
      been executed). */
  datatype Timer = Due(at: int) | InFlight(sentAt: int, reply: Option<Reply>)

  datatype Session =
    | Idle
    | Acquiring
    | Starting(grantedAt: int, expiresAt: int)
    | Live(leaseExpiresAt: int, retries: nat, timer: Timer)
    | Closed

  // ---------------------------------------------------------------- what one session does

  /** `scheduleLeaseRenewal`. */
  function Scheduled(expiresAt: int, retries: nat, now: int, delayMs: int): Session {
    Live(expiresAt, retries, Due(now + Max(MINIMUM_DELAY_MS, delayMs)))
  }

  /** A renewal was answered. */
  function OnAnswer(reply: Reply, now: int): Session {
    match reply
    case Granted(e) => Scheduled(e, 0, now, SSH_SESSION_LEASE_RENEW_MS)
    case Refused => Closed
  }

  /** A renewal failed: retry while the lease has more than five seconds left. */
  function OnFailure(expiresAt: int, retries: nat, now: int): Session {
    var remaining := expiresAt - now;
    if remaining > RETRY_MS then Scheduled(expiresAt, retries + 1, now, Min(RETRY_MS, remaining - RETRY_MS))
    else Closed
  }

  /** The lease fields of a live session object and the methods that change them. */
  class LiveSession {
    var open: bool
    var leaseExpiresAt: int
    var leaseTimer: Option<int>
    var leaseRenewalInFlight: bool
    ghost var sentAt: int
    ghost var retries: nat

    ghost function Abstract(): Session
      reads this
    {
      if !open then Closed
      else if leaseRenewalInFlight then Live(leaseExpiresAt, retries, InFlight(sentAt, None))
      else if leaseTimer.Some? then Live(leaseExpiresAt, retries, Due(leaseTimer.value))
      else Closed
    }

    ghost predicate Valid()
      reads this
    {
      open ==> leaseRenewalInFlight || leaseTimer.Some?
    }

    constructor (expiresAt: int, now: int)
      ensures Valid() && Abstract() == Scheduled(expiresAt, 0, now, SSH_SESSION_LEASE_RENEW_MS)
    {
      open, leaseExpiresAt, leaseRenewalInFlight := true, expiresAt, false;
      retries, sentAt := 0, 0;
      leaseTimer := None;
      new;
      ScheduleLeaseRenewal(now, SSH_SESSION_LEASE_RENEW_MS);
    }

    method ScheduleLeaseRenewal(now: int, delayMs: int)
      modifies this`leaseTimer
      ensures leaseTimer == if open then Some(now + Max(MINIMUM_DELAY_MS, delayMs)) else old(leaseTimer)
    {
      if !open { return; }
      leaseTimer := Some(now + Max(MINIMUM_DELAY_MS, delayMs));
    }

    /** The timer callback up to the registry call. */
    method BeginRenewal(now: int) returns (sent: bool)
      requires Valid()
      modifies this
      ensures Valid() && sent == (old(open) && !old(leaseRenewalInFlight))
      ensures Abstract() == if sent then Live(old(leaseExpiresAt), old(retries), InFlight(now, None)) else old(Abstract())
    {
      if !open || leaseRenewalInFlight { return false; }
      leaseRenewalInFlight, sentAt := true, now;
      return true;
    }

    /** The registry answered: the session may have closed in the meantime. */
    method RenewalAnswered(acquired: bool, expiresAt: int, now: int)
      requires Valid() && leaseRenewalInFlight
      modifies this
      ensures Valid()
      ensures Abstract() == if old(open) then OnAnswer(if acquired then Granted(expiresAt) else Refused, now) else Closed
      ensures open == (old(open) && acquired) && !leaseRenewalInFlight
      ensures open ==> leaseExpiresAt == expiresAt && leaseTimer == Some(now + SSH_SESSION_LEASE_RENEW_MS)
    {
      if !acquired && open {
        Cleanup();
      } else {
        leaseExpiresAt, retries := expiresAt, 0;
        ScheduleLeaseRenewal(now, SSH_SESSION_LEASE_RENEW_MS);
      }
      leaseRenewalInFlight := false;
    }

    /** The registry call failed. */
    method RenewalFailed(now: int)
      requires Valid() && leaseRenewalInFlight
      modifies this
      ensures Valid()
      ensures Abstract() == if old(open) then OnFailure(old(leaseExpiresAt), old(retries), now) else Closed
      ensures open == (old(open) && old(leaseExpiresAt) - now > RETRY_MS) && !leaseRenewalInFlight
      ensures leaseExpiresAt == old(leaseExpiresAt)
    {
      if open {
        var remainingMs := leaseExpiresAt - now;
        if remainingMs > RETRY_MS {
          retries := retries + 1;
          ScheduleLeaseRenewal(now, Min(RETRY_MS, remainingMs - RETRY_MS));
        } else {
          Cleanup();
        }
      }
      leaseRenewalInFlight := false;
    }

    method Cleanup()
      modifies this`open, this`leaseTimer
      ensures !open && Abstract() == Closed
    {
      open, leaseTimer := false, None;
    }
  }

  // ---------------------------------------------------------------- all sessions of one owner

  datatype World = World(now: int, leases: Leases, sessions: map<SessionId, Session>)

  function Get(w: World, id: SessionId): Session { if id in w.sessions then w.sessions[id] else Idle }
  function Put(w: World, id: SessionId, s: Session): World { w.(sessions := w.sessions[id := s]) }

  datatype Action =
    | Tick(ms: nat)
    | SendAcquire(id: SessionId)
    | ExecuteAcquire(id: SessionId)   // executed and answered
    | LoseAcquire(id: SessionId)      // the call fails, executed or not
    | GoLive(id: SessionId)
    | FireTimer(id: SessionId)
    | ExecuteRenew(id: SessionId)     // executed at the registry, the answer is on its way
    | Answer(id: SessionId)
    | Fail(id: SessionId)             // the call fails, executed or not
    | Close(id: SessionId)            // for any other reason
    | ReleaseClosed(id: SessionId)    // the release sent by a closed session arrives
    | StrayCall(id: SessionId, acquire: bool)  // a call whose sender no longer waits for it
    | PruneRegistry

  /** No deadline of the session is overrun at the moment. */
  predicate OnTime(t: Timing, s: Session, now: int) {
    match s
    case Starting(grantedAt, _) => now <= grantedAt + t.startupMs
    case Live(_, _, Due(at)) => now <= at
    case Live(_, _, InFlight(sentAt, _)) => now <= sentAt + t.callMs
    case _ => true
  }

  ghost predicate Enabled(t: Timing, w: World, a: Action) {
    match a
    case Tick(ms) => forall id :: id in w.sessions ==> OnTime(t, w.sessions[id], w.now + ms)
    case SendAcquire(id) => Get(w, id).Idle?
    case ExecuteAcquire(id) => Get(w, id).Acquiring?
    case LoseAcquire(id) => Get(w, id).Acquiring?
    case GoLive(id) => Get(w, id).Starting?
    case FireTimer(id) => var s := Get(w, id); s.Live? && s.timer.Due? && s.timer.at <= w.now
    case ExecuteRenew(id) => var s := Get(w, id); s.Live? && s.timer.InFlight? && s.timer.reply.None?
    case Answer(id) => var s := Get(w, id); s.Live? && s.timer.InFlight? && s.timer.reply.Some?
    case Fail(id) => var s := Get(w, id); s.Live? && s.timer.InFlight?
    case Close(id) => !Get(w, id).Idle?
    case ReleaseClosed(id) => Get(w, id).Closed?
    case StrayCall(_, _) => true
    case PruneRegistry => true
  }

  ghost function Apply(t: Timing, w: World, a: Action): World
    requires Enabled(t, w, a)
  {
    match a
    case Tick(ms) => w.(now := w.now + ms)
    case SendAcquire(id) => Put(w, id, Acquiring)
    case ExecuteAcquire(id) =>
      var u := AcquireSessionLease(w.leases, id, t.maximum, w.now, SSH_SESSION_LEASE_TTL_MS);
      Put(w.(leases := u.leases), id, if u.acquired then Starting(w.now, u.expiresAt.value) else Closed)
    case LoseAcquire(id) => Put(w, id, Closed)
    case GoLive(id) => Put(w, id, Scheduled(Get(w, id).expiresAt, 0, w.now, SSH_SESSION_LEASE_RENEW_MS))
    case FireTimer(id) => Put(w, id, Get(w, id).(timer := InFlight(w.now, None)))
    case ExecuteRenew(id) =>
      var u := RenewSessionLease(w.leases, id, w.now, SSH_SESSION_LEASE_TTL_MS);
      var reply := if u.acquired then Granted(u.expiresAt.value) else Refused;
      Put(w.(leases := u.leases), id, Get(w, id).(timer := InFlight(Get(w, id).timer.sentAt, Some(reply))))
    case Answer(id) => Put(w, id, OnAnswer(Get(w, id).timer.reply.value, w.now))
    case Fail(id) => Put(w, id, OnFailure(Get(w, id).leaseExpiresAt, Get(w, id).retries, w.now))
    case Close(id) => Put(w, id, Closed)
    case ReleaseClosed(id) => w.(leases := ReleaseSessionLease(w.leases, id, w.now).leases)
    case StrayCall(id, acquire) =>
      w.(leases := if acquire then AcquireSessionLease(w.leases, id, t.maximum, w.now, SSH_SESSION_LEASE_TTL_MS).leases
                   else RenewSessionLease(w.leases, id, w.now, SSH_SESSION_LEASE_TTL_MS).leases)
    case PruneRegistry => w.(leases := PruneSessionLeases(w.leases, w.now).leases)
  }

  const START := World(0, map[], map[])

  /** The actions can happen one after the other from the start. */
  ghost predicate IsRun(t: Timing, actions: seq<Action>)
    decreases |actions|, 0
  {
    actions == [] ||
    (IsRun(t, actions[..|actions| - 1]) && Enabled(t, After(t, actions[..|actions| - 1]), actions[|actions| - 1]))
  }

  ghost function After(t: Timing, actions: seq<Action>): World
    requires IsRun(t, actions)
    decreases |actions|, 1
  {
    if actions == [] then START
    else Apply(t, After(t, actions[..|actions| - 1]), actions[|actions| - 1])
  }

  // ---------------------------------------------------------------- safety

  /** A lease at the registry that lasts at least until e. */
  predicate Holds(leases: Leases, id: SessionId, e: int) { id in leases && leases[id] >= e }

  predicate SessionSafe(t: Timing, leases: Leases, id: SessionId, s: Session, now: int) {
    OnTime(t, s, now) &&
    match s
    case Starting(grantedAt, expiresAt) =>
      Holds(leases, id, expiresAt) && expiresAt == grantedAt + SSH_SESSION_LEASE_TTL_MS && grantedAt <= now
    case Live(e, retries, Due(at)) =>
      Holds(leases, id, e) && t.callMs < e - at && RetryBudget(e - at, retries)
    case Live(e, retries, InFlight(sentAt, reply)) =>
      && Holds(leases, id, e) && t.callMs < e - sentAt && RetryBudget(e - sentAt, retries) && sentAt <= now
      && (reply.Some? ==> reply.value.Granted? && Holds(leases, id, reply.value.expiresAt) &&
                          sentAt + SSH_SESSION_LEASE_TTL_MS <= reply.value.expiresAt <= now + SSH_SESSION_LEASE_TTL_MS)
    case _ => true
  }

  /** How much of the lease is left when the attempt after `retries` failures is made. */
  predicate RetryBudget(left: int, retries: nat) {
    left <= 80_000 && retries <= 15 && (left > RETRY_MS ==> left <= 80_000 - RETRY_MS * retries)
  }

  ghost predicate Safe(t: Timing, w: World) {
    && |w.leases| <= t.maximum
    && NotBeyond(w.leases, w.now)
    && forall id :: id in w.sessions ==> SessionSafe(t, w.leases, id, w.sessions[id], w.now)
  }

  predicate NotBeyond(leases: Leases, now: int) {
    forall id :: id in leases ==> leases[id] <= now + SSH_SESSION_LEASE_TTL_MS
  }

  /** No registry operation but a release of the same session shortens an unexpired lease. */
  lemma RegistryKeeps(leases: Leases, op: Operation, id: SessionId, other: SessionId, e: int, now: int)
    requires Holds(leases, other, e) && now < e && NotBeyond(leases, now) && !(op.Release? && id == other)
    ensures Holds(Transition(leases, op, id, now).leases, other, e)
    ensures Holds(PruneSessionLeases(leases, now).leases, other, e)
  {
    assert other in FreshLeases(leases, now);
  }

  lemma RegistryBounded(leases: Leases, op: Operation, id: SessionId, now: int, maximum: nat)
    requires |leases| <= maximum && NotBeyond(leases, now) && (op.Acquire? ==> op.maximum == maximum)
    ensures |Transition(leases, op, id, now).leases| <= maximum && NotBeyond(Transition(leases, op, id, now).leases, now)
    ensures |PruneSessionLeases(leases, now).leases| <= maximum && NotBeyond(PruneSessionLeases(leases, now).leases, now)
  {
    TransitionCapacity(leases, op, id, now, maximum);
    FreshSmaller(leases, now);
  }

  /** A session's guarantees survive every registry operation that is not its own release. */
  lemma SessionKept(t: Timing, leases: Leases, op: Operation, id: SessionId, other: SessionId, s: Session, now: int)
    requires Punctual(t) && NotBeyond(leases, now) && SessionSafe(t, leases, other, s, now)
    requires s.Closed? || !(op.Release? && id == other)
    ensures SessionSafe(t, Transition(leases, op, id, now).leases, other, s, now)
    ensures SessionSafe(t, PruneSessionLeases(leases, now).leases, other, s, now)
  {
    hide Transition, PruneSessionLeases;
    match s
    case Starting(_, e) => RegistryKeeps(leases, op, id, other, e, now);
    case Live(e, _, timer) =>
      RegistryKeeps(leases, op, id, other, e, now);
      if timer.InFlight? && timer.reply.Some? { RegistryKeeps(leases, op, id, other, timer.reply.value.expiresAt, now); }
    case _ =>
  }

  /** Every registry operation leaves all sessions safe. */
  lemma RegistryStep(t: Timing, w: World, op: Operation, id: SessionId)
    requires Punctual(t) && Safe(t, w)
    requires op.Acquire? ==> op.maximum == t.maximum
    requires op.Release? ==> Get(w, id).Closed?
    ensures Safe(t, w.(leases := Transition(w.leases, op, id, w.now).leases))
    ensures Safe(t, w.(leases := PruneSessionLeases(w.leases, w.now).leases))
  {
    RegistryBounded(w.leases, op, id, w.now, t.maximum);
    forall other | other in w.sessions
      ensures SessionSafe(t, Transition(w.leases, op, id, w.now).leases, other, w.sessions[other], w.now)
      ensures SessionSafe(t, PruneSessionLeases(w.leases, w.now).leases, other, w.sessions[other], w.now)
    {
      SessionKept(t, w.leases, op, id, other, w.sessions[other], w.now);
    }
  }

  lemma PutSafe(t: Timing, w: World, id: SessionId, s: Session)
    requires Safe(t, w) && SessionSafe(t, w.leases, id, s, w.now)
    ensures Safe(t, Put(w, id, s))
  {
  }

  lemma TickSafe(t: Timing, w: World, ms: nat)
    requires Safe(t, w) && Enabled(t, w, Tick(ms))
    ensures Safe(t, Apply(t, w, Tick(ms)))
  {
    forall id | id in w.sessions ensures SessionSafe(t, w.leases, id, w.sessions[id], w.now + ms) {
      assert OnTime(t, w.sessions[id], w.now + ms);
    }
  }

  /** What a session does on its own, without the registry. */
  lemma OwnStepSafe(t: Timing, w: World, a: Action)
    requires Punctual(t) && Safe(t, w) && Enabled(t, w, a) && (a.GoLive? || a.FireTimer? || a.Answer? || a.Fail?)
    ensures Safe(t, Apply(t, w, a))
  {
    assert SessionSafe(t, w.leases, a.id, w.sessions[a.id], w.now);
    hide Safe;
    PutSafe(t, w, a.id, Apply(t, w, a).sessions[a.id]);
  }

  /** Every action keeps the protocol safe. */
  lemma SafeStep(t: Timing, w: World, a: Action)
    requires Punctual(t) && Safe(t, w) && Enabled(t, w, a)
    ensures Safe(t, Apply(t, w, a))
  {
    hide FreshLeases, Safe, NotBeyond;
    match a
    case Tick(ms) => TickSafe(t, w, ms);
    case SendAcquire(id) => PutSafe(t, w, id, Acquiring);
    case ExecuteAcquire(id) =>
      RegistryStep(t, w, Acquire(t.maximum), id);
      var u := Transition(w.leases, Acquire(t.maximum), id, w.now);
      PutSafe(t, w.(leases := u.leases), id, if u.acquired then Starting(w.now, u.expiresAt.value) else Closed);
    case LoseAcquire(id) => PutSafe(t, w, id, Closed);
    case GoLive(id) => OwnStepSafe(t, w, a);
    case FireTimer(id) => OwnStepSafe(t, w, a);
    case ExecuteRenew(id) => RenewStep(t, w, id);
    case Answer(id) => OwnStepSafe(t, w, a);
    case Fail(id) => OwnStepSafe(t, w, a);
    case Close(id) => PutSafe(t, w, id, Closed);
    case ReleaseClosed(id) => RegistryStep(t, w, Release, id);
    case StrayCall(id, acquire) => RegistryStep(t, w, if acquire then Acquire(t.maximum) else Renew, id);
    case PruneRegistry => RegistryStep(t, w, Renew, "");
  }

  /** The registry never refuses a live session. */
  lemma RenewStep(t: Timing, w: World, id: SessionId)
    requires Punctual(t) && Safe(t, w) && Enabled(t, w, ExecuteRenew(id))
    ensures RenewSessionLease(w.leases, id, w.now, SSH_SESSION_LEASE_TTL_MS).acquired
    ensures Safe(t, Apply(t, w, ExecuteRenew(id)))
  {
    RegistryStep(t, w, Renew, id);
    assert id in FreshLeases(w.leases, w.now);
    var u := Transition(w.leases, Renew, id, w.now);
    PutSafe(t, w.(leases := u.leases), id, Get(w, id).(timer := InFlight(Get(w, id).timer.sentAt, Some(Granted(u.expiresAt.value)))));
  }

  lemma {:induction false} RunSafe(t: Timing, actions: seq<Action>)
    requires Punctual(t) && IsRun(t, actions)
    ensures Safe(t, After(t, actions))
  {
    if actions != [] {
      RunSafe(t, actions[..|actions| - 1]);
      SafeStep(t, After(t, actions[..|actions| - 1]), actions[|actions| - 1]);
    }
  }

  function LiveIds(w: World): set<SessionId> {
    set id | id in w.sessions && w.sessions[id].Live?
  }

  /** Lease safety over whole runs: at every moment each live session holds a lease that the registry
      has not expired, and so no more sessions are live than the limit allows.  A session fails to
      renew at most 15 times in a row before it is renewed or closed. */
  lemma LeaseSafety(t: Timing, actions: seq<Action>)
    requires Punctual(t) && IsRun(t, actions)
    ensures var w := After(t, actions);
            && (forall id :: id in LiveIds(w) ==> id in FreshLeases(w.leases, w.now) && w.sessions[id].retries <= 15
                                                  && w.now < w.sessions[id].leaseExpiresAt)
            && |LiveIds(w)| <= t.maximum
  {
    var w := After(t, actions);
    RunSafe(t, actions);
    forall id | id in LiveIds(w)
      ensures id in FreshLeases(w.leases, w.now) && w.sessions[id].retries <= 15 && w.now < w.sessions[id].leaseExpiresAt
    {
      assert SessionSafe(t, w.leases, id, w.sessions[id], w.now);
    }
    FreshSmaller(w.leases, w.now);
    SubsetSmaller(LiveIds(w), FreshLeases(w.leases, w.now).Keys);
  }

  // ---------------------------------------------------------------- the bound is exact

  /** A single session "s" whose lease, granted at 0 and never renewed, ends at 120000. */
  function Lone(now: int, retries: nat, timer: Timer): World {
    World(now, map["s" := SSH_SESSION_LEASE_TTL_MS], map["s" := Live(SSH_SESSION_LEASE_TTL_MS, retries, timer)])
  }

  lemma Extend(t: Timing, actions: seq<Action>, a: Action)
    requires IsRun(t, actions) && Enabled(t, After(t, actions), a)
    ensures IsRun(t, actions + [a]) && After(t, actions + [a]) == Apply(t, After(t, actions), a)
  {
    assert (actions + [a])[..|actions|] == actions;
  }

  lemma FireLone(t: Timing, actions: seq<Action>, at: int, retries: nat) returns (more: seq<Action>)
    requires IsRun(t, actions) && After(t, actions) == Lone(at, retries, Due(at))
    ensures IsRun(t, more) && After(t, more) == Lone(at, retries, InFlight(at, None))
  {
    hide After, IsRun;
    Extend(t, actions, FireTimer("s"));
    more := actions + [FireTimer("s")];
  }

  lemma TickLone(t: Timing, actions: seq<Action>, now: int, retries: nat, timer: Timer, ms: nat) returns (more: seq<Action>)
    requires IsRun(t, actions) && After(t, actions) == Lone(now, retries, timer)
    requires OnTime(t, Live(SSH_SESSION_LEASE_TTL_MS, retries, timer), now + ms)
    ensures IsRun(t, more) && After(t, more) == Lone(now + ms, retries, timer)
  {
    hide After, IsRun, OnTime;
    Extend(t, actions, Tick(ms));
    more := actions + [Tick(ms)];
  }

  lemma FailLone(t: Timing, actions: seq<Action>, now: int, retries: nat, sentAt: int) returns (more: seq<Action>)
    requires IsRun(t, actions) && After(t, actions) == Lone(now, retries, InFlight(sentAt, None))
    requires SSH_SESSION_LEASE_TTL_MS - now > RETRY_MS
    ensures var next := now + Max(MINIMUM_DELAY_MS, Min(RETRY_MS, SSH_SESSION_LEASE_TTL_MS - now - RETRY_MS));
            IsRun(t, more) && After(t, more) == Lone(now, retries + 1, Due(next))
  {
    hide After, IsRun;
    Extend(t, actions, Fail("s"));
    more := actions + [Fail("s")];
  }

  /** One failed renewal whose failure takes `latency` to show, and the wait for the next attempt. */
  lemma FailOnce(t: Timing, actions: seq<Action>, at: int, retries: nat, latency: nat) returns (more: seq<Action>)
    requires IsRun(t, actions) && After(t, actions) == Lone(at, retries, Due(at))
    requires latency <= t.callMs && SSH_SESSION_LEASE_TTL_MS - at - latency > RETRY_MS
    ensures var remaining := SSH_SESSION_LEASE_TTL_MS - at - latency;
            var next := at + latency + Max(MINIMUM_DELAY_MS, Min(RETRY_MS, remaining - RETRY_MS));
            IsRun(t, more) && After(t, more) == Lone(next, retries + 1, Due(next))
  {
    var remaining := SSH_SESSION_LEASE_TTL_MS - at - latency;
    var delay := Max(MINIMUM_DELAY_MS, Min(RETRY_MS, remaining - RETRY_MS));
    hide After, IsRun, Lone;
    more := FireLone(t, actions, at, retries);
    more := TickLone(t, more, at, retries, InFlight(at, None), latency);
    more := FailLone(t, more, at + latency, retries, at);
    more := TickLone(t, more, at + latency, retries + 1, Due(at + latency + delay), delay);
  }

  lemma LoneGranted(t: Timing) returns (actions: seq<Action>)
    requires t.maximum >= 1
    ensures IsRun(t, actions) && After(t, actions) == World(0, map["s" := 120_000], map["s" := Starting(0, 120_000)])
  {
    Extend(t, [], SendAcquire("s"));
    actions := [SendAcquire("s")];
    assert [] + [SendAcquire("s")] == actions;
    assert After(t, actions) == World(0, map[], map["s" := Acquiring]);
    Extend(t, actions, ExecuteAcquire("s"));
    actions := actions + [ExecuteAcquire("s")];
    assert FreshLeases(map[], 0) == map[];
  }

  lemma LoneStart(t: Timing, startup: nat) returns (actions: seq<Action>)
    requires t.maximum >= 1 && startup <= t.startupMs
    ensures IsRun(t, actions) && After(t, actions) == Lone(startup + 40_000, 0, Due(startup + 40_000))
  {
    actions := LoneGranted(t);
    Extend(t, actions, Tick(startup));
    actions := actions + [Tick(startup)];
    Extend(t, actions, GoLive("s"));
    actions := actions + [GoLive("s")];
    assert After(t, actions) == Lone(startup, 0, Due(startup + 40_000));
    actions := TickLone(t, actions, startup, 0, Due(startup + 40_000), 40_000);
  }

  lemma {:induction false} FailRepeatedly(t: Timing, n: nat) returns (actions: seq<Action>)
    requires t.callMs >= 249 && t.maximum >= 1 && 1 <= n <= 14
    ensures IsRun(t, actions) && After(t, actions) == Lone(40_249 + RETRY_MS * n, n, Due(40_249 + RETRY_MS * n))
  {
    hide After, IsRun, Lone;
    if n == 1 {
      actions := LoneStart(t, 0);
      actions := FailOnce(t, actions, 40_000, 0, 249);
    } else {
      actions := FailRepeatedly(t, n - 1);
      actions := FailOnce(t, actions, 40_249 + RETRY_MS * (n - 1), n - 1, 0);
    }
  }

  /** Were calls allowed 4751 ms, a session could stay live after its lease has expired. */
  lemma BoundIsExact(t: Timing) returns (actions: seq<Action>)
    requires t.callMs >= 4_751 && t.maximum >= 1
    ensures IsRun(t, actions)
    ensures var w := After(t, actions); "s" in LiveIds(w) && "s" !in FreshLeases(w.leases, w.now)
  {
    actions := FailRepeatedly(t, 14);
    actions := FailOnce(t, actions, 110_249, 14, 4_750);
    actions := FireLone(t, actions, 115_249, 15);
    actions := TickLone(t, actions, 115_249, 15, InFlight(115_249, None), 4_751);
  }

  /** Nor may a session take longer to start. */
  lemma StartupBoundIsExact(t: Timing) returns (actions: seq<Action>)
    requires t.startupMs + t.callMs >= 80_000 && t.maximum >= 1
    ensures IsRun(t, actions)
    ensures var w := After(t, actions); "s" in LiveIds(w) && "s" !in FreshLeases(w.leases, w.now)
  {
    var at := t.startupMs + 40_000;
    actions := LoneStart(t, t.startupMs);
    actions := FireLone(t, actions, at, 0);
    actions := TickLone(t, actions, at, 0, InFlight(at, None), t.callMs);
  }

  /** Every live session holds an unexpired lease. */
  ghost predicate Covered(w: World) {
    forall id :: id in LiveIds(w) ==> id in FreshLeases(w.leases, w.now)
  }

  /** The timing bound is necessary and sufficient. */
  lemma PunctualIffCovered(t: Timing)
    requires t.maximum >= 1
    ensures Punctual(t) <==> forall actions :: IsRun(t, actions) ==> Covered(After(t, actions))
  {
    if Punctual(t) {
      forall actions | IsRun(t, actions) ensures Covered(After(t, actions)) { LeaseSafety(t, actions); }
    } else if t.callMs >= 4_751 {
      var actions := BoundIsExact(t);
      assert !Covered(After(t, actions));
    } else {
      var actions := StartupBoundIsExact(t);
      assert !Covered(After(t, actions));
    }
  }
}
