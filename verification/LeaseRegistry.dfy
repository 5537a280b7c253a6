/** The per-owner registry of SSH session leases (apps/worker/src/durable/ssh-session-registry.ts). */
module LeaseRegistry {
  import opened Common

  type SessionId = string
  type Leases = map<SessionId, int>

  const SSH_SESSION_LEASE_TTL_MS := 120_000

  datatype Update = Update(leases: Leases, acquired: bool, expiresAt: Option<int>)

  function FreshLeases(leases: Leases, now: int): Leases {
    map id | id in leases && leases[id] > now :: leases[id]
  }

  function AcquireSessionLease(current: Leases, id: SessionId, maximum: nat, now: int, ttl: nat): Update {
    var leases := FreshLeases(current, now);
    if id !in leases && |leases| >= maximum then Update(leases, false, None)
    else Update(leases[id := now + ttl], true, Some(now + ttl))
  }

  function RenewSessionLease(current: Leases, id: SessionId, now: int, ttl: nat): Update {
    var leases := FreshLeases(current, now);
    if id !in leases then Update(leases, false, None)
    else Update(leases[id := now + ttl], true, Some(now + ttl))
  }

  function ReleaseSessionLease(current: Leases, id: SessionId, now: int): Update {
    Update(FreshLeases(current, now) - {id}, true, None)
  }

  function PruneSessionLeases(current: Leases, now: int): Update {
    Update(FreshLeases(current, now), true, None)
  }

  // ---------------------------------------------------------------- the alarm

  lemma {:induction false} LeastExpiryExists(leases: Leases)
    requires leases != map[]
    ensures exists e :: e in leases.Values && forall v :: v in leases.Values ==> e <= v
    decreases |leases|
  {
    var id :| id in leases;
    var rest := leases - {id};
    if rest == map[] {
      assert forall v :: v in leases.Values ==> v == leases[id] by {
        forall v | v in leases.Values ensures v == leases[id] {
          var k :| k in leases && leases[k] == v;
          assert k != id ==> k in rest;
        }
      }
      var e := leases[id];
      assert e in leases.Values && forall v :: v in leases.Values ==> e <= v;
    } else {
      LeastExpiryExists(rest);
      var e :| e in rest.Values && forall v :: v in rest.Values ==> e <= v;
      var least := Min(e, leases[id]);
      forall v | v in leases.Values ensures least <= v {
        var k :| k in leases && leases[k] == v;
        assert k != id ==> k in rest && rest[k] in rest.Values;
      }
      assert leases[id] in leases.Values && e in leases.Values;
      assert least in leases.Values;
    }
  }

  /** `Math.min(...expirations)`. */
  function LeastExpiry(leases: Leases): (e: int)
    requires leases != map[]
    ensures e in leases.Values && forall v :: v in leases.Values ==> e <= v
  {
    LeastExpiryExists(leases);
    var e :| e in leases.Values && forall v :: v in leases.Values ==> e <= v;
    e
  }

  function NextAlarm(leases: Leases): Option<int> {
    if leases == map[] then None else Some(LeastExpiry(leases))
  }

  datatype Operation = Acquire(maximum: nat) | Renew | Release

  datatype Response = Response(acquired: bool, active: nat, expiresAt: Option<int>)

  function Transition(current: Leases, op: Operation, id: SessionId, now: int): Update {
    match op
    case Acquire(maximum) => AcquireSessionLease(current, id, maximum, now, SSH_SESSION_LEASE_TTL_MS)
    case Renew => RenewSessionLease(current, id, now, SSH_SESSION_LEASE_TTL_MS)
    case Release => ReleaseSessionLease(current, id, now)
  }

  function Respond(u: Update): Response { Response(u.acquired, |u.leases|, u.expiresAt) }

  /** The Durable Object: storage and alarm change together in one transaction. */
  class SSHSessionRegistry {
    var stored: Option<Leases>
    var alarmAt: Option<int>

    ghost function Contents(): Leases
      reads this
    {
      if stored.Some? then stored.value else map[]
    }

    /** Nothing is stored for an empty registry, and the alarm is the earliest stored expiry. */
    ghost predicate Valid()
      reads this
    {
      (stored.Some? ==> stored.value != map[]) && alarmAt == NextAlarm(Contents())
    }

    constructor ()
      ensures Valid() && Contents() == map[]
    {
      stored, alarmAt := None, None;
    }

    method Fetch(op: Operation, id: SessionId, now: int) returns (r: Response)
      requires Valid()
      modifies this
      ensures Valid()
      ensures var next := Transition(old(Contents()), op, id, now);
              Contents() == next.leases && r == Respond(next)
    {
      var current := if stored.Some? then stored.value else map[];
      var next := Transition(current, op, id, now);
      Commit(next.leases);
      r := Respond(next);
    }

    method Alarm(now: int)
      requires Valid()
      modifies this
      ensures Valid() && Contents() == FreshLeases(old(Contents()), now)
      // a due alarm makes progress
      ensures old(alarmAt).Some? && old(alarmAt).value <= now ==> Contents().Keys < old(Contents()).Keys
    {
      var current := if stored.Some? then stored.value else map[];
      if alarmAt.Some? && alarmAt.value <= now {
        ghost var id :| id in current && current[id] == alarmAt.value;
        assert id !in FreshLeases(current, now);
      }
      Commit(FreshLeases(current, now));
    }

    method Commit(leases: Leases)
      modifies this
      ensures Valid() && Contents() == leases
    {
      if leases != map[] {
        stored, alarmAt := Some(leases), Some(LeastExpiry(leases));
      } else {
        stored, alarmAt := None, None;
      }
    }
  }

  // ---------------------------------------------------------------- refinement of an ideal registry

  /** Pruning at any earlier time changes no later result. */
  lemma PruneInvisible(leases: Leases, op: Operation, id: SessionId, earlier: int, now: int)
    requires earlier <= now
    ensures Transition(PruneSessionLeases(leases, earlier).leases, op, id, now) == Transition(leases, op, id, now)
  {
    assert FreshLeases(FreshLeases(leases, earlier), now) == FreshLeases(leases, now);
  }

  datatype Event = Request(op: Operation, id: SessionId, at: int) | AlarmFires(at: int)

  ghost predicate Ordered(events: seq<Event>) {
    forall i, j :: 0 <= i <= j < |events| ==> events[i].at <= events[j].at
  }

  /** What the callers see: the answers to the requests, in order. */
  function Run(leases: Leases, events: seq<Event>): (Leases, seq<Response>) {
    if events == [] then (leases, [])
    else
      var (before, answers) := Run(leases, events[..|events| - 1]);
      match events[|events| - 1]
      case Request(op, id, now) =>
        var u := Transition(before, op, id, now);
        (u.leases, answers + [Respond(u)])
      case AlarmFires(now) => (PruneSessionLeases(before, now).leases, answers)
  }

  /** The ideal registry forgets nothing but what is released, and merely ignores expired leases. */
  function IdealStep(ideal: Leases, op: Operation, id: SessionId, now: int): (Leases, Response) {
    var live := set k | k in ideal && ideal[k] > now;
    match op
    case Acquire(maximum) =>
      if id in live || |live| < maximum then
        (ideal[id := now + SSH_SESSION_LEASE_TTL_MS], Response(true, |live + {id}|, Some(now + SSH_SESSION_LEASE_TTL_MS)))
      else (ideal, Response(false, |live|, None))
    case Renew =>
      if id in live then
        (ideal[id := now + SSH_SESSION_LEASE_TTL_MS], Response(true, |live|, Some(now + SSH_SESSION_LEASE_TTL_MS)))
      else (ideal, Response(false, |live|, None))
    case Release => (ideal - {id}, Response(true, |live - {id}|, None))
  }

  function IdealRun(events: seq<Event>): (Leases, seq<Response>) {
    if events == [] then (map[], [])
    else
      var (before, answers) := IdealRun(events[..|events| - 1]);
      match events[|events| - 1]
      case Request(op, id, now) =>
        var (after, r) := IdealStep(before, op, id, now);
        (after, answers + [r])
      case AlarmFires(_) => (before, answers)
  }

  /** Same unexpired leases from `now` on. */
  ghost predicate Agree(leases: Leases, ideal: Leases, now: int) {
    FreshLeases(leases, now) == FreshLeases(ideal, now)
  }

  lemma AgreeLater(leases: Leases, ideal: Leases, earlier: int, now: int)
    requires Agree(leases, ideal, earlier) && earlier <= now
    ensures Agree(leases, ideal, now)
  {
    assert FreshLeases(FreshLeases(leases, earlier), now) == FreshLeases(leases, now);
    assert FreshLeases(FreshLeases(ideal, earlier), now) == FreshLeases(ideal, now);
  }

  lemma FreshOfUpdate(leases: Leases, id: SessionId, e: int, now: int)
    requires e > now
    ensures FreshLeases(leases[id := e], now) == FreshLeases(leases, now)[id := e]
  {
  }

  lemma FreshOfRemoval(leases: Leases, id: SessionId, now: int)
    ensures FreshLeases(leases - {id}, now) == FreshLeases(leases, now) - {id}
    ensures FreshLeases(FreshLeases(leases, now), now) == FreshLeases(leases, now)
  {
  }

  lemma FreshKeys(leases: Leases, now: int)
    ensures FreshLeases(leases, now).Keys == set k | k in leases && leases[k] > now
  {
  }

  lemma UpdateSizes(leases: Leases, id: SessionId, e: int)
    ensures |leases| == |leases.Keys|
    ensures |leases[id := e]| == |leases.Keys + {id}| && (id in leases ==> leases.Keys + {id} == leases.Keys)
    ensures |leases - {id}| == |leases.Keys - {id}|
  {
    assert |leases[id := e]| == |leases[id := e].Keys| && leases[id := e].Keys == leases.Keys + {id};
    assert |leases - {id}| == |(leases - {id}).Keys| && (leases - {id}).Keys == leases.Keys - {id};
  }

  lemma StepRefines(leases: Leases, ideal: Leases, op: Operation, id: SessionId, now: int)
    requires Agree(leases, ideal, now)
    ensures var u := Transition(leases, op, id, now);
            var (after, r) := IdealStep(ideal, op, id, now);
            Respond(u) == r && Agree(u.leases, after, now)
  {
    hide FreshLeases;
    var unexpired := FreshLeases(leases, now);
    var e := now + SSH_SESSION_LEASE_TTL_MS;
    FreshKeys(ideal, now);
    UpdateSizes(unexpired, id, e);
    FreshOfUpdate(unexpired, id, e, now);
    FreshOfUpdate(ideal, id, e, now);
    FreshOfRemoval(unexpired, id, now);
    FreshOfRemoval(ideal, id, now);
    FreshOfRemoval(leases, id, now);
  }

  /** For every run with a clock that does not go back, and with alarms at any moments, callers
      cannot tell the pruned registry from the ideal one. */
  lemma {:induction false} RunRefines(events: seq<Event>)
    requires Ordered(events)
    ensures Run(map[], events).1 == IdealRun(events).1
    ensures events != [] ==> Agree(Run(map[], events).0, IdealRun(events).0, events[|events| - 1].at)
    ensures events == [] ==> Run(map[], events).0 == IdealRun(events).0
  {
    if events != [] {
      var before, e := events[..|events| - 1], events[|events| - 1];
      RunRefines(before);
      var leases, ideal := Run(map[], before).0, IdealRun(before).0;
      if before != [] { AgreeLater(leases, ideal, before[|before| - 1].at, e.at); }
      match e
      case Request(op, id, now) => StepRefines(leases, ideal, op, id, now);
      case AlarmFires(now) => assert FreshLeases(FreshLeases(leases, now), now) == FreshLeases(leases, now);
    }
  }

  /** A lease that was released or has expired stays dead: without a new acquire, no sequence of
      renewals, releases, alarms and requests of other sessions brings it back. */
  lemma {:induction false} NoRevival(leases: Leases, events: seq<Event>, id: SessionId, now: int)
    requires Ordered(events) && id !in FreshLeases(leases, now)
    requires forall i :: 0 <= i < |events| ==> events[i].at >= now
    requires forall i :: 0 <= i < |events| && events[i].Request? && events[i].id == id ==> !events[i].op.Acquire?
    ensures var end := if events == [] then now else events[|events| - 1].at;
            id !in FreshLeases(Run(leases, events).0, end) && !RenewSessionLease(Run(leases, events).0, id, end, SSH_SESSION_LEASE_TTL_MS).acquired
  {
    if events != [] {
      NoRevival(leases, events[..|events| - 1], id, now);
      var before := Run(leases, events[..|events| - 1]).0;
      var e := events[|events| - 1];
      assert id !in FreshLeases(before, e.at);
    }
  }

  /** With a fixed limit the number of unexpired leases never exceeds it. */
  lemma {:induction false} CapacityKept(events: seq<Event>, maximum: nat)
    requires forall i :: 0 <= i < |events| && events[i].Request? && events[i].op.Acquire? ==> events[i].op.maximum == maximum
    ensures |Run(map[], events).0| <= maximum
  {
    if events != [] {
      CapacityKept(events[..|events| - 1], maximum);
      var before, e := Run(map[], events[..|events| - 1]).0, events[|events| - 1];
      FreshSmaller(before, e.at);
      match e
      case Request(op, id, now) => TransitionCapacity(before, op, id, now, maximum);
      case AlarmFires(_) =>
    }
  }

  lemma FreshSmaller(leases: Leases, now: int)
    ensures |FreshLeases(leases, now)| <= |leases|
  {
    assert FreshLeases(leases, now).Keys <= leases.Keys;
    SubsetSmaller(FreshLeases(leases, now).Keys, leases.Keys);
  }

  lemma {:induction false} SubsetSmaller<T>(a: set<T>, b: set<T>)
    requires a <= b
    ensures |a| <= |b|
  {
    if a != {} {
      var x :| x in a;
      SubsetSmaller(a - {x}, b - {x});
    }
  }

  lemma TransitionCapacity(leases: Leases, op: Operation, id: SessionId, now: int, maximum: nat)
    requires |leases| <= maximum && (op.Acquire? ==> op.maximum == maximum)
    ensures |Transition(leases, op, id, now).leases| <= maximum
  {
    var unexpired := FreshLeases(leases, now);
    FreshSmaller(leases, now);
    hide FreshLeases;
    UpdateSizes(unexpired, id, now + SSH_SESSION_LEASE_TTL_MS);
    SubsetSmaller(unexpired.Keys - {id}, unexpired.Keys);
  }
}
