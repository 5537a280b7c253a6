/** The gate that lets one file transfer run at a time (apps/web/src/lib/transfer-gate.ts). */
module TransferGate {
  import opened Common

  /** Requests are numbered in the order of their `acquire` calls. */
  type RequestId = nat

  datatype Request = Request(id: RequestId, clientSessionId: string)

  /** The gate's fields, and what the callers can observe: which promises were resolved (in order) or
      rejected, which signals were aborted, and which leases were released. */
  datatype State = State(
    active: Option<Request>, queue: seq<Request>, next: RequestId,
    granted: seq<RequestId>, rejected: set<RequestId>, aborted: set<RequestId>, released: set<RequestId>)

  const START := State(None, [], 0, [], {}, {}, {})

  function Ids(queue: seq<Request>): set<RequestId> { set r | r in queue :: r.id }

  function Without(queue: seq<Request>, session: string): seq<Request> {
    if queue == [] then []
    else (if queue[0].clientSessionId == session then [] else [queue[0]]) + Without(queue[1..], session)
  }

  function Of(queue: seq<Request>, session: string): set<RequestId> {
    set r | r in queue && r.clientSessionId == session :: r.id
  }

  // ---------------------------------------------------------------- reference steps

  function Drain(s: State): State {
    if s.active.Some? || s.queue == [] then s
    else s.(active := Some(s.queue[0]), queue := s.queue[1..], granted := s.granted + [s.queue[0].id])
  }

  function Acquire(s: State, session: string): State {
    Drain(s.(queue := s.queue + [Request(s.next, session)], next := s.next + 1))
  }

  function CancelSession(s: State, session: string): State {
    var hit := s.active.Some? && s.active.value.clientSessionId == session;
    var a := if hit then s.(active := None, aborted := s.aborted + {s.active.value.id}) else s;
    var ids := Of(s.queue, session);
    Drain(a.(queue := Without(s.queue, session), aborted := a.aborted + ids, rejected := a.rejected + ids))
  }

  function CancelAll(s: State): State {
    s.(active := None, queue := [], rejected := s.rejected + Ids(s.queue),
       aborted := s.aborted + Ids(s.queue) + if s.active.Some? then {s.active.value.id} else {})
  }

  /** The release closure of the lease that was given to request id. */
  function Release(s: State, id: RequestId): State {
    if id in s.released then s
    else
      Drain(s.(released := s.released + {id}, active := if s.active.Some? && s.active.value.id == id then None else s.active))
  }

  // ---------------------------------------------------------------- the gate

  class TransferGate {
    var active: Option<Request>
    var queue: seq<Request>
    var next: RequestId
    var granted: seq<RequestId>
    var rejected: set<RequestId>
    var aborted: set<RequestId>
    var released: set<RequestId>

    ghost function Abstract(): State
      reads this
    {
      State(active, queue, next, granted, rejected, aborted, released)
    }

    constructor ()
      ensures Abstract() == START
    {
      active, queue, next, granted, rejected, aborted, released := None, [], 0, [], {}, {}, {};
    }

    method AcquireLease(clientSessionId: string) returns (id: RequestId)
      modifies this
      ensures id == old(next) && Abstract() == Acquire(old(Abstract()), clientSessionId)
    {
      id := next;
      next := next + 1;
      queue := queue + [Request(id, clientSessionId)];
      DrainQueue();
    }

    method CancelClientSession(clientSessionId: string)
      modifies this
      ensures Abstract() == CancelSession(old(Abstract()), clientSessionId)
    {
      hide Without, Of, Drain;
      if active.Some? && active.value.clientSessionId == clientSessionId {
        aborted := aborted + {active.value.id};
        active := None;
      }
      RejectQueued(clientSessionId);
      DrainQueue();
    }

    /** The backward loop over the queue. */
    method RejectQueued(clientSessionId: string)
      modifies this`queue, this`aborted, this`rejected
      ensures queue == Without(old(queue), clientSessionId)
      ensures aborted == old(aborted) + Of(old(queue), clientSessionId)
      ensures rejected == old(rejected) + Of(old(queue), clientSessionId)
    {
      hide Without, Of;
      var index := |queue| - 1;
      CancelNone(queue, clientSessionId);
      while index >= 0
        invariant -1 <= index < |old(queue)|
        invariant queue == old(queue)[..index + 1] + Without(old(queue)[index + 1..], clientSessionId)
        invariant aborted == old(aborted) + Of(old(queue)[index + 1..], clientSessionId)
        invariant rejected == old(rejected) + Of(old(queue)[index + 1..], clientSessionId)
      {
        var pending := queue[index];
        OfSuffix(old(queue), index, clientSessionId);
        Splice(old(queue), index, Without(old(queue)[index + 1..], clientSessionId));
        if pending.clientSessionId == clientSessionId {
          queue := queue[..index] + queue[index + 1..];
          aborted := aborted + {pending.id};
          rejected := rejected + {pending.id};
        }
        index := index - 1;
      }
      assert old(queue)[0..] == old(queue);
    }

    method CancelEverything()
      modifies this
      ensures Abstract() == CancelAll(old(Abstract()))
    {
      if active.Some? {
        aborted := aborted + {active.value.id};
        active := None;
      }
      hide Ids, CancelAll;
      var removed := queue;
      queue := [];
      ghost var abortedBefore := aborted;
      IdsAt(removed);
      for i := 0 to |removed|
        invariant aborted == abortedBefore + Ids(removed[..i]) && rejected == old(rejected) + Ids(removed[..i])
        invariant active == None && queue == [] && next == old(next) && granted == old(granted) && released == old(released)
      {
        OneMoreId(removed, i);
        aborted := aborted + {removed[i].id};
        rejected := rejected + {removed[i].id};
      }
      AllCancelled(old(Abstract()), Abstract());
    }

    method ReleaseLease(id: RequestId)
      modifies this
      ensures Abstract() == Release(old(Abstract()), id)
    {
      if id in released { return; }
      released := released + {id};
      if active.Some? && active.value.id == id { active := None; }
      DrainQueue();
    }

    method DrainQueue()
      modifies this
      ensures Abstract() == Drain(old(Abstract()))
    {
      if active.Some? || queue == [] { return; }
      active := Some(queue[0]);
      granted := granted + [queue[0].id];
      queue := queue[1..];
    }
  }

  lemma AllCancelled(s: State, t: State)
    requires t.active == None && t.queue == [] && t.next == s.next && t.granted == s.granted && t.released == s.released
    requires t.rejected == s.rejected + Ids(s.queue)
    requires t.aborted == s.aborted + (if s.active.Some? then {s.active.value.id} else {}) + Ids(s.queue)
    ensures t == CancelAll(s)
  {
    hide Ids;
  }

  lemma IdsAt(queue: seq<Request>)
    ensures Ids(queue[..0]) == {} && queue[..|queue|] == queue
  {
  }

  lemma OneMoreId(queue: seq<Request>, i: nat)
    requires i < |queue|
    ensures Ids(queue[..i + 1]) == Ids(queue[..i]) + {queue[i].id}
  {
    assert queue[..i + 1] == queue[..i] + [queue[i]];
  }

  lemma CancelNone(queue: seq<Request>, session: string)
    ensures Without(queue[|queue|..], session) == [] && Of(queue[|queue|..], session) == {}
    ensures queue[..|queue| - 1 + 1] == queue
  {
  }

  /** One entry further to the left. */
  lemma OfSuffix(queue: seq<Request>, i: nat, session: string)
    requires i < |queue|
    ensures var hit := queue[i].clientSessionId == session;
            && Without(queue[i..], session) == (if hit then [] else [queue[i]]) + Without(queue[i + 1..], session)
            && Of(queue[i..], session) == (if hit then {queue[i].id} else {}) + Of(queue[i + 1..], session)
  {
    assert queue[i..] == [queue[i]] + queue[i + 1..];
  }

  lemma Splice(was: seq<Request>, i: nat, kept: seq<Request>)
    requires i < |was|
    ensures var queue := was[..i + 1] + kept;
            queue[..i] + queue[i + 1..] == was[..i] + kept && queue == was[..i] + ([was[i]] + kept)
    ensures was[..i] + ([] + kept) == was[..i] + kept
  {
  }

  // ---------------------------------------------------------------- runs

  datatype Event = Acquires(session: string) | Releases(id: RequestId) | Cancels(session: string) | CancelsAll

  /** Only a lease that was granted can be released. */
  predicate Possible(s: State, e: Event) { e.Releases? ==> e.id in s.granted }

  function Step(s: State, e: Event): State {
    match e
    case Acquires(session) => Acquire(s, session)
    case Releases(id) => Release(s, id)
    case Cancels(session) => CancelSession(s, session)
    case CancelsAll => CancelAll(s)
  }

  ghost predicate IsRun(events: seq<Event>)
  {
    events == [] || (IsRun(events[..|events| - 1]) && Possible(After(events[..|events| - 1]), events[|events| - 1]))
  }

  function After(events: seq<Event>): State {
    if events == [] then START else Step(After(events[..|events| - 1]), events[|events| - 1])
  }

  /** Granted requests, then queued ones, in the order of their acquire calls. */
  ghost predicate InOrder(s: State) {
    && (forall i, j :: 0 <= i < j < |s.granted| ==> s.granted[i] < s.granted[j])
    && Ascending(s.queue)
    && (forall i, j :: 0 <= i < |s.granted| && 0 <= j < |s.queue| ==> s.granted[i] < s.queue[j].id)
  }

  ghost predicate Granted(s: State, id: RequestId) { id in s.granted }
  ghost predicate Queued(s: State, id: RequestId) { id in Ids(s.queue) }

  /** Every request is in exactly one of granted, queued and rejected. */
  ghost predicate Partitioned(s: State) {
    && (forall id: nat :: id < s.next ==> Granted(s, id) || Queued(s, id) || id in s.rejected)
    && (forall id: nat :: Granted(s, id) || Queued(s, id) || id in s.rejected ==> id < s.next)
    && (forall id: nat :: id in s.rejected ==> !Granted(s, id) && !Queued(s, id))
  }

  /** The leases that are granted, not released and not aborted: the active one and no other. */
  ghost predicate OneHolder(s: State) {
    forall id: nat :: Granted(s, id) && id !in s.released && id !in s.aborted <==> s.active.Some? && s.active.value.id == id
  }

  ghost predicate Valid(s: State) {
    && (s.queue != [] ==> s.active.Some?)
    && InOrder(s) && Partitioned(s) && OneHolder(s)
    && (forall id: nat :: id in s.released ==> Granted(s, id))
    && (forall id: nat :: id in s.aborted ==> Granted(s, id) || id in s.rejected)
  }

  /** Everything but "someone holds the gate when someone waits", which `drain` restores. */
  ghost predicate ValidUndrained(s: State) {
    && InOrder(s) && Partitioned(s) && OneHolder(s)
    && (forall id: nat :: id in s.released ==> Granted(s, id))
    && (forall id: nat :: id in s.aborted ==> Granted(s, id) || id in s.rejected)
  }

  lemma DrainValid(s: State)
    requires ValidUndrained(s)
    ensures Valid(Drain(s))
  {
    if s.active.None? && s.queue != [] {
      hide InOrder, Granted, Queued;
      DrainMembers(s);
      DrainInOrder(s);
      GrantedNotQueued(s);
      GrantedNotQueued(Drain(s));
    }
  }

  lemma DrainMembers(s: State)
    requires s.active.None? && s.queue != []
    ensures var d, first := Drain(s), s.queue[0].id;
            && (forall id: nat :: Granted(d, id) <==> Granted(s, id) || id == first)
            && (forall id: nat :: Queued(s, id) <==> Queued(d, id) || id == first)
  {
    var d, r := Drain(s), s.queue[0];
    assert Ids(s.queue) == {r.id} + Ids(d.queue) by { assert s.queue == [r] + d.queue; }
  }

  lemma DrainInOrder(s: State)
    requires s.active.None? && s.queue != [] && InOrder(s)
    ensures InOrder(Drain(s))
  {
  }

  lemma AppendInOrder(s: State, session: string)
    requires InOrder(s) && Partitioned(s)
    ensures InOrder(s.(queue := s.queue + [Request(s.next, session)], next := s.next + 1))
  {
    forall i | 0 <= i < |s.granted| ensures s.granted[i] < s.next { assert Granted(s, s.granted[i]); }
    forall j | 0 <= j < |s.queue| ensures s.queue[j].id < s.next { assert Queued(s, s.queue[j].id); }
  }

  lemma AppendMembers(s: State, session: string)
    ensures var a := s.(queue := s.queue + [Request(s.next, session)], next := s.next + 1);
            && (forall id: nat :: Queued(a, id) <==> Queued(s, id) || id == s.next)
            && (forall id: nat :: Granted(a, id) <==> Granted(s, id))
  {
    var a := s.(queue := s.queue + [Request(s.next, session)], next := s.next + 1);
    assert Ids(a.queue) == Ids(s.queue) + {s.next};
  }

  lemma AcquireValid(s: State, session: string)
    requires Valid(s)
    ensures Valid(Acquire(s, session))
  {
    hide Ids, InOrder, Drain, Granted, Queued;
    AppendInOrder(s, session);
    AppendMembers(s, session);
    DrainValid(s.(queue := s.queue + [Request(s.next, session)], next := s.next + 1));
  }

  /** Cancelling keeps the other requests of the queue, in their order. */
  lemma {:induction false} WithoutKeeps(queue: seq<Request>, session: string)
    ensures var w := Without(queue, session);
            && (forall r :: r in w <==> r in queue && r.clientSessionId != session)
            && (Ascending(queue) ==> Ascending(w))
  {
    if queue != [] {
      var first, rest := queue[0], queue[1..];
      var w := Without(rest, session);
      assert queue == [first] + rest && Without(queue, session) == (if first.clientSessionId == session then [] else [first]) + w;
      hide Without, Ascending;
      WithoutKeeps(rest, session);
      AscendingCons(first, rest);
      AscendingCons(first, w);
    }
  }

  ghost predicate Ascending(queue: seq<Request>) {
    forall i, j :: 0 <= i < j < |queue| ==> queue[i].id < queue[j].id
  }

  lemma AscendingCons(first: Request, rest: seq<Request>)
    ensures Ascending([first] + rest) <==> Ascending(rest) && forall r :: r in rest ==> first.id < r.id
  {
    var queue := [first] + rest;
    if Ascending(queue) {
      forall i, j | 0 <= i < j < |rest| ensures rest[i].id < rest[j].id {
        assert queue[i + 1].id < queue[j + 1].id;
      }
      forall r | r in rest ensures first.id < r.id {
        var j :| 0 <= j < |rest| && rest[j] == r;
        assert queue[0].id < queue[j + 1].id;
      }
    }
  }

  /** The state before draining. */
  function Cancelled(s: State, session: string): State {
    var hit := s.active.Some? && s.active.value.clientSessionId == session;
    var ids := Of(s.queue, session);
    s.(active := if hit then None else s.active, queue := Without(s.queue, session),
       aborted := s.aborted + (if hit then {s.active.value.id} else {}) + ids, rejected := s.rejected + ids)
  }

  lemma CancelDrains(s: State, session: string)
    ensures CancelSession(s, session) == Drain(Cancelled(s, session))
  {
    hide Drain, Of, Without;
    assert s.aborted + {} + Of(s.queue, session) == s.aborted + Of(s.queue, session);
  }

  lemma CancelMembers(s: State, session: string)
    requires InOrder(s)
    ensures var c, ids := Cancelled(s, session), Of(s.queue, session);
            && (forall id: nat :: Queued(c, id) <==> Queued(s, id) && id !in ids)
            && (forall id: nat :: id in ids ==> Queued(s, id))
            && (forall id: nat :: Granted(c, id) <==> Granted(s, id))
  {
    hide Without, InOrder;
    var c, ids := Cancelled(s, session), Of(s.queue, session);
    WithoutKeeps(s.queue, session);
    forall id: nat ensures Queued(c, id) <==> Queued(s, id) && id !in ids {
      if Queued(c, id) {
        var r :| r in c.queue && r.id == id;
        assert r in s.queue;
        if id in ids {
          var q :| q in s.queue && q.clientSessionId == session && q.id == id;
          DistinctIds(s, r, q);
        }
      }
    }
  }

  lemma CancelInOrder(s: State, session: string)
    requires InOrder(s)
    ensures InOrder(Cancelled(s, session))
  {
    hide Without, Ascending, Of;
    var c := Cancelled(s, session);
    WithoutKeeps(s.queue, session);
    forall i, j | 0 <= i < |c.granted| && 0 <= j < |c.queue| ensures c.granted[i] < c.queue[j].id {
      assert c.queue[j] in s.queue;
    }
  }

  lemma CancelValid(s: State, session: string)
    requires Valid(s)
    ensures Valid(CancelSession(s, session))
  {
    hide Without, Of, Ids, InOrder, Granted, Queued, Drain, CancelSession;
    CancelDrains(s, session);
    CancelMembers(s, session);
    CancelInOrder(s, session);
    GrantedNotQueued(s);
    DrainValid(Cancelled(s, session));
  }

  lemma DistinctIds(s: State, a: Request, b: Request)
    requires InOrder(s) && a in s.queue && b in s.queue && a.id == b.id
    ensures a == b
  {
  }

  lemma GrantedNotQueued(s: State)
    requires InOrder(s)
    ensures forall id: nat :: !(Granted(s, id) && Queued(s, id))
  {
    forall id: nat | Granted(s, id) ensures !Queued(s, id) {
      var i :| 0 <= i < |s.granted| && s.granted[i] == id;
      forall r | r in s.queue ensures r.id != id {
        var j :| 0 <= j < |s.queue| && s.queue[j] == r;
        assert s.granted[i] < s.queue[j].id;
      }
    }
  }

  lemma CancelAllValid(s: State)
    requires Valid(s)
    ensures Valid(CancelAll(s))
  {
    var c := CancelAll(s);
    assert forall id: nat :: Granted(c, id) <==> Granted(s, id);
    assert forall id: nat :: !Queued(c, id);
    GrantedNotQueued(s);
  }

  lemma ReleaseValid(s: State, id: RequestId)
    requires Valid(s) && id in s.granted
    ensures Valid(Release(s, id))
  {
    if id !in s.released {
      var r := s.(released := s.released + {id}, active := if s.active.Some? && s.active.value.id == id then None else s.active);
      assert forall k: nat :: Granted(r, k) <==> Granted(s, k);
      assert forall k: nat :: Queued(r, k) <==> Queued(s, k);
      assert Granted(s, id);
      DrainValid(r);
    }
  }

  /** For every sequence of calls: someone holds the gate whenever someone waits, exactly the active
      lease is granted, unreleased and unaborted, every request is queued, granted or rejected, and
      grants and queue are in acquire order. */
  lemma {:induction false} RunValid(events: seq<Event>)
    requires IsRun(events)
    ensures Valid(After(events))
  {
    if events != [] {
      var before, e := events[..|events| - 1], events[|events| - 1];
      RunValid(before);
      var s := After(before);
      match e
      case Acquires(session) => AcquireValid(s, session);
      case Releases(id) => ReleaseValid(s, id);
      case Cancels(session) => CancelValid(s, session);
      case CancelsAll => CancelAllValid(s);
    }
  }

  /** First come, first served among the requests that were not cancelled. */
  lemma Fifo(events: seq<Event>, a: RequestId, b: RequestId)
    requires IsRun(events) && a < b
    requires var s := After(events); b in s.granted && a !in s.rejected
    ensures var s := After(events); exists i, j :: 0 <= i < j < |s.granted| && s.granted[i] == a && s.granted[j] == b
  {
    RunValid(events);
    var s := After(events);
    var j :| 0 <= j < |s.granted| && s.granted[j] == b;
    assert Granted(s, b);
    forall r | r in s.queue ensures r.id != a {
      var q :| 0 <= q < |s.queue| && s.queue[q] == r;
      assert s.granted[j] < s.queue[q].id;
    }
    assert Granted(s, a);
    var i :| 0 <= i < |s.granted| && s.granted[i] == a;
    assert j < i ==> b < a;
  }

  /** A release by anyone but the holder, and every repeated release, changes neither holder nor queue. */
  lemma StaleRelease(s: State, id: RequestId)
    requires Valid(s) && (id in s.released || s.active.None? || s.active.value.id != id)
    ensures var r := Release(s, id); r.active == s.active && r.queue == s.queue && r.granted == s.granted
  {
  }

  /** The holder's release passes the gate to the first waiter and moves every other one up. */
  lemma HolderRelease(s: State, id: RequestId)
    requires Valid(s) && s.active.Some? && s.active.value.id == id
    ensures var r := Release(s, id);
            if s.queue == [] then r.active == None && r.queue == []
            else r.active == Some(s.queue[0]) && r.queue == s.queue[1..] && r.granted == s.granted + [s.queue[0].id]
  {
    assert Granted(s, id) && id !in s.released;
  }

  /** A new request is let in at once exactly when the gate is free, and waits behind everyone else
      otherwise. */
  lemma AcquireJoins(s: State, session: string)
    requires Valid(s)
    ensures var r, s' := Request(s.next, session), Acquire(s, session);
            && s'.next == s.next + 1 && s'.rejected == s.rejected && s'.aborted == s.aborted && s'.released == s.released
            && if s.active.None? then s'.active == Some(r) && s'.queue == [] && s'.granted == s.granted + [s.next]
               else s'.active == s.active && s'.queue == s.queue + [r] && s'.granted == s.granted
  {
  }

  /** Cancelling a session aborts what it holds, rejects what it waits for and leaves it nothing; the
      other holder stays, and the other requests keep their order. */
  lemma CancelClears(s: State, session: string)
    requires Valid(s)
    ensures var s' := CancelSession(s, session);
            && (s'.active.Some? ==> s'.active.value.clientSessionId != session)
            && (forall r :: r in s'.queue ==> r in s.queue && r.clientSessionId != session)
            && (forall r :: r in s.queue && r.clientSessionId == session ==> r.id in s'.rejected && r.id in s'.aborted)
            && (s.active.Some? && s.active.value.clientSessionId == session ==> s.active.value.id in s'.aborted)
            && (s.active.Some? && s.active.value.clientSessionId != session ==> s'.active == s.active)
            && (forall r :: r in s.queue && r.clientSessionId != session ==> r in s'.queue || s'.active == Some(r))
  {
    hide Valid, Without;
    CancelDrains(s, session);
    WithoutKeeps(s.queue, session);
    DrainTakesFirst(Cancelled(s, session));
  }

  lemma DrainTakesFirst(s: State)
    ensures var d := Drain(s);
            && d.rejected == s.rejected && d.aborted == s.aborted && (s.active.Some? ==> d.active == s.active)
            && (forall r :: r in d.queue ==> r in s.queue) && (s.active.None? && d.active.Some? ==> d.active.value in s.queue)
            && (forall r :: r in s.queue ==> r in d.queue || d.active == Some(r))
  {
    if s.active.None? && s.queue != [] { assert s.queue == [s.queue[0]] + s.queue[1..]; }
  }

  /** Cancelling everything leaves nobody; every waiter is rejected, and it and the holder are aborted. */
  lemma CancelAllClears(s: State)
    ensures var s' := CancelAll(s);
            && s'.active == None && s'.queue == [] && s'.granted == s.granted
            && (forall r :: r in s.queue ==> r.id in s'.rejected && r.id in s'.aborted)
            && (s.active.Some? ==> s.active.value.id in s'.aborted)
            && (forall id :: id in s'.rejected ==> id in s.rejected || exists r :: r in s.queue && r.id == id)
  {
  }

  /** The waiters that request id has to wait for. */
  function Ahead(s: State, id: RequestId): set<RequestId> { set r | r in s.queue && r.id < id :: r.id }

  lemma QueueShrinks(s: State, e: Event, r: Request)
    requires r in Step(s, e).queue
    ensures r in s.queue || (e.Acquires? && r.id == s.next)
  {
    match e
    case Acquires(session) =>
    case Releases(id) =>
    case Cancels(session) => WithoutKeeps(s.queue, session);
    case CancelsAll =>
  }

  /** Nobody overtakes: whatever happens, a waiter never gets anyone new ahead of it. */
  lemma NoOvertaking(s: State, e: Event, id: RequestId)
    requires Valid(s) && Queued(s, id)
    ensures Ahead(Step(s, e), id) <= Ahead(s, id)
  {
    forall k | k in Ahead(Step(s, e), id) ensures k in Ahead(s, id) {
      var r :| r in Step(s, e).queue && r.id < id && r.id == k;
      QueueShrinks(s, e, r);
      assert id < s.next;
    }
  }

  /** Each release by the holder brings every waiter closer: it is granted, or has one less ahead. */
  lemma ReleaseAdvances(s: State, holder: RequestId, id: RequestId)
    requires Valid(s) && s.active.Some? && s.active.value.id == holder && Queued(s, id)
    ensures var r := Release(s, holder);
            if Ahead(s, id) == {} then r.active.Some? && r.active.value.id == id
            else Queued(r, id) && Ahead(r, id) < Ahead(s, id) && |Ahead(r, id)| == |Ahead(s, id)| - 1
  {
    hide Release, OneHolder, Partitioned;
    HolderRelease(s, holder);
    var r := Release(s, holder);
    var first := s.queue[0];
    assert s.queue == [first] + r.queue;
    FirstWaits(s, r, id);
    if id != first.id {
      assert first.id !in Ahead(r, id);
      assert Ahead(s, id) == Ahead(r, id) + {first.id};
    }
  }

  lemma FirstWaits(s: State, r: State, id: RequestId)
    requires InOrder(s) && s.queue != [] && s.queue == [s.queue[0]] + r.queue && Queued(s, id)
    ensures var first := s.queue[0].id;
            if id == first then Ahead(s, id) == {}
            else
              && Queued(r, id) && first !in Ahead(r, id) && first in Ahead(s, id)
              && Ahead(s, id) == Ahead(r, id) + {first}
  {
    var first := s.queue[0];
    AscendingCons(first, r.queue);
    hide Ascending;
    if id != first.id {
      var q :| q in s.queue && q.id == id;
      assert q in r.queue;
      assert first in s.queue;
    }
  }
}
