/** Progress of the connector's admission: which connections are let in, which become relays, and that
  every event brings a connection closer to its end. */
module AdmissionProgress {
  import opened Common
  import opened Admission

  // ---------------------------------------------------------------- single steps

  /** A new request is admitted exactly while the limit is not reached, and a refused one changes nothing. */
  lemma AdmittedIff(w: World, maximum: nat, id: ConnectionId)
    requires id !in w.connections
    ensures var w' := Step(w, maximum, Request(id));
            if w.reserved < maximum then
              w' == World(w.reserved + 1, w.active, w.connections[id := Connection(Resolving, true, false, false, NoSocket, 0)])
            else w' == w
  {
  }

  /** Events of one connection leave every other connection as it is. */
  lemma OthersUntouched(w: World, maximum: nat, e: Event, id: ConnectionId)
    requires e.id != id
    ensures var w' := Step(w, maximum, e);
            && (id in w'.connections <==> id in w.connections) && (id in w.active <==> id in w'.active)
            && (id in w.connections ==> w'.connections[id] == w.connections[id])
  {
  }

  /** The client was still there, the socket usable, and the upgrade called back before it went. */
  predicate UpgradeSucceeds(c: Connection, usable: bool, upgrade: Upgrade) {
    !c.disconnected && usable && (upgrade == CallsBack(false) || upgrade == ThrowsAfter(false))
  }

  /** The upgrade of a client that is still connected opens a relay that owns the reservation and the
      socket (unless the upgrade throws after its callback, which destroys the socket); any other ending
      returns the reservation and destroys the socket. */
  lemma RelayIff(w: World, maximum: nat, id: ConnectionId, usable: bool, upgrade: Upgrade)
    requires id in w.connections && w.connections[id].phase.Connected? && Orderly(w.connections[id]) && id !in w.active
    ensures var c, w' := w.connections[id], Step(w, maximum, Continue(id, usable, upgrade));
            var c' := w'.connections[id];
            if UpgradeSucceeds(c, usable, upgrade) then
              && c'.phase == Relaying && id in w'.active && w'.reserved == w.reserved && c'.returned == c.returned == 0
              && c'.tcp == (if upgrade.CallsBack? then Open else Destroyed)
            else
              c'.phase == Over && id !in w'.active && w'.reserved == w.reserved - 1 && c'.returned == 1 && c'.tcp == Destroyed
  {
  }

  /** A relay that ends returns its reservation and destroys the socket. */
  lemma RelayEnds(w: World, maximum: nat, id: ConnectionId)
    requires id in w.connections && w.connections[id].phase.Relaying? && Orderly(w.connections[id]) && id in w.active
    ensures var w' := Step(w, maximum, RelayEvent(id));
            && w'.connections[id].phase == Over && w'.connections[id].tcp == Destroyed && w'.connections[id].returned == 1
            && id !in w'.active && w'.reserved == w.reserved - 1
  {
  }

  /** A lost wait ends in the catch block, which returns the reservation; a socket that connects only
      afterwards is destroyed. */
  lemma LostWaitEnds(w: World, maximum: nat, id: ConnectionId)
    requires id in w.connections && Orderly(w.connections[id])
    requires w.connections[id].phase.Resolving? || w.connections[id].phase.Connecting?
    ensures var x := Step(w, maximum, WaitLost(id));
            var y := Step(x, maximum, Caught(id));
            var z := Step(y, maximum, TcpConnected(id));
            && y.connections[id].phase == Over && y.connections[id].returned == 1 && y.reserved == w.reserved - 1
            && (w.connections[id].phase.Connecting? ==> z.connections[id].tcp == Destroyed)
  {
  }

  // ---------------------------------------------------------------- towards the end

  function Rank(phase: Phase): nat {
    match phase
    case Resolving => 0
    case Connecting => 1
    case Failing => 2
    case Connected => 2
    case Relaying => 3
    case Over => 4
  }

  /** What a connection is waiting for. */
  predicate Awaited(c: Connection, e: Event) {
    match e
    case Resolved(_, _) => c.phase.Resolving?
    case WaitLost(_) => c.phase.Resolving? || c.phase.Connecting?
    case TcpConnected(_) => c.phase.Connecting?
    case TcpFailed(_) => c.phase.Connecting?
    case Caught(_) => c.phase.Failing?
    case Continue(_, _, _) => c.phase.Connected?
    case RelayEvent(_) => c.phase.Relaying?
    case _ => false
  }

  /** An awaited event brings a connection strictly closer to its end, and no event takes it back. */
  lemma Advances(w: World, maximum: nat, e: Event)
    requires Conserved(w, maximum) && e.id in w.connections
    ensures var c, w' := w.connections[e.id], Step(w, maximum, e);
            && e.id in w'.connections && Rank(c.phase) <= Rank(w'.connections[e.id].phase)
            && (Awaited(c, e) ==> Rank(c.phase) < Rank(w'.connections[e.id].phase))
  {
    assert Orderly(w.connections[e.id]);
    assert e.id in w.active <==> w.connections[e.id].phase.Relaying?;
    hide Conserved, Orderly;
  }

  // ---------------------------------------------------------------- whole runs

  /** A client that went away while its connection was pending never gets a relay. */
  predicate NoRelay(c: Connection) { (c.pending && c.disconnected) || c.phase.Over? }

  lemma GoneStep(w: World, maximum: nat, e: Event, id: ConnectionId)
    requires id in w.connections && NoRelay(w.connections[id]) && Orderly(w.connections[id])
    ensures id in Step(w, maximum, e).connections && NoRelay(Step(w, maximum, e).connections[id])
  {
    if e.id != id { OthersUntouched(w, maximum, e, id); }
  }

  lemma {:induction false} GoneNeverRelays(maximum: nat, events: seq<Event>, n: nat, id: ConnectionId)
    requires n < |events| && events[n] == ClientGone(id)
    requires id in After(maximum, events[..n]).connections && After(maximum, events[..n]).connections[id].pending
    ensures id in After(maximum, events).connections && NoRelay(After(maximum, events).connections[id])
    ensures !After(maximum, events).connections[id].phase.Relaying?
  {
    var before, e := events[..|events| - 1], events[|events| - 1];
    var w := After(maximum, before);
    AdmissionConserved(maximum, before);
    AdmissionConserved(maximum, events);
    if n < |before| {
      assert before[..n] == events[..n];
      GoneNeverRelays(maximum, before, n, id);
      assert Orderly(w.connections[id]);
      hide After, Step, Orderly, NoRelay;
      GoneStep(w, maximum, e, id);
      OneMore(maximum, events);
    } else {
      assert before == events[..n];
    }
    GoneIsNoRelay(maximum, After(maximum, events), id);
  }

  lemma OneMore(maximum: nat, events: seq<Event>)
    requires events != []
    ensures After(maximum, events) == Step(After(maximum, events[..|events| - 1]), maximum, events[|events| - 1])
  {
    hide Step;
  }

  lemma GoneIsNoRelay(maximum: nat, w: World, id: ConnectionId)
    requires Conserved(w, maximum) && id in w.connections && NoRelay(w.connections[id])
    ensures !w.connections[id].phase.Relaying?
  {
    assert Orderly(w.connections[id]);
  }

  /** The events of one connection. */
  function Own(events: seq<Event>, id: ConnectionId): seq<Event> {
    if events == [] then []
    else Own(events[..|events| - 1], id) + if events[|events| - 1].id == id then [events[|events| - 1]] else []
  }

  /** The events of a connection for which everything goes well. */
  function GoodCourse(id: ConnectionId): seq<Event> {
    [Request(id), Resolved(id, true), TcpConnected(id), Continue(id, true, CallsBack(false))]
  }

  /** Where such a connection is after n of them. */
  function Stage(n: nat): Connection {
    if n <= 1 then Connection(Resolving, true, false, false, NoSocket, 0)
    else if n == 2 then Connection(Connecting, true, false, false, InFlight, 0)
    else if n == 3 then Connection(Connected, true, false, false, Open, 0)
    else Connection(Relaying, false, false, false, Open, 0)
  }

  /** However other connections interleave, an admitted connection that is resolved, connected and
      upgraded, with its client there, is relayed: it is active and owns its open socket. */
  lemma {:induction false} CourseStage(maximum: nat, events: seq<Event>, id: ConnectionId, n: nat)
    requires n <= 4 && Own(events, id) == GoodCourse(id)[..n]
    ensures var w := After(maximum, events);
            if n == 0 then id !in w.connections
            else id in w.connections ==> w.connections[id] == Stage(n) && (n == 4 ==> id in w.active)
  {
    if events != [] {
      var before, e := events[..|events| - 1], events[|events| - 1];
      OneMore(maximum, events);
      if e.id == id {
        assert n > 0 && Own(before, id) == Own(events, id)[..n - 1] == GoodCourse(id)[..n - 1] && e == GoodCourse(id)[n - 1];
        CourseStage(maximum, before, id, n - 1);
        hide After, Own;
        CourseStep(After(maximum, before), maximum, id, n);
      } else {
        assert Own(before, id) == Own(events, id);
        CourseStage(maximum, before, id, n);
        hide After, Own, Step;
        OthersUntouched(After(maximum, before), maximum, e, id);
      }
    }
  }

  lemma CourseStep(w: World, maximum: nat, id: ConnectionId, n: nat)
    requires 1 <= n <= 4
    requires if n == 1 then id !in w.connections else id in w.connections ==> w.connections[id] == Stage(n - 1)
    ensures var w' := Step(w, maximum, GoodCourse(id)[n - 1]);
            id in w'.connections ==> w'.connections[id] == Stage(n) && (n == 4 ==> id in w'.active)
  {
  }

  lemma RelayOpens(maximum: nat, events: seq<Event>, id: ConnectionId)
    requires Own(events, id) == GoodCourse(id) && id in After(maximum, events).connections
    ensures var w := After(maximum, events);
            id in w.active && w.connections[id].phase == Relaying && w.connections[id].tcp == Open && w.connections[id].returned == 0
  {
    assert GoodCourse(id)[..4] == GoodCourse(id);
    hide After, Own;
    CourseStage(maximum, events, id, 4);
  }
}
