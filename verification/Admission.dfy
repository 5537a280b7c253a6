/** Admission of upgrade requests by the tailnet connector (apps/tailnet-connector/src/server.ts).

  `handleUpgrade` is cut at its awaits: every method below is one stretch of code that runs without
  interruption, and the stretches of different connections interleave freely. */
module Admission {
  import opened Common

  type ConnectionId = nat

  /** Where a connection is: waiting for name resolution, for the TCP connection, for one of the two
      continuations of that wait (`Failing` is the catch block), relaying, or over. */
  datatype Phase = Resolving | Connecting | Failing | Connected | Relaying | Over

  /** The TCP operation: not started or failed, running, or its socket. */
  datatype Tcp = NoSocket | InFlight | Open | Destroyed

  /** The closure variables of one `handleUpgrade`; `returned` counts how often its reservation has been
      given back. */
  datatype Connection = Connection(phase: Phase, pending: bool, disconnected: bool, finished: bool, tcp: Tcp, returned: nat)

  datatype World = World(reserved: int, active: set<ConnectionId>, connections: map<ConnectionId, Connection>)

  const START := World(0, {}, map[])

  /** What `webSockets.handleUpgrade` does: never calls back, throws, calls back (perhaps after the client
      has gone), or throws after calling back. */
  datatype Upgrade = NoCallback | ThrowsFirst | CallsBack(clientGone: bool) | ThrowsAfter(clientGone: bool)

  datatype Event =
    | Request(id: ConnectionId)
    | ClientGone(id: ConnectionId)
    | Resolved(id: ConnectionId, timeLeft: bool)  // the name is resolved; there may be no time left to connect
    | WaitLost(id: ConnectionId)                  // error, timeout or disconnect ends the current wait
    | Caught(id: ConnectionId)
    | TcpConnected(id: ConnectionId)
    | TcpFailed(id: ConnectionId)
    | Continue(id: ConnectionId, usable: bool, upgrade: Upgrade)
    | RelayEvent(id: ConnectionId)                // anything that calls the relay's `finish`

  // ---------------------------------------------------------------- reference steps

  function Set(w: World, id: ConnectionId, c: Connection): World { w.(connections := w.connections[id := c]) }

  /** `releasePending`. */
  function ReleasePending(w: World, id: ConnectionId): World
    requires id in w.connections
  {
    var c := w.connections[id];
    if !c.pending then w
    else Set(w, id, c.(pending := false, returned := c.returned + 1)).(reserved := w.reserved - 1)
  }

  /** Gives up a pending connection and destroys its socket. */
  function GiveUp(w: World, id: ConnectionId): World
    requires id in w.connections
  {
    var r := ReleasePending(w, id);
    Set(r, id, r.connections[id].(phase := Over, tcp := Destroyed))
  }

  /** The accept callback. */
  function Accept(w: World, id: ConnectionId, clientGone: bool): World
    requires id in w.connections
  {
    var c := w.connections[id];
    if !c.pending || c.disconnected || clientGone then GiveUp(w, id)
    else Set(w, id, c.(pending := false, phase := Relaying)).(active := w.active + {id})
  }

  function Step(w: World, maximum: nat, e: Event): World {
    match e
    case Request(id) =>
      if id in w.connections || w.reserved >= maximum then w
      else Set(w, id, Connection(Resolving, true, false, false, NoSocket, 0)).(reserved := w.reserved + 1)
    case ClientGone(id) =>
      if id !in w.connections || !w.connections[id].pending then w
      else Set(w, id, w.connections[id].(disconnected := true))
    case Resolved(id, timeLeft) =>
      if id !in w.connections || !w.connections[id].phase.Resolving? then w
      else Set(w, id, if timeLeft then w.connections[id].(phase := Connecting, tcp := InFlight) else w.connections[id].(phase := Failing))
    case WaitLost(id) =>
      if id !in w.connections || !(w.connections[id].phase.Resolving? || w.connections[id].phase.Connecting?) then w
      else Set(w, id, w.connections[id].(phase := Failing))
    case Caught(id) =>
      if id !in w.connections || !w.connections[id].phase.Failing? then w
      else
        var r := ReleasePending(w, id);
        var c := r.connections[id];
        Set(r, id, c.(phase := Over, tcp := if c.tcp.Open? then Destroyed else c.tcp))
    case TcpConnected(id) =>
      if id !in w.connections || !w.connections[id].tcp.InFlight? then w
      else
        var c := w.connections[id];
        Set(w, id, if c.phase.Connecting? then c.(phase := Connected, tcp := Open)
                   else c.(tcp := if c.phase.Over? then Destroyed else Open))
    case TcpFailed(id) =>
      if id !in w.connections || !w.connections[id].tcp.InFlight? then w
      else
        var c := w.connections[id];
        Set(w, id, if c.phase.Connecting? then c.(phase := Failing, tcp := NoSocket) else c.(tcp := NoSocket))
    case Continue(id, usable, upgrade) =>
      if id !in w.connections || !w.connections[id].phase.Connected? then w
      else if w.connections[id].disconnected || !usable || upgrade.NoCallback? || upgrade.ThrowsFirst? then GiveUp(w, id)
      else
        var r := Accept(w, id, upgrade.clientGone);
        if upgrade.ThrowsAfter? then
          var q := ReleasePending(r, id);
          Set(q, id, q.connections[id].(tcp := Destroyed))
        else r
    case RelayEvent(id) =>
      if id !in w.connections || w.connections[id].finished || id !in w.active then w
      else
        var c := w.connections[id];
        Set(w, id, c.(phase := Over, finished := true, tcp := Destroyed, returned := c.returned + 1))
          .(active := w.active - {id}, reserved := w.reserved - 1)
  }

  // ---------------------------------------------------------------- the connector

  class Connector {
    const maxConnections: nat
    var reservedConnections: int
    var active: set<ConnectionId>
    var connections: map<ConnectionId, Connection>

    ghost function Abstract(): World
      reads this
    {
      World(reservedConnections, active, connections)
    }

    constructor (maxConnections: nat)
      ensures Abstract() == START && this.maxConnections == maxConnections
    {
      this.maxConnections := maxConnections;
      reservedConnections, active, connections := 0, {}, map[];
    }

    method Release(id: ConnectionId)
      requires id in connections
      modifies this
      ensures Abstract() == ReleasePending(old(Abstract()), id)
    {
      var c := connections[id];
      if !c.pending { return; }
      connections := connections[id := c.(pending := false, returned := c.returned + 1)];
      reservedConnections := reservedConnections - 1;
    }

    method Abandon(id: ConnectionId)
      requires id in connections
      modifies this
      ensures Abstract() == GiveUp(old(Abstract()), id)
    {
      Release(id);
      connections := connections[id := connections[id].(phase := Over, tcp := Destroyed)];
    }

    method OnAccept(id: ConnectionId, clientGone: bool)
      requires id in connections
      modifies this
      ensures Abstract() == Accept(old(Abstract()), id, clientGone)
    {
      var c := connections[id];
      if !c.pending || c.disconnected || clientGone {
        Abandon(id);
        return;
      }
      connections := connections[id := c.(pending := false, phase := Relaying)];
      active := active + {id};
    }

    method HandleUpgrade(id: ConnectionId) returns (admitted: bool)
      requires id !in connections
      modifies this
      ensures Abstract() == Step(old(Abstract()), maxConnections, Request(id))
      ensures admitted <==> old(reservedConnections) < maxConnections
    {
      if reservedConnections >= maxConnections { return false; }
      reservedConnections := reservedConnections + 1;
      connections := connections[id := Connection(Resolving, true, false, false, NoSocket, 0)];
      return true;
    }

    method OnPendingDisconnect(id: ConnectionId)
      modifies this
      ensures Abstract() == Step(old(Abstract()), maxConnections, ClientGone(id))
    {
      if id in connections && connections[id].pending {
        connections := connections[id := connections[id].(disconnected := true)];
      }
    }

    method OnResolved(id: ConnectionId, timeLeft: bool)
      requires id in connections && connections[id].phase.Resolving?
      modifies this
      ensures Abstract() == Step(old(Abstract()), maxConnections, Resolved(id, timeLeft))
    {
      var c := connections[id];
      connections := connections[id := if timeLeft then c.(phase := Connecting, tcp := InFlight) else c.(phase := Failing)];
    }

    method OnCaught(id: ConnectionId)
      requires id in connections && connections[id].phase.Failing?
      modifies this
      ensures Abstract() == Step(old(Abstract()), maxConnections, Caught(id))
    {
      Release(id);
      var c := connections[id];
      connections := connections[id := c.(phase := Over, tcp := if c.tcp.Open? then Destroyed else c.tcp)];
    }

    /** The code after the awaits, up to the relay. */
    method OnConnected(id: ConnectionId, usable: bool, upgrade: Upgrade)
      requires id in connections && connections[id].phase.Connected?
      modifies this
      ensures Abstract() == Step(old(Abstract()), maxConnections, Continue(id, usable, upgrade))
    {
      if connections[id].disconnected || !usable {
        Abandon(id);
        return;
      }
      match upgrade
      case NoCallback => Abandon(id);
      case ThrowsFirst => Abandon(id);
      case CallsBack(clientGone) => OnAccept(id, clientGone);
      case ThrowsAfter(clientGone) =>
        OnAccept(id, clientGone);
        Release(id);
        connections := connections[id := connections[id].(tcp := Destroyed)];
    }

    /** The relay's `finish`. */
    method Finish(id: ConnectionId)
      requires id in connections && (connections[id].finished || id in active)
      modifies this
      ensures Abstract() == Step(old(Abstract()), maxConnections, RelayEvent(id))
    {
      var c := connections[id];
      if c.finished { return; }
      connections := connections[id := c.(phase := Over, finished := true, tcp := Destroyed, returned := c.returned + 1)];
      active := active - {id};
      reservedConnections := reservedConnections - 1;
    }
  }

  // ---------------------------------------------------------------- conservation

  /** The connection holds a reservation: it is pending or relayed. */
  predicate Holds(c: Connection) { c.pending || c.phase.Relaying? }

  function Holders(w: World): set<ConnectionId> { set id | id in w.connections && Holds(w.connections[id]) }
  function Relays(w: World): set<ConnectionId> { set id | id in w.connections && w.connections[id].phase.Relaying? }
  function Pending(w: World): set<ConnectionId> { set id | id in w.connections && w.connections[id].pending }

  /** Reservations are returned exactly once, and an open socket has an owner that will destroy it. */
  predicate Orderly(c: Connection) {
    && (c.pending <==> c.phase in {Resolving, Connecting, Failing, Connected})
    && c.returned == (if Holds(c) then 0 else 1)
    && (c.finished ==> c.phase.Over?)
    && (c.tcp.Open? ==> c.phase in {Connected, Failing, Relaying})
    && (c.phase.Resolving? ==> c.tcp.NoSocket?) && (c.phase.Connecting? ==> c.tcp.InFlight?)
    && (c.phase.Connected? ==> c.tcp.Open?) && (c.phase.Relaying? ==> c.tcp.Open? || c.tcp.Destroyed?)
  }

  ghost predicate Conserved(w: World, maximum: nat) {
    && w.reserved == |Holders(w)| <= maximum
    && w.active == Relays(w)
    && forall id :: id in w.connections ==> Orderly(w.connections[id])
  }

  /** Changing one connection changes the holders by at most that connection. */
  lemma HoldersAfter(w: World, id: ConnectionId, c: Connection)
    ensures var before, after := Holders(w), Holders(Set(w, id, c));
            && after == (if Holds(c) then before + {id} else before - {id})
            && |after| == |before| + (if Holds(c) && id !in before then 1 else 0) - (if !Holds(c) && id in before then 1 else 0)
  {
    var before := Holders(w);
    assert Holders(Set(w, id, c)) == if Holds(c) then before + {id} else before - {id};
    if Holds(c) && id in before { assert before + {id} == before; }
    if !Holds(c) && id !in before { assert before - {id} == before; }
  }

  lemma RelaysAfter(w: World, id: ConnectionId, c: Connection)
    ensures Relays(Set(w, id, c)) == if c.phase.Relaying? then Relays(w) + {id} else Relays(w) - {id}
  {
  }

  lemma SameConnections(v: World, w: World)
    requires v.connections == w.connections
    ensures Holders(v) == Holders(w) && Relays(v) == Relays(w)
  {
  }

  lemma HeldIsHolder(w: World, id: ConnectionId)
    ensures id in Holders(w) <==> HeldBy(w, id)
  {
  }

  predicate HeldBy(w: World, id: ConnectionId) { id in w.connections && Holds(w.connections[id]) }

  /** The world with one connection changed and the books kept. */
  function Booked(w: World, id: ConnectionId, c: Connection): World {
    World(w.reserved + (if Holds(c) && !HeldBy(w, id) then 1 else 0) - (if !Holds(c) && HeldBy(w, id) then 1 else 0),
          if c.phase.Relaying? then w.active + {id} else w.active - {id},
          w.connections[id := c])
  }

  lemma BookedConserves(w: World, maximum: nat, id: ConnectionId, c: Connection)
    requires Conserved(w, maximum) && Orderly(c) && (Holds(c) && !HeldBy(w, id) ==> w.reserved < maximum)
    ensures Conserved(Booked(w, id, c), maximum)
  {
    hide Orderly, Holds, Holders, Relays;
    HoldersAfter(w, id, c);
    RelaysAfter(w, id, c);
    var b := Booked(w, id, c);
    SameConnections(b, Set(w, id, c));
    HeldIsHolder(w, id);
  }

  /** Every step that changes anything keeps the books for the connection it is about. */
  lemma StepIsBooked(w: World, maximum: nat, e: Event)
    requires Step(w, maximum, e) != w
    requires e.id in w.connections ==> Orderly(w.connections[e.id])
    requires e.id in w.active <==> e.id in w.connections && w.connections[e.id].phase.Relaying?
    ensures e.id in Step(w, maximum, e).connections
    ensures var c := Step(w, maximum, e).connections[e.id];
            Step(w, maximum, e) == Booked(w, e.id, c) && Orderly(c) && (Holds(c) && !HeldBy(w, e.id) ==> w.reserved < maximum)
  {
    var w' := Step(w, maximum, e);
    var c := w'.connections[e.id];
    assert w'.connections == w.connections[e.id := c];
    assert c.phase.Relaying? && e.id in w.active ==> w.active + {e.id} == w.active;
    assert !c.phase.Relaying? && e.id !in w.active ==> w.active - {e.id} == w.active;
    if e.Continue? && !w.connections[e.id].disconnected && e.usable { ContinueIsBooked(w, maximum, e); }
  }

  lemma ContinueIsBooked(w: World, maximum: nat, e: Event)
    requires e.Continue? && e.id in w.connections && w.connections[e.id].phase.Connected? && Orderly(w.connections[e.id]) && e.id !in w.active
    ensures var c := Step(w, maximum, e).connections[e.id];
            Step(w, maximum, e) == Booked(w, e.id, c) && Orderly(c) && HeldBy(w, e.id)
  {
    var w' := Step(w, maximum, e);
    var c := w'.connections[e.id];
    assert w'.connections == w.connections[e.id := c];
    assert w.active - {e.id} == w.active;
  }

  lemma StepConserves(w: World, maximum: nat, e: Event)
    requires Conserved(w, maximum)
    ensures Conserved(Step(w, maximum, e), maximum)
  {
    hide Step, Orderly, Holders, Booked;
    if Step(w, maximum, e) != w {
      StepIsBooked(w, maximum, e);
      BookedConserves(w, maximum, e.id, Step(w, maximum, e).connections[e.id]);
    }
  }

  function After(maximum: nat, events: seq<Event>): World {
    if events == [] then START else Step(After(maximum, events[..|events| - 1]), maximum, events[|events| - 1])
  }

  /** Over every interleaving the counter is the number of pending plus relayed connections, within the
      limit; each admitted connection gives its reservation back once; an open socket belongs to a
      relay or to a continuation that has not run yet. */
  lemma {:induction false} AdmissionConserved(maximum: nat, events: seq<Event>)
    ensures Conserved(After(maximum, events), maximum)
    ensures var w := After(maximum, events); w.reserved == |Pending(w)| + |w.active|
  {
    if events == [] {
      assert Holders(START) == {};
    } else {
      AdmissionConserved(maximum, events[..|events| - 1]);
      StepConserves(After(maximum, events[..|events| - 1]), maximum, events[|events| - 1]);
    }
    var w := After(maximum, events);
    assert Holders(w) == Pending(w) + w.active && Pending(w) !! w.active;
  }

  /** No continuation is waiting to run and no wait is under way. */
  predicate Quiet(w: World) {
    forall id :: id in w.connections ==> w.connections[id].phase in {Relaying, Over}
  }

  /** Then every socket ever produced is owned by its relay or destroyed, and only relays count. */
  lemma NoSocketLeaks(maximum: nat, events: seq<Event>)
    requires Quiet(After(maximum, events))
    ensures var w := After(maximum, events);
            w.reserved == |w.active| && forall id :: id in w.connections && w.connections[id].tcp.Open? ==> id in w.active
  {
    AdmissionConserved(maximum, events);
    var w := After(maximum, events);
    forall id | id in w.connections ensures !w.connections[id].pending { assert Orderly(w.connections[id]); }
    assert Pending(w) == {};
  }

  /** What happened to a connection once it is over stays: nothing reopens it or takes its reservation
      again, and a socket that connects late is destroyed. */
  lemma OverIsFinal(maximum: nat, w: World, e: Event, id: ConnectionId)
    requires Conserved(w, maximum) && id in w.connections && w.connections[id].phase.Over?
    ensures var w' := Step(w, maximum, e);
            id in w'.connections && w'.connections[id].phase.Over? && w'.connections[id].returned == 1 && !w'.connections[id].tcp.Open?
  {
    hide Step;
    StepConserves(w, maximum, e);
    OverStays(maximum, w, e, id);
    assert Orderly(Step(w, maximum, e).connections[id]);
  }

  lemma OverStays(maximum: nat, w: World, e: Event, id: ConnectionId)
    requires id in w.connections && w.connections[id].phase.Over?
    ensures id in Step(w, maximum, e).connections && Step(w, maximum, e).connections[id].phase.Over?
  {
  }
}
