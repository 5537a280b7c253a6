/** Trust on first use of SSH host keys (apps/worker/src/ssh/ssh2-engine.ts and the repository in
  apps/worker/src/durable/ssh-session.ts), for one profile, host and port. */
module HostKeyPin {
  import opened Common

  type Fingerprint = string
  type SessionId = nat

  /** How a session came to accept the key: the stored pin, the profile's expected fingerprint, the user
      for once, or the user with "trust and save". */
  datatype Trust = StoredPin | ProfileExpectation | OnceOnly | TrustAndSave

  datatype Phase =
    | Reading                  // the stored key is being read
    | Asking                   // the user is being asked
    | Inserting                // "trust and save": the insert has not run yet
    | Rereading                // the insert has run, the stored key is being read again
    | Verified(trust: Trust)
    | Refused

  datatype Session = Session(presented: Fingerprint, expected: Option<Fingerprint>, phase: Phase)

  // ---------------------------------------------------------------- one session

  /** The stored key has been read. */
  function OnStored(s: Session, stored: Option<Fingerprint>): Phase {
    if stored.Some? then if stored.value == s.presented then Verified(StoredPin) else Refused
    else if s.expected.Some? then if s.expected.value == s.presented then Verified(ProfileExpectation) else Refused
    else Asking
  }

  function OnDecision(accept: bool, remember: bool): Phase {
    if !accept then Refused else if !remember then Verified(OnceOnly) else Inserting
  }

  /** The stored key has been read again after the insert. */
  function OnPinned(s: Session, pinned: Option<Fingerprint>): Phase {
    if pinned.Some? && pinned.value == s.presented then Verified(TrustAndSave) else Refused
  }

  /** One engine while it verifies the key of its server. */
  class HostKeyVerifier {
    const presented: Fingerprint
    const expected: Option<Fingerprint>
    var phase: Phase
    var pendingHostKey: Option<Fingerprint>
    var closed: bool

    ghost function Abstract(): Session
      reads this
    {
      Session(presented, expected, phase)
    }

    /** A decision is awaited exactly while the user is asked, for the presented key. */
    ghost predicate Valid()
      reads this
    {
      pendingHostKey == if phase.Asking? then Some(presented) else None
    }

    constructor (presented: Fingerprint, expected: Option<Fingerprint>)
      ensures Valid() && Abstract() == Session(presented, expected, Reading) && !closed
    {
      this.presented, this.expected := presented, expected;
      phase, pendingHostKey, closed := Reading, None, false;
    }

    method KeyRead(stored: Option<Fingerprint>)
      requires Valid() && phase.Reading?
      modifies this
      ensures Valid() && Abstract() == old(Abstract()).(phase := OnStored(old(Abstract()), stored))
    {
      var known := if stored.Some? then stored else expected;
      if known.Some? {
        phase := if known.value == presented then Verified(if stored.Some? then StoredPin else ProfileExpectation) else Refused;
        return;
      }
      phase, pendingHostKey := Asking, Some(presented);
    }

    /** A decision for any other fingerprint, or when none is awaited, is an error and changes nothing. */
    method DecideHostKey(fingerprint: Fingerprint, accept: bool, remember: bool) returns (ok: bool)
      requires Valid()
      modifies this
      ensures Valid() && ok == (old(phase).Asking? && fingerprint == presented)
      ensures Abstract() == if ok then old(Abstract()).(phase := OnDecision(accept, remember)) else old(Abstract())
    {
      if pendingHostKey.None? || fingerprint != pendingHostKey.value { return false; }
      pendingHostKey := None;
      phase := OnDecision(accept, remember);
      return true;
    }

    method ConfirmationTimedOut()
      requires Valid() && phase.Asking?
      modifies this
      ensures Valid() && Abstract() == old(Abstract()).(phase := Refused)
    {
      if pendingHostKey == Some(presented) { pendingHostKey := None; }
      phase := Refused;
    }

    method PinRead(pinned: Option<Fingerprint>)
      requires Valid() && phase.Rereading?
      modifies this
      ensures Valid() && Abstract() == old(Abstract()).(phase := OnPinned(old(Abstract()), pinned))
    {
      phase := if pinned.None? then Refused else if pinned.value == presented then Verified(TrustAndSave) else Refused;
    }

    method Close()
      requires Valid()
      modifies this
      ensures Valid() && closed
      ensures Abstract() == if old(phase).Asking? then old(Abstract()).(phase := Refused) else old(Abstract())
    {
      closed := true;
      if pendingHostKey.Some? {
        pendingHostKey := None;
        phase := Refused;
      }
    }
  }

  // ---------------------------------------------------------------- all sessions and the stored key

  /** The row of the known_hosts table, how often a fingerprint was written to it, and the sessions. */
  datatype World = World(row: Option<Fingerprint>, writes: nat, sessions: map<SessionId, Session>)

  datatype Event =
    | Arrives(id: SessionId, presented: Fingerprint, expected: Option<Fingerprint>)
    | Reads(id: SessionId)
    | Decides(id: SessionId, accept: bool, remember: bool)
    | Inserts(id: SessionId, profileExists: bool)
    | Rereads(id: SessionId, profileUpdated: bool)
    | Breaks(id: SessionId, executed: bool)   // timeout, close, or a failed statement that may have run

  /** `INSERT ... ON CONFLICT DO UPDATE SET last_seen_at`: never overwrites a fingerprint. */
  function InsertIfAbsent(w: World, fingerprint: Fingerprint): World {
    if w.row.None? then w.(row := Some(fingerprint), writes := w.writes + 1) else w
  }

  function SetPhase(w: World, id: SessionId, phase: Phase): World
    requires id in w.sessions
  {
    w.(sessions := w.sessions[id := w.sessions[id].(phase := phase)])
  }

  function Step(w: World, e: Event): World {
    if e.Arrives? then
      if e.id in w.sessions then w else w.(sessions := w.sessions[e.id := Session(e.presented, e.expected, Reading)])
    else if e.id !in w.sessions then w
    else
      var s := w.sessions[e.id];
      if e.Reads? && s.phase.Reading? then SetPhase(w, e.id, OnStored(s, w.row))
      else if e.Decides? && s.phase.Asking? then SetPhase(w, e.id, OnDecision(e.accept, e.remember))
      else if e.Inserts? && s.phase.Inserting? then
        SetPhase(if e.profileExists then InsertIfAbsent(w, s.presented) else w, e.id, Rereading)
      else if e.Rereads? && s.phase.Rereading? then
        // the statement that records the fingerprint in the profile may fail after a match
        SetPhase(w, e.id, if e.profileUpdated then OnPinned(s, w.row) else Refused)
      else if e.Breaks? && !s.phase.Verified? then
        SetPhase(if e.executed && s.phase.Inserting? then InsertIfAbsent(w, s.presented) else w, e.id, Refused)
      else w
  }

  function After(events: seq<Event>): World {
    if events == [] then World(None, 0, map[]) else Step(After(events[..|events| - 1]), events[|events| - 1])
  }

  /** Verified through the stored key, directly or by saving it. */
  predicate ThroughPin(s: Session) { s.phase.Verified? && s.phase.trust in {StoredPin, TrustAndSave} }

  ghost predicate Agreed(w: World) {
    && w.writes == (if w.row.Some? then 1 else 0)
    && forall id :: id in w.sessions && ThroughPin(w.sessions[id]) ==> w.row == Some(w.sessions[id].presented)
  }

  /** A step never changes a stored fingerprint. */
  lemma StepAgrees(w: World, e: Event)
    requires Agreed(w)
    ensures Agreed(Step(w, e)) && (w.row.Some? ==> Step(w, e).row == w.row)
  {
  }

  /** However sessions interleave their reads, decisions, inserts and re-reads, the fingerprint is written
      at most once, and every session that verifies through a stored pin or "trust and save" verified
      that same fingerprint. */
  lemma {:induction false} PinAgreement(events: seq<Event>)
    ensures Agreed(After(events))
  {
    if events != [] {
      PinAgreement(events[..|events| - 1]);
      StepAgrees(After(events[..|events| - 1]), events[|events| - 1]);
    }
  }

  lemma {:induction false} RowStays(events: seq<Event>, n: nat)
    requires n <= |events| && After(events[..n]).row.Some?
    ensures After(events).row == After(events[..n]).row
  {
    if n < |events| {
      var before := events[..|events| - 1];
      assert before[..n] == events[..n];
      RowStays(before, n);
      PinAgreement(before);
      StepAgrees(After(before), events[|events| - 1]);
    } else {
      assert events[..n] == events;
    }
  }

  /** Two sessions that verify through the pin, at whatever moments of a run, verified the same key. */
  lemma SessionsAgree(events: seq<Event>, m: nat, a: SessionId, n: nat, b: SessionId)
    requires m <= |events| && n <= |events|
    requires a in After(events[..m]).sessions && ThroughPin(After(events[..m]).sessions[a])
    requires b in After(events[..n]).sessions && ThroughPin(After(events[..n]).sessions[b])
    ensures After(events[..m]).sessions[a].presented == After(events[..n]).sessions[b].presented
  {
    PinAgreement(events[..m]);
    PinAgreement(events[..n]);
    RowStays(events, m);
    RowStays(events, n);
  }
}
