/** Why a host key is accepted: every verdict of HostKeyPin traced back to what was read or decided. */
module HostKeyVerdicts {
  import opened Common
  import opened HostKeyPin

  // ---------------------------------------------------------------- the outcome of each step

  /** Reading the stored key: a stored pin decides, else the profile's fingerprint, else the user is asked. */
  lemma ReadOutcome(w: World, id: SessionId)
    requires id in w.sessions && w.sessions[id].phase.Reading?
    ensures var s, p := w.sessions[id], Step(w, Reads(id)).sessions[id].phase;
            && (p == Verified(StoredPin) <==> w.row == Some(s.presented))
            && (p == Verified(ProfileExpectation) <==> w.row == None && s.expected == Some(s.presented))
            && (p == Asking <==> w.row == None && s.expected == None)
            && (p == Refused <==> w.row.GetOr(s.expected.GetOr(s.presented)) != s.presented)
  {
  }

  /** The user's decision: only an acceptance goes on, and only one to be remembered is stored. */
  lemma DecisionOutcome(w: World, id: SessionId, accept: bool, remember: bool)
    requires id in w.sessions && w.sessions[id].phase.Asking?
    ensures var p := Step(w, Decides(id, accept, remember)).sessions[id].phase;
            && (p == Refused <==> !accept)
            && (p == Verified(OnceOnly) <==> accept && !remember)
            && (p == Inserting <==> accept && remember)
    ensures Step(w, Decides(id, accept, remember)).row == w.row
  {
  }

  /** "Trust and save" stores the presented key where none is stored, and then goes by what is stored. */
  lemma SaveOutcome(w: World, id: SessionId, profileExists: bool)
    requires id in w.sessions && w.sessions[id].phase.Inserting?
    ensures var s, x := w.sessions[id], Step(w, Inserts(id, profileExists));
            && x.sessions[id].phase == Rereading
            && x.row == (if w.row == None && profileExists then Some(s.presented) else w.row)
            && var y := Step(x, Rereads(id, true));
               y.sessions[id].phase == if x.row == Some(s.presented) then Verified(TrustAndSave) else Refused
  {
  }

  /** A time-out, a close or a failed statement refuses whatever was not verified yet. */
  lemma BreakOutcome(w: World, id: SessionId, executed: bool)
    requires id in w.sessions && !w.sessions[id].phase.Verified?
    ensures Step(w, Breaks(id, executed)).sessions[id].phase == Refused
  {
  }

  /** A verdict is final: nothing verifies a refused key or refuses a verified one. */
  lemma VerdictStays(w: World, e: Event, id: SessionId)
    requires id in w.sessions && (w.sessions[id].phase.Refused? || w.sessions[id].phase.Verified?)
    ensures id in Step(w, e).sessions && Step(w, e).sessions[id] == w.sessions[id]
  {
  }

  lemma {:induction false} VerdictForEver(events: seq<Event>, n: nat, id: SessionId)
    requires n <= |events| && id in After(events[..n]).sessions
    requires var p := After(events[..n]).sessions[id].phase; p.Refused? || p.Verified?
    ensures id in After(events).sessions && After(events).sessions[id] == After(events[..n]).sessions[id]
  {
    if n < |events| {
      var before := events[..|events| - 1];
      assert before[..n] == events[..n];
      VerdictForEver(before, n, id);
      VerdictStays(After(before), events[|events| - 1], id);
    } else {
      assert events[..n] == events;
    }
  }

  // ---------------------------------------------------------------- justification over runs

  ghost predicate InPhase(events: seq<Event>, k: nat, id: SessionId, phase: Phase)
    requires k <= |events|
  {
    id in After(events[..k]).sessions && After(events[..k]).sessions[id].phase == phase
  }

  /** Event k read this row for the session. */
  ghost predicate ReadAs(events: seq<Event>, k: nat, id: SessionId, row: Option<Fingerprint>) {
    k < |events| && events[k] == Reads(id) && InPhase(events, k, id, Reading) && After(events[..k]).row == row
  }

  /** Event k is the user's acceptance while the session asked for it. */
  ghost predicate AcceptedAs(events: seq<Event>, k: nat, id: SessionId, remember: bool) {
    k < |events| && events[k] == Decides(id, true, remember) && InPhase(events, k, id, Asking)
  }

  /** Event k read this row again for a session that had saved its key. */
  ghost predicate RereadAs(events: seq<Event>, k: nat, id: SessionId, row: Option<Fingerprint>) {
    k < |events| && events[k] == Rereads(id, true) && InPhase(events, k, id, Rereading) && After(events[..k]).row == row
  }

  /** The session was asked: no key was stored and none was expected. */
  ghost predicate Asked(events: seq<Event>, id: SessionId, s: Session) {
    s.expected == None && exists k: nat :: ReadAs(events, k, id, None)
  }

  /** What must have happened for the session to be where it is. */
  ghost predicate Justified(events: seq<Event>, id: SessionId, s: Session) {
    match s.phase
    case Asking => Asked(events, id, s)
    case Inserting => Asked(events, id, s) && exists k: nat :: AcceptedAs(events, k, id, true)
    case Rereading => Asked(events, id, s) && exists k: nat :: AcceptedAs(events, k, id, true)
    case Verified(trust) =>
      if trust == StoredPin then exists k: nat :: ReadAs(events, k, id, Some(s.presented))
      else if trust == ProfileExpectation then
        s.expected == Some(s.presented) && exists k: nat :: ReadAs(events, k, id, None)
      else if trust == OnceOnly then Asked(events, id, s) && exists k: nat :: AcceptedAs(events, k, id, false)
      else
        && Asked(events, id, s) && (exists k: nat :: AcceptedAs(events, k, id, true))
        && exists k: nat :: RereadAs(events, k, id, Some(s.presented))
    case _ => true
  }

  lemma HistoryGrows(before: seq<Event>, e: Event, id: SessionId)
    ensures forall k: nat, row :: ReadAs(before, k, id, row) ==> ReadAs(before + [e], k, id, row)
    ensures forall k: nat, remember :: AcceptedAs(before, k, id, remember) ==> AcceptedAs(before + [e], k, id, remember)
    ensures forall k: nat, row :: RereadAs(before, k, id, row) ==> RereadAs(before + [e], k, id, row)
  {
    var events := before + [e];
    forall k: nat | k <= |before| ensures events[..k] == before[..k] {}
    forall k: nat | k < |before| ensures events[k] == before[k] {}
    hide After;
  }

  lemma JustifiedStays(before: seq<Event>, e: Event, id: SessionId, s: Session)
    requires Justified(before, id, s)
    ensures Justified(before + [e], id, s)
  {
    HistoryGrows(before, e, id);
    hide ReadAs, AcceptedAs, RereadAs;
    if k: nat :| ReadAs(before, k, id, None) { assert ReadAs(before + [e], k, id, None); }
    if k: nat :| ReadAs(before, k, id, Some(s.presented)) { assert ReadAs(before + [e], k, id, Some(s.presented)); }
    if k: nat :| AcceptedAs(before, k, id, true) { assert AcceptedAs(before + [e], k, id, true); }
    if k: nat :| AcceptedAs(before, k, id, false) { assert AcceptedAs(before + [e], k, id, false); }
    if k: nat :| RereadAs(before, k, id, Some(s.presented)) { assert RereadAs(before + [e], k, id, Some(s.presented)); }
  }

  /** The moment of the last event, seen from the run that ends with it. */
  lemma LastMoment(before: seq<Event>, e: Event, id: SessionId, phase: Phase)
    ensures (before + [e])[|before|] == e && After((before + [e])[..|before|]) == After(before)
    ensures InPhase(before + [e], |before|, id, phase) <==> id in After(before).sessions && After(before).sessions[id].phase == phase
  {
    assert (before + [e])[..|before|] == before;
    hide After;
  }

  lemma ReadJustified(before: seq<Event>, id: SessionId, s: Session, row: Option<Fingerprint>)
    requires id in After(before).sessions && After(before).sessions[id] == s && After(before).row == row && s.phase == Reading
    ensures Justified(before + [Reads(id)], id, s.(phase := OnStored(s, row)))
  {
    hide After, InPhase;
    LastMoment(before, Reads(id), id, Reading);
    assert ReadAs(before + [Reads(id)], |before|, id, row);
  }

  lemma DecisionJustified(before: seq<Event>, id: SessionId, s: Session, accept: bool, remember: bool)
    requires id in After(before).sessions && After(before).sessions[id] == s && s.phase == Asking && Justified(before, id, s)
    ensures Justified(before + [Decides(id, accept, remember)], id, s.(phase := OnDecision(accept, remember)))
  {
    hide After, InPhase, ReadAs;
    var e := Decides(id, accept, remember);
    LastMoment(before, e, id, Asking);
    JustifiedStays(before, e, id, s);
    if accept { assert AcceptedAs(before + [e], |before|, id, remember); }
  }

  lemma RereadJustified(before: seq<Event>, id: SessionId, s: Session, row: Option<Fingerprint>)
    requires id in After(before).sessions && After(before).sessions[id] == s && After(before).row == row
    requires s.phase == Rereading && Justified(before, id, s)
    ensures Justified(before + [Rereads(id, true)], id, s.(phase := OnPinned(s, row)))
  {
    hide After, InPhase, ReadAs, AcceptedAs;
    LastMoment(before, Rereads(id, true), id, Rereading);
    JustifiedStays(before, Rereads(id, true), id, s);
    assert RereadAs(before + [Rereads(id, true)], |before|, id, row);
  }

  /** The step that the session itself takes. */
  lemma OwnStepJustified(before: seq<Event>, e: Event, id: SessionId)
    requires e.id == id && id in After(before).sessions && Justified(before, id, After(before).sessions[id])
    ensures Justified(before + [e], id, Step(After(before), e).sessions[id])
  {
    var w := After(before);
    var s := w.sessions[id];
    hide After, OnStored, OnDecision, OnPinned, ReadAs, AcceptedAs, RereadAs;
    JustifiedStays(before, e, id, s);
    if e.Reads? && s.phase.Reading? {
      ReadJustified(before, id, s, w.row);
    } else if e.Decides? && s.phase.Asking? {
      DecisionJustified(before, id, s, e.accept, e.remember);
    } else if e.Rereads? && e.profileUpdated && s.phase.Rereading? {
      RereadJustified(before, id, s, w.row);
    }
  }

  /** In every run a session is verified only if the stored key it read is the presented one, or none was
      stored and the profile expects it, or none was stored or expected and the user accepted it when
      asked (and, for "trust and save", it is what was read back). */
  lemma {:induction false} VerifiedIsJustified(events: seq<Event>, id: SessionId)
    requires id in After(events).sessions
    ensures Justified(events, id, After(events).sessions[id])
  {
    if events != [] {
      var before, e := events[..|events| - 1], events[|events| - 1];
      assert events == before + [e];
      assert After(events) == Step(After(before), e);
      hide Justified, After;
      if id in After(before).sessions {
        VerifiedIsJustified(before, id);
        if e.id == id {
          OwnStepJustified(before, e, id);
        } else {
          JustifiedStays(before, e, id, After(before).sessions[id]);
        }
      } else {
        Newcomer(events, id, After(events).sessions[id]);
      }
    }
  }

  lemma Newcomer(events: seq<Event>, id: SessionId, s: Session)
    requires s.phase == Reading
    ensures Justified(events, id, s)
  {
  }

  /** A rejected, timed-out or mismatching key never gets verified later in the run. */
  lemma RefusedNeverVerified(events: seq<Event>, n: nat, id: SessionId)
    requires n <= |events| && id in After(events[..n]).sessions && After(events[..n]).sessions[id].phase.Refused?
    ensures id in After(events).sessions && After(events).sessions[id].phase == Refused
  {
    VerdictForEver(events, n, id);
  }
}
