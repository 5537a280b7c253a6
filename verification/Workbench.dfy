/** The reducer of the workbench's tabs and panes (apps/web/src/lib/workbench-sessions.ts). */
module Workbench {
  import opened Common

  /** Session identifiers are never empty. */
  type Id = s: string | s != "" witness "s"

  const MAX_EVENTS := 200

  datatype Attention = Calm | Activity | Action | Alarm
  datatype Layout = Single | Split
  datatype WorkTab = Files | History | Log
  datatype SessionState =
    Idle | Authorizing | TcpConnecting | SshHandshake | HostConfirmation | Authenticating | Connected | ClosedState | ErrorState
  datatype Profile = Profile(id: string, name: string)
  datatype LogEntry = LogEntry(id: string, occurredAt: string, isError: bool, message: string)

  datatype Session = Session(
    id: Id, profile: Profile, attemptId: string, connectRequested: bool, state: SessionState, channel: Option<string>,
    metrics: Option<string>, events: seq<LogEntry>, workTab: WorkTab, attention: Attention, closing: bool)

  /** Pane 0 and pane 1. */
  datatype Panes = Panes(first: Option<Id>, second: Option<Id>) {
    function At(pane: nat): Option<Id> { if pane == 0 then first else second }
    function With(pane: nat, id: Option<Id>): Panes { if pane == 0 then this.(first := id) else this.(second := id) }
  }

  datatype State = State(sessions: map<Id, Session>, order: seq<Id>, activeId: Option<Id>, layout: Layout, panes: Panes, focusedPane: nat)

  const INITIAL := State(map[], [], None, Single, Panes(None, None), 0)

  datatype Message =
    | Status(occurredAt: string, message: string) | Error(message: string) | HostKey | Output | Metrics(sample: string) | Other

  datatype Event =
    | Open(session: Session)
    | Select(id: Id)
    | FocusPane(pane: nat)
    | ToggleSplit
    | Reconnect(id: Id, attemptId: string, profile: Option<Profile>, connectRequested: Option<bool>)
    | Pause(id: Id, attemptId: string, paused: Option<SessionState>)
    | SetState(id: Id, attemptId: string, state: SessionState)
    | SetChannel(id: Id, attemptId: string, channel: Option<string>)
    | Receive(id: Id, attemptId: string, message: Message, receivedAt: string, entryId: string)
    | SetWorkTab(id: Id, tab: WorkTab)
    | Attend(id: Id, attention: Attention)
    | SetClosing(id: Id, closing: bool)
    | Remove(id: Id)
    | Clear

  // ---------------------------------------------------------------- the helpers

  /** The first id of the order that is not excluded. */
  function NextAvailable(order: seq<Id>, excluded: Option<Id>): (r: Option<Id>)
    ensures r.Some? ==> r.value in order && r != excluded
    ensures r.None? ==> forall id :: id in order ==> Some(id) == excluded
  {
    if order == [] then None
    else if Some(order[0]) != excluded then Some(order[0])
    else NextAvailable(order[1..], excluded)
  }

  function Or<T>(a: Option<T>, b: Option<T>): Option<T> { if a.Some? then a else b }
  function First(order: seq<Id>): Option<Id> { if order == [] then None else Some(order[0]) }
  function Drop(order: seq<Id>, id: Id): (r: seq<Id>)
    ensures forall x :: x in r <==> x in order && x != id
  {
    if order == [] then []
    else
      assert order == [order[0]] + order[1..];
      (if order[0] == id then [] else [order[0]]) + Drop(order[1..], id)
  }

  function SelectSession(s: State, id: Id): State {
    if id !in s.sessions then s
    else
      var focused := if s.layout.Split? && s.panes.first == Some(id) then 0
                     else if s.layout.Split? && s.panes.second == Some(id) then 1
                     else s.focusedPane;
      var panes := s.panes.With(focused, Some(id));
      s.(sessions := s.sessions[id := s.sessions[id].(attention := Calm)], activeId := Some(id), focusedPane := focused,
         panes := if s.layout.Single? then panes.(second := None) else panes)
  }

  function RemoveSession(s: State, id: Id): State {
    if id !in s.sessions then s
    else
      var order := Drop(s.order, id);
      var first := if s.panes.first == Some(id) then None else s.panes.first;
      var second := if s.panes.second == Some(id) then None else s.panes.second;
      var first' := if first.None? then NextAvailable(order, second) else first;
      var second' := if s.layout.Split? && second.None? then NextAvailable(order, first') else second;
      var layout := if s.layout.Split? && first'.Some? && second'.Some? then Split else Single;
      var panes := Panes(first', second');
      var panes' := if layout.Single? then Panes(Or(panes.At(s.focusedPane), Or(first', Or(second', First(order)))), None) else panes;
      var focused := if layout.Split? && s.focusedPane == 1 && panes'.second.Some? then 1 else 0;
      var active := if s.activeId == Some(id) || s.activeId.None? then Or(panes'.At(focused), Or(panes'.first, First(order))) else s.activeId;
      State(s.sessions - {id}, order, active, layout, panes', focused)
  }

  function Toggle(s: State): State {
    if s.layout.Split? then
      var active := Or(s.activeId, Or(s.panes.At(s.focusedPane), s.panes.first));
      s.(layout := Single, panes := Panes(active, None), focusedPane := 0, activeId := active)
    else
      var primary := Or(s.activeId, Or(s.panes.first, First(s.order)));
      var secondary := NextAvailable(s.order, primary);
      if primary.None? || secondary.None? then s
      else s.(layout := Split, panes := Panes(primary, secondary), focusedPane := 0, activeId := primary)
  }

  function Priority(a: Attention): nat {
    match a
    case Calm => 0
    case Activity => 1
    case Action => 2
    case Alarm => 3
  }

  function BackgroundAttention(s: State, id: Id, current: Attention, incoming: Attention): Attention {
    if s.activeId == Some(id) then Calm else if Priority(incoming) > Priority(current) then incoming else current
  }

  function Update(s: State, id: Id, session: Session): State { s.(sessions := s.sessions[id := session]) }

  function Received(s: State, session: Session, e: Event): Session
    requires e.Receive?
  {
    var m := e.message;
    var entry := if m.Status? then Some(LogEntry(e.entryId, m.occurredAt, false, m.message))
                 else if m.Error? then Some(LogEntry(e.entryId, e.receivedAt, true, m.message))
                 else None;
    var incoming := if m.Error? then Alarm else if m.HostKey? then Action else if m.Output? then Activity else Calm;
    var log := if entry.Some? then [entry.value] + session.events else session.events;
    session.(metrics := if m.Metrics? then Some(m.sample) else session.metrics,
             events := if entry.Some? then log[..Min(|log|, MAX_EVENTS)] else session.events,
             attention := BackgroundAttention(s, e.id, session.attention, incoming))
  }

  /** `workbenchSessionsReducer`. */
  function Reduce(s: State, e: Event): State {
    match e
    case Open(session) =>
      if session.id in s.sessions then s
      else SelectSession(s.(sessions := s.sessions[session.id := session], order := s.order + [session.id]), session.id)
    case Select(id) => SelectSession(s, id)
    case FocusPane(pane) =>
      if s.layout.Single? || s.panes.At(pane).None? then s
      else SelectSession(s.(focusedPane := pane), s.panes.At(pane).value)
    case ToggleSplit => Toggle(s)
    case Reconnect(id, attemptId, profile, requested) =>
      if id !in s.sessions then s
      else
        var session := s.sessions[id];
        Update(s, id, session.(
          profile := profile.GetOr(session.profile), attemptId := attemptId, connectRequested := requested.GetOr(true),
          state := if requested == Some(false) then Idle else Authorizing, channel := None, metrics := None, events := [],
          attention := Calm, closing := false))
    case Pause(id, attemptId, paused) =>
      if id !in s.sessions || s.sessions[id].attemptId != attemptId then s
      else Update(s, id, s.sessions[id].(connectRequested := false, state := paused.GetOr(Idle), channel := None))
    case SetState(id, attemptId, state) =>
      if id !in s.sessions || s.sessions[id].attemptId != attemptId then s
      else
        var session := s.sessions[id];
        Update(s, id, session.(
          state := state,
          connectRequested := if state in {Idle, ClosedState, ErrorState} then false else session.connectRequested,
          attention := if state.ErrorState? then BackgroundAttention(s, id, session.attention, Alarm) else session.attention))
    case SetChannel(id, attemptId, channel) =>
      if id !in s.sessions || s.sessions[id].attemptId != attemptId then s
      else Update(s, id, s.sessions[id].(channel := channel))
    case Receive(id, attemptId, _, _, _) =>
      if id !in s.sessions || s.sessions[id].attemptId != attemptId then s
      else Update(s, id, Received(s, s.sessions[id], e))
    case SetWorkTab(id, tab) =>
      if id !in s.sessions then s else Update(s, id, s.sessions[id].(workTab := tab))
    case Attend(id, attention) =>
      if id !in s.sessions then s
      else Update(s, id, s.sessions[id].(attention := BackgroundAttention(s, id, s.sessions[id].attention, attention)))
    case SetClosing(id, closing) =>
      if id !in s.sessions then s else Update(s, id, s.sessions[id].(closing := closing))
    case Remove(id) => RemoveSession(s, id)
    case Clear => INITIAL
  }

  // ---------------------------------------------------------------- the layout invariant

  ghost predicate Distinct(order: seq<Id>) {
    forall i, j :: 0 <= i < j < |order| ==> order[i] != order[j]
  }

  ghost predicate WellLaidOut(s: State) {
    && TabsAgree(s)
    && (s.activeId.None? <==> s.order == []) && (s.activeId.Some? ==> s.activeId.value in s.sessions)
    && (s.layout.Single? ==> s.panes == Panes(s.activeId, None) && s.focusedPane == 0)
    && (s.layout.Split? ==>
          && s.panes.first.Some? && s.panes.second.Some? && s.panes.first != s.panes.second
          && s.panes.first.value in s.sessions && s.panes.second.value in s.sessions
          && s.focusedPane <= 1 && s.activeId == s.panes.At(s.focusedPane))
  }

  /** The order lists every session once. */
  ghost predicate TabsAgree(s: State) {
    Distinct(s.order) && forall id :: id in s.order <==> id in s.sessions
  }

  /** Sessions are stored under their own id and keep at most 200 log entries. */
  ghost predicate WellStored(s: State) {
    forall id :: id in s.sessions ==> s.sessions[id].id == id && |s.sessions[id].events| <= MAX_EVENTS
  }

  lemma {:induction false} DropDistinct(order: seq<Id>, id: Id)
    requires Distinct(order)
    ensures Distinct(Drop(order, id))
  {
    if order != [] {
      DropDistinct(order[1..], id);
      var rest := Drop(order[1..], id);
      forall j | 0 <= j < |rest| ensures rest[j] != order[0] { assert rest[j] in order[1..]; }
    }
  }

  lemma RemoveKeepsLayout(s: State, id: Id)
    requires WellLaidOut(s)
    ensures WellLaidOut(RemoveSession(s, id))
  {
    if id in s.sessions {
      RemoveKeepsTabs(s, id);
      hide TabsAgree;
      var order := Drop(s.order, id);
      if order != [] { assert order[0] in order; }
      TabExists(RemoveSession(s, id));
    }
  }

  lemma RemoveKeepsTabs(s: State, id: Id)
    requires TabsAgree(s)
    ensures TabsAgree(RemoveSession(s, id))
  {
    if id in s.sessions { DropDistinct(s.order, id); }
  }

  lemma TabExists(s: State)
    requires TabsAgree(s)
    ensures forall id :: id in s.order <==> id in s.sessions
  {
  }

  /** A click on a pane number other than 0 or 1 does not exist. */
  predicate Possible(e: Event) {
    && (e.FocusPane? ==> e.pane <= 1)
    && (e.Open? ==> |e.session.events| <= MAX_EVENTS)
  }

  /** What a selection needs: everything but agreement of the active tab with the focused pane. */
  ghost predicate Selectable(s: State) {
    && TabsAgree(s)
    && (s.layout.Single? ==> s.focusedPane == 0)
    && (s.layout.Split? ==>
          && s.panes.first.Some? && s.panes.second.Some? && s.panes.first != s.panes.second
          && s.panes.first.value in s.sessions && s.panes.second.value in s.sessions && s.focusedPane <= 1)
  }

  lemma SelectKeepsLayout(s: State, id: Id)
    requires Selectable(s) && WellStored(s) && id in s.sessions
    ensures WellLaidOut(SelectSession(s, id)) && WellStored(SelectSession(s, id))
  {
    assert id in s.order;
  }

  lemma UpdateKeepsLayout(s: State, id: Id, session: Session)
    requires WellLaidOut(s) && WellStored(s) && id in s.sessions && session.id == id && |session.events| <= MAX_EVENTS
    ensures WellLaidOut(Update(s, id, session)) && WellStored(Update(s, id, session))
  {
  }

  lemma OpenKeepsLayout(s: State, session: Session)
    requires WellLaidOut(s) && WellStored(s) && |session.events| <= MAX_EVENTS
    ensures WellLaidOut(Reduce(s, Open(session))) && WellStored(Reduce(s, Open(session)))
  {
    if session.id !in s.sessions {
      var added := s.(sessions := s.sessions[session.id := session], order := s.order + [session.id]);
      assert forall id :: id in added.order <==> id in s.order || id == session.id;
      SelectKeepsLayout(added, session.id);
    }
  }

  lemma ToggleKeepsLayout(s: State)
    requires WellLaidOut(s)
    ensures WellLaidOut(Toggle(s))
  {
    if s.order != [] { assert s.order[0] in s.order; }
  }

  lemma ReduceKeepsLayout(s: State, e: Event)
    requires WellLaidOut(s) && WellStored(s) && Possible(e)
    ensures WellLaidOut(Reduce(s, e)) && WellStored(Reduce(s, e))
  {
    hide WellLaidOut, WellStored, SelectSession, RemoveSession, Toggle, Update, Received;
    match e
    case Open(session) => OpenKeepsLayout(s, session);
    case Select(id) => SelectAny(s, id);
    case FocusPane(pane) => FocusKeepsLayout(s, pane);
    case ToggleSplit => ToggleKeepsLayout(s); ToggleStores(s); SameStored(s, Toggle(s));
    case Remove(id) => RemoveKeepsLayout(s, id); RemoveStores(s, id); SameStored(s, RemoveSession(s, id));
    case Clear => InitialLayout();
    case _ => SessionUpdateKeepsLayout(s, e);
  }

  lemma InitialLayout()
    ensures WellLaidOut(INITIAL) && WellStored(INITIAL)
  {
    assert INITIAL.order == [];
  }

  lemma FocusKeepsLayout(s: State, pane: nat)
    requires WellLaidOut(s) && WellStored(s) && pane <= 1
    ensures WellLaidOut(Reduce(s, FocusPane(pane))) && WellStored(Reduce(s, FocusPane(pane)))
  {
    hide SelectSession;
    if s.layout.Split? { SelectKeepsLayout(s.(focusedPane := pane), s.panes.At(pane).value); }
  }

  lemma SameStored(s: State, t: State)
    requires WellStored(s) && forall id :: id in t.sessions ==> id in s.sessions && t.sessions[id] == s.sessions[id]
    ensures WellStored(t)
  {
  }

  lemma SessionUpdateKeepsLayout(s: State, e: Event)
    requires WellLaidOut(s) && WellStored(s) && AboutOneSession(e)
    ensures WellLaidOut(Reduce(s, e)) && WellStored(Reduce(s, e))
  {
    hide Reduce, WellLaidOut, WellStored, Update;
    if Reduce(s, e) != s {
      SessionUpdate(s, e);
      UpdateKeepsLayout(s, e.id, Reduce(s, e).sessions[e.id]);
    }
  }

  lemma SelectAny(s: State, id: Id)
    requires WellLaidOut(s) && WellStored(s)
    ensures WellLaidOut(SelectSession(s, id)) && WellStored(SelectSession(s, id))
  {
    if id in s.sessions { SelectKeepsLayout(s, id); }
  }

  lemma ToggleStores(s: State)
    ensures Toggle(s).sessions == s.sessions
  {
  }

  lemma RemoveStores(s: State, id: Id)
    ensures RemoveSession(s, id).sessions == s.sessions - {id}
  {
  }

  predicate AboutOneSession(e: Event) {
    !(e.Open? || e.Select? || e.FocusPane? || e.ToggleSplit? || e.Remove? || e.Clear?)
  }

  /** The actions about one session replace that session and nothing else. */
  lemma SessionUpdate(s: State, e: Event)
    requires AboutOneSession(e) && Reduce(s, e) != s && WellStored(s)
    ensures e.id in s.sessions && e.id in Reduce(s, e).sessions
    ensures var session := Reduce(s, e).sessions[e.id];
            Reduce(s, e) == Update(s, e.id, session) && session.id == e.id && |session.events| <= MAX_EVENTS
  {
  }

  function After(events: seq<Event>): State {
    if events == [] then INITIAL else Reduce(After(events[..|events| - 1]), events[|events| - 1])
  }

  /** The layout invariant holds after every sequence of actions. */
  lemma {:induction false} AlwaysWellLaidOut(events: seq<Event>)
    requires forall k :: 0 <= k < |events| ==> Possible(events[k])
    ensures WellLaidOut(After(events)) && WellStored(After(events))
  {
    if events != [] {
      AlwaysWellLaidOut(events[..|events| - 1]);
      ReduceKeepsLayout(After(events[..|events| - 1]), events[|events| - 1]);
    }
  }

  /** `visibleSessionIds`. */
  function Visible(s: State): seq<Id> {
    if s.layout.Split? then
      (if s.panes.first.Some? then [s.panes.first.value] else []) + (if s.panes.second.Some? then [s.panes.second.value] else [])
    else if s.panes.first.Some? then [s.panes.first.value] else []
  }

  /** What is shown are distinct existing sessions, the active one among them; nothing is shown exactly
      when there are no tabs. */
  lemma VisibleSound(events: seq<Event>)
    requires forall k :: 0 <= k < |events| ==> Possible(events[k])
    ensures var s, v := After(events), Visible(After(events));
            && Distinct(v) && (forall id :: id in v ==> id in s.sessions) && |v| <= 2
            && (v == [] <==> s.sessions == map[]) && (v != [] ==> s.activeId.Some? && s.activeId.value in v)
  {
    AlwaysWellLaidOut(events);
    var s := After(events);
    if s.order == [] {
      assert s.sessions == map[];
    } else {
      assert s.order[0] in s.sessions;
    }
  }

  /** Messages of an earlier connection attempt change nothing. */
  lemma StaleAttemptIgnored(s: State, e: Event)
    requires e.Pause? || e.SetState? || e.SetChannel? || e.Receive?
    requires e.id in s.sessions ==> s.sessions[e.id].attemptId != e.attemptId
    ensures Reduce(s, e) == s
  {
  }

  /** No action but its own reconnect or removal (or a clear) changes what attempt a tab is on. */
  lemma AttemptStable(s: State, e: Event, id: Id)
    requires id in s.sessions && !e.Clear? && !(e.Reconnect? && e.id == id) && !(e.Remove? && e.id == id)
    ensures id in Reduce(s, e).sessions && Reduce(s, e).sessions[id].attemptId == s.sessions[id].attemptId
  {
  }

  // ---------------------------------------------------------------- connection and attention

  predicate AtRest(session: Session) { session.state in {Idle, ClosedState, ErrorState} }

  /** A tab at rest does not ask to be connected. */
  ghost predicate Quiet(s: State) {
    forall id :: id in s.sessions && AtRest(s.sessions[id]) ==> !s.sessions[id].connectRequested
  }

  lemma ReduceKeepsQuiet(s: State, e: Event)
    requires Quiet(s) && (e.Open? && AtRest(e.session) ==> !e.session.connectRequested)
    ensures Quiet(Reduce(s, e))
  {
  }

  /** If tabs are opened at rest only without a request to connect, no tab at rest ever asks for one. */
  lemma {:induction false} AlwaysQuiet(events: seq<Event>)
    requires forall k :: 0 <= k < |events| && events[k].Open? && AtRest(events[k].session) ==> !events[k].session.connectRequested
    ensures Quiet(After(events))
  {
    if events != [] {
      var before, e := events[..|events| - 1], events[|events| - 1];
      hide Reduce, Quiet, AtRest;
      AlwaysQuiet(before);
      ReduceKeepsQuiet(After(before), e);
    }
  }

  /** What a background tab asks for is never forgotten before the tab is looked at: only selecting or
      focusing it, its reconnect, its removal or a clear lowers its attention. */
  lemma AttentionKept(s: State, e: Event, id: Id)
    requires id in s.sessions && s.activeId != Some(id) && id in Reduce(s, e).sessions
    requires Reduce(s, e).activeId != Some(id) && !(e.Reconnect? && e.id == id)
    ensures Priority(s.sessions[id].attention) <= Priority(Reduce(s, e).sessions[id].attention)
  {
  }

  // ---------------------------------------------------------------- names and counts

  /** The tabs of one profile, in tab order. */
  function TabsOf(s: State, order: seq<Id>, profileId: string): (r: seq<Id>)
    ensures forall id :: id in r <==> id in order && id in s.sessions && s.sessions[id].profile.id == profileId
  {
    if order == [] then []
    else
      assert order == [order[0]] + order[1..];
      (if order[0] in s.sessions && s.sessions[order[0]].profile.id == profileId then [order[0]] else [])
      + TabsOf(s, order[1..], profileId)
  }

  function IndexOf(ids: seq<Id>, id: Id): (n: nat)
    requires id in ids
    ensures n < |ids| && ids[n] == id
  {
    if ids[0] == id then 0 else 1 + IndexOf(ids[1..], id)
  }

  /** `sessionDisplayName`. */
  function DisplayName(s: State, id: Id): Option<string> {
    if id !in s.sessions then None
    else
      var session := s.sessions[id];
      var tabs := TabsOf(s, s.order, session.profile.id);
      if |tabs| <= 1 then Some(session.profile.name)
      else Some(session.profile.name + " #" + Decimal(if id in tabs then IndexOf(tabs, id) + 1 else 0))
  }

  lemma LastMark(a: string, d: string)
    requires forall k :: 0 <= k < |d| ==> IsDecimalDigit(d[k])
    ensures var x := a + " #" + d;
            x[|a| + 1] == '#' && x[|a| + 2..] == d && forall k :: |a| + 1 < k < |x| ==> x[k] != '#'
  {
    var x := a + " #" + d;
    forall k | |a| + 1 < k < |x| ensures x[k] != '#' {
      assert x[k] == d[k - |a| - 2];
    }
  }

  lemma NumberedNamesDiffer(a: string, b: string, m: nat, n: nat)
    requires m != n
    ensures a + " #" + Decimal(m) != b + " #" + Decimal(n)
  {
    hide Decimal, DecimalValue;
    DecimalRoundTrip(m);
    DecimalRoundTrip(n);
    LastMark(a, Decimal(m));
    LastMark(b, Decimal(n));
    if |a| == |b| {
      var x, y := a + " #" + Decimal(m), b + " #" + Decimal(n);
      assert x[|a| + 2..] != y[|b| + 2..];
    }
  }

  /** Two tabs of one profile never carry the same name, even if the profile was renamed in between. */
  lemma NamesDistinct(events: seq<Event>, a: Id, b: Id)
    requires forall k :: 0 <= k < |events| ==> Possible(events[k])
    requires var s := After(events); a != b && a in s.sessions && b in s.sessions && s.sessions[a].profile.id == s.sessions[b].profile.id
    ensures DisplayName(After(events), a) != DisplayName(After(events), b)
  {
    hide After, TabsOf, IndexOf, DisplayName;
    AlwaysWellLaidOut(events);
    TabNamesDiffer(After(events), a, b);
  }

  lemma TabNamesDiffer(s: State, a: Id, b: Id)
    requires a != b && a in s.order && b in s.order && a in s.sessions && b in s.sessions
    requires s.sessions[a].profile.id == s.sessions[b].profile.id
    ensures DisplayName(s, a) != DisplayName(s, b)
  {
    hide *;
    Numbered(s, a, b);
    Numbered(s, b, a);
    var tabs := TabsOf(s, s.order, s.sessions[a].profile.id);
    var i, j := IndexOf(tabs, a) + 1, IndexOf(tabs, b) + 1;
    NumberedNamesDiffer(s.sessions[a].profile.name, s.sessions[b].profile.name, i, j);
  }

  lemma Numbered(s: State, a: Id, b: Id)
    requires a != b && a in s.order && b in s.order && a in s.sessions && b in s.sessions
    requires s.sessions[a].profile.id == s.sessions[b].profile.id
    ensures var tabs := TabsOf(s, s.order, s.sessions[a].profile.id);
            a in tabs && b in tabs && DisplayName(s, a) == Some(s.sessions[a].profile.name + " #" + Decimal(IndexOf(tabs, a) + 1))
  {
    hide TabsOf, IndexOf, Decimal;
    var tabs := TabsOf(s, s.order, s.sessions[a].profile.id);
    assert IndexOf(tabs, a) != IndexOf(tabs, b);
  }

  function WithProfile(s: State, ids: set<Id>, profileId: string): set<Id> {
    set id | id in ids && id in s.sessions && s.sessions[id].profile.id == profileId
  }

  lemma WithProfileAdd(s: State, ids: set<Id>, id: Id, profileId: string)
    requires id in s.sessions && id !in ids
    ensures |WithProfile(s, ids + {id}, profileId)| == |WithProfile(s, ids, profileId)| + (if s.sessions[id].profile.id == profileId then 1 else 0)
  {
    var before := WithProfile(s, ids, profileId);
    assert WithProfile(s, ids + {id}, profileId) == if s.sessions[id].profile.id == profileId then before + {id} else before;
  }

  /** The counts say, for every profile, how many of the tabs are on it; profiles without tabs have no entry. */
  ghost predicate Counted(s: State, ids: set<Id>, counts: map<string, nat>) {
    && (forall p :: |WithProfile(s, ids, p)| == if p in counts then counts[p] else 0)
    && forall p :: p in counts ==> counts[p] > 0
  }

  lemma NoneCounted(s: State)
    ensures Counted(s, {}, map[])
  {
    assert forall p :: WithProfile(s, {}, p) == {};
  }

  lemma CountOne(s: State, done: set<Id>, id: Id, counts: map<string, nat>)
    requires id in s.sessions && id !in done && Counted(s, done, counts)
    ensures var p := s.sessions[id].profile.id;
            Counted(s, done + {id}, counts[p := (if p in counts then counts[p] else 0) + 1])
  {
    hide WithProfile;
    var p := s.sessions[id].profile.id;
    forall q ensures |WithProfile(s, done + {id}, q)| == |WithProfile(s, done, q)| + (if p == q then 1 else 0) {
      WithProfileAdd(s, done, id, q);
    }
  }

  /** `profileSessionCounts`. */
  method ProfileSessionCounts(s: State) returns (counts: map<string, nat>)
    ensures Counted(s, s.sessions.Keys, counts)
  {
    hide Counted;
    counts := map[];
    NoneCounted(s);
    var rest, done := s.sessions.Keys, {};
    while rest != {}
      invariant rest <= s.sessions.Keys && rest + done == s.sessions.Keys && rest !! done
      invariant Counted(s, done, counts)
      decreases rest
    {
      var id :| id in rest;
      var p := s.sessions[id].profile.id;
      CountOne(s, done, id, counts);
      counts := counts[p := (if p in counts then counts[p] else 0) + 1];
      rest, done := rest - {id}, done + {id};
    }
    assert done == s.sessions.Keys;
  }
}
