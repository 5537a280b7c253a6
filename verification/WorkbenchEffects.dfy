/** What each action of the workbench does to tabs and panes, for every well laid out state
  (apps/web/src/lib/workbench-sessions.ts). */
module WorkbenchEffects {
  import opened Common
  import opened Workbench

  // ---------------------------------------------------------------- the helpers

  /** The first tab of the order that is not excluded. */
  lemma {:induction false} NextIsFirst(order: seq<Id>, excluded: Option<Id>, k: nat)
    requires k < |order| && Some(order[k]) != excluded && forall i :: 0 <= i < k ==> Some(order[i]) == excluded
    ensures NextAvailable(order, excluded) == Some(order[k])
  {
    if k > 0 { NextIsFirst(order[1..], excluded, k - 1); }
  }

  lemma {:induction false} DropAbsent(order: seq<Id>, id: Id)
    requires id !in order
    ensures Drop(order, id) == order
  {
    if order != [] {
      assert order == [order[0]] + order[1..];
      DropAbsent(order[1..], id);
    }
  }

  /** Dropping a tab closes its gap and keeps the order of the others. */
  lemma {:induction false} DropExact(order: seq<Id>, k: nat)
    requires Distinct(order) && k < |order|
    ensures Drop(order, order[k]) == order[..k] + order[k + 1..]
  {
    var rest := order[1..];
    assert order == [order[0]] + rest;
    if k == 0 {
      assert order[0] !in rest by {
        forall i | 0 <= i < |rest| ensures rest[i] != order[0] { assert rest[i] == order[i + 1]; }
      }
      DropAbsent(rest, order[0]);
    } else {
      assert Distinct(rest);
      DropExact(rest, k - 1);
      assert rest[k - 1] == order[k];
      assert order[..k] == [order[0]] + rest[..k - 1] && order[k + 1..] == rest[k..];
    }
  }

  // ---------------------------------------------------------------- selecting

  /** No other session's record, nor the order or the layout, is touched. */
  ghost predicate OnlyTouches(s: State, s': State, id: Id) {
    && s'.order == s.order && s'.layout == s.layout && s'.sessions.Keys == s.sessions.Keys
    && forall other :: other in s.sessions && other != id ==> s'.sessions[other] == s.sessions[other]
  }

  /** A selected tab becomes active and asks for nothing any more.  It is shown in its own pane if it has
      one, and otherwise in the focused one. */
  lemma SelectActivates(s: State, id: Id)
    requires WellLaidOut(s) && id in s.sessions
    ensures var s' := Reduce(s, Select(id));
            && s'.activeId == Some(id) && OnlyTouches(s, s', id) && s'.sessions[id] == s.sessions[id].(attention := Calm)
            && s'.panes.At(s'.focusedPane) == Some(id)
            && (s.layout.Split? && (s.panes.first == Some(id) || s.panes.second == Some(id)) ==> s'.panes == s.panes)
            && (s.layout.Split? && s.panes.first != Some(id) && s.panes.second != Some(id) ==>
                  s'.focusedPane == s.focusedPane && s'.panes.At(1 - s.focusedPane) == s.panes.At(1 - s.focusedPane))
  {
  }

  /** Focusing a pane of the split view makes its tab active and moves no tab. */
  lemma FocusActivates(s: State, pane: nat)
    requires WellLaidOut(s) && s.layout.Split? && pane <= 1
    ensures var s' := Reduce(s, FocusPane(pane));
            s'.activeId == s.panes.At(pane) && s'.focusedPane == pane && s'.panes == s.panes && OnlyTouches(s, s', s.panes.At(pane).value)
  {
  }

  /** A new tab is stored as given, comes last and is active; an existing one is not opened again. */
  lemma OpenAppends(s: State, session: Session)
    requires WellLaidOut(s)
    ensures var s' := Reduce(s, Open(session));
            if session.id in s.sessions then s' == s
            else
              && s'.order == s.order + [session.id] && s'.layout == s.layout && s'.activeId == Some(session.id)
              && s'.sessions == s.sessions[session.id := session.(attention := Calm)]
              && s'.panes.At(s'.focusedPane) == Some(session.id)
  {
  }

  // ---------------------------------------------------------------- split view

  /** Leaving split view shows the active tab alone; entering it shows the active tab and the first other
      one, and is refused when there is no other.  The active tab and the tabs themselves stay. */
  lemma ToggleKeepsActive(s: State)
    requires WellLaidOut(s)
    ensures var s' := Reduce(s, ToggleSplit);
            && s'.activeId == s.activeId && s'.sessions == s.sessions && s'.order == s.order
            && (s.layout.Split? ==> s'.layout.Single? && s'.panes == Panes(s.activeId, None))
            && (s.layout.Single? && |s.order| < 2 ==> s' == s)
            && (s.layout.Single? && |s.order| >= 2 ==>
                  s'.layout.Split? && s'.panes == Panes(s.activeId, Some(if Some(s.order[0]) == s.activeId then s.order[1] else s.order[0])))
  {
    if s.layout.Single? && |s.order| >= 2 {
      assert s.order[0] != s.order[1] && s.order[0] in s.order;
      NextIsFirst(s.order, s.activeId, if Some(s.order[0]) == s.activeId then 1 else 0);
    } else if s.layout.Single? && |s.order| == 1 {
      assert s.order[0] in s.order;
      assert s.activeId == Some(s.order[0]) by { assert s.activeId.value in s.order; }
    }
  }

  // ---------------------------------------------------------------- removing

  /** Removing a tab takes away that tab alone; the active tab stays unless it is the removed one. */
  lemma RemoveTakesOne(s: State, k: nat)
    requires WellLaidOut(s) && k < |s.order|
    ensures var id, s' := s.order[k], Reduce(s, Remove(s.order[k]));
            && s'.sessions == s.sessions - {id} && s'.order == s.order[..k] + s.order[k + 1..]
            && (s.activeId != Some(id) ==> s'.activeId == s.activeId)
  {
    hide *;
    TabAt(s, k);
    DropExact(s.order, k);
    RemoveReduces(s, s.order[k]);
    RemoveParts(s, s.order[k]);
  }

  lemma RemoveReduces(s: State, id: Id)
    ensures Reduce(s, Remove(id)) == RemoveSession(s, id)
  {
    hide RemoveSession;
  }

  /** What the lemmas below need of a well laid out state. */
  lemma TabAt(s: State, k: nat)
    requires WellLaidOut(s) && k < |s.order|
    ensures s.order[k] in s.sessions && s.activeId.Some? && Distinct(s.order)
    ensures forall i :: 0 <= i < k ==> s.order[i] != s.order[k]
  {
    assert s.order[k] in s.order;
  }

  lemma RemoveParts(s: State, id: Id)
    requires id in s.sessions && s.activeId.Some?
    ensures var s' := RemoveSession(s, id);
            && s'.sessions == s.sessions - {id} && s'.order == Drop(s.order, id)
            && (s.activeId != Some(id) ==> s'.activeId == s.activeId)
  {
    hide Drop, NextAvailable;
  }

  lemma TabListed(s: State, id: Id)
    requires WellLaidOut(s)
    ensures id in s.order <==> id in s.sessions
  {
  }

  /** The split view survives exactly when two tabs remain.  The pane of a remaining tab keeps it. */
  lemma RemoveKeepsPanes(s: State, id: Id)
    requires WellLaidOut(s) && s.layout.Split? && id in s.sessions
    ensures var s' := Reduce(s, Remove(id));
            && (s'.layout.Split? <==> |s.order| > 2)
            && (|s.order| > 2 ==>
                  && s'.focusedPane == s.focusedPane
                  && (s.panes.first != Some(id) ==> s'.panes.first == s.panes.first)
                  && (s.panes.second != Some(id) ==> s'.panes.second == s.panes.second))
  {
    hide *;
    SplitFacts(s);
    var a, b := s.panes.first.value, s.panes.second.value;
    TabListed(s, id);
    TabListed(s, a);
    TabListed(s, b);
    RemoveReduces(s, id);
    TabsLeft(s.order, id, a, b);
    RemovePanes(s, id, a, b);
  }

  lemma SplitFacts(s: State)
    requires WellLaidOut(s) && s.layout.Split?
    ensures s.panes.first.Some? && s.panes.second.Some? && s.panes.first.value != s.panes.second.value && s.focusedPane <= 1
    ensures s.panes.first.value in s.sessions && s.panes.second.value in s.sessions && Distinct(s.order)
  {
  }

  lemma RemovePanes(s: State, id: Id, a: Id, b: Id)
    requires id in s.sessions && s.layout.Split? && s.panes == Panes(Some(a), Some(b)) && a != b && s.focusedPane <= 1
    ensures var s', rest := RemoveSession(s, id), Drop(s.order, id);
            && (s'.layout.Split? <==>
                  if id == a then NextAvailable(rest, Some(b)).Some? else id == b ==> NextAvailable(rest, Some(a)).Some?)
            && (s'.layout.Split? ==>
                  && s'.focusedPane == s.focusedPane
                  && (id != a ==> s'.panes.first == Some(a)) && (id != b ==> s'.panes.second == Some(b)))
  {
    hide Drop, NextAvailable;
  }

  /** Of more than two tabs there is one besides any two. */
  lemma TabsLeft(order: seq<Id>, id: Id, a: Id, b: Id)
    requires Distinct(order) && id in order && a in order && b in order && a != b
    ensures var rest := Drop(order, id);
            && (id == a ==> (NextAvailable(rest, Some(b)).Some? <==> |order| > 2))
            && (id == b ==> (NextAvailable(rest, Some(a)).Some? <==> |order| > 2))
            && (id != a && id != b ==> |order| > 2)
  {
    var k :| 0 <= k < |order| && order[k] == id;
    DropDistinct(order, id);
    DropExact(order, k);
    if id == a {
      OthersLeft(Drop(order, id), b);
    } else if id == b {
      OthersLeft(Drop(order, id), a);
    } else {
      var i :| 0 <= i < |order| && order[i] == a;
      var j :| 0 <= j < |order| && order[j] == b;
      assert i != j && i != k && j != k;
    }
  }

  lemma OthersLeft(rest: seq<Id>, x: Id)
    requires Distinct(rest)
    ensures NextAvailable(rest, Some(x)).Some? <==> |rest| > (if x in rest then 1 else 0)
  {
    if x in rest {
      var i :| 0 <= i < |rest| && rest[i] == x;
      if |rest| > 1 {
        var j := if i == 0 then 1 else 0;
        assert rest[j] in rest && rest[j] != x;
      } else {
        assert rest == [x];
      }
    } else if |rest| > 0 {
      assert rest[0] in rest;
    }
  }

  /** Clearing leaves an empty workbench. */
  lemma ClearEmpties(s: State)
    ensures var s' := Reduce(s, Clear); s'.sessions == map[] && s'.order == [] && s'.activeId == None && s'.layout.Single?
  {
  }

  // ---------------------------------------------------------------- messages

  /** A message of the current attempt: status and errors come first in the log, which keeps its newest 200
      entries; metrics replace metrics; and a background tab asks for as much attention as the message
      deserves while the active one asks for none. */
  lemma MessageEffect(s: State, e: Event)
    requires WellStored(s) && e.Receive? && e.id in s.sessions && s.sessions[e.id].attemptId == e.attemptId
    ensures var s', was, m := Reduce(s, e), s.sessions[e.id], e.message;
            var x := s'.sessions[e.id];
            && OnlyTouches(s, s', e.id) && s'.panes == s.panes && s'.activeId == s.activeId
            && (m.Status? ==> |x.events| == Min(|was.events| + 1, 200) && x.events[0] == LogEntry(e.entryId, m.occurredAt, false, m.message))
            && (m.Error? ==> |x.events| == Min(|was.events| + 1, 200) && x.events[0] == LogEntry(e.entryId, e.receivedAt, true, m.message))
            && (m.Status? || m.Error? ==> forall k :: 1 <= k < |x.events| ==> x.events[k] == was.events[k - 1])
            && (!m.Status? && !m.Error? ==> x.events == was.events)
            && x.metrics == (if m.Metrics? then Some(m.sample) else was.metrics)
            && (s.activeId == Some(e.id) ==> x.attention == Calm)
            && (s.activeId != Some(e.id) ==>
                  && (m.Error? ==> x.attention == Alarm)
                  && (m.HostKey? ==> x.attention == if was.attention == Alarm then Alarm else Action)
                  && (m.Output? ==> x.attention == if was.attention == Calm then Activity else was.attention)
                  && (m.Status? || m.Metrics? || m.Other? ==> x.attention == was.attention))
            && x.(events := was.events, metrics := was.metrics, attention := was.attention) == was
  {
  }

  // ---------------------------------------------------------------- the actions about one tab

  /** A reconnect starts a new attempt with an empty log and no channel, and keeps the tool that was open. */
  lemma ReconnectStartsOver(s: State, id: Id, attemptId: string, profile: Option<Profile>, requested: Option<bool>)
    requires id in s.sessions
    ensures var s' := Reduce(s, Reconnect(id, attemptId, profile, requested));
            var was, x := s.sessions[id], s'.sessions[id];
            && OnlyTouches(s, s', id) && x.attemptId == attemptId && x.profile == profile.GetOr(was.profile) && x.workTab == was.workTab
            && x.channel == None && x.metrics == None && x.events == [] && x.attention == Calm && !x.closing
            && (requested == Some(false) ==> x.state == Idle && !x.connectRequested)
            && (requested != Some(false) ==> x.state == Authorizing && x.connectRequested)
  {
  }

  /** A pause of the current attempt brings the tab to rest without a channel. */
  lemma PauseRests(s: State, id: Id, paused: Option<SessionState>)
    requires id in s.sessions
    ensures var was := s.sessions[id];
            var s' := Reduce(s, Pause(id, was.attemptId, paused));
            && OnlyTouches(s, s', id)
            && s'.sessions[id] == was.(connectRequested := false, state := paused.GetOr(Idle), channel := None)
  {
  }

  /** A state of the current attempt is shown; an idle, closed or failed session no longer asks to be
      connected, and a failure in the background raises the alarm. */
  lemma StateShown(s: State, id: Id, state: SessionState)
    requires id in s.sessions
    ensures var was := s.sessions[id];
            var s' := Reduce(s, SetState(id, was.attemptId, state));
            var x := s'.sessions[id];
            && OnlyTouches(s, s', id) && x.state == state
            && (state in {Idle, ClosedState, ErrorState} ==> !x.connectRequested)
            && (state !in {Idle, ClosedState, ErrorState} ==> x.connectRequested == was.connectRequested)
            && x.attention == (if state != ErrorState then was.attention else if s.activeId == Some(id) then Calm else Alarm)
            && x.(state := was.state, connectRequested := was.connectRequested, attention := was.attention) == was
  {
  }

  /** The remaining actions set one field and touch nothing else. */
  lemma FieldsSet(s: State, id: Id, channel: Option<string>, tab: WorkTab, closing: bool)
    requires id in s.sessions
    ensures var was := s.sessions[id];
            && Reduce(s, SetChannel(id, was.attemptId, channel)) == s.(sessions := s.sessions[id := was.(channel := channel)])
            && Reduce(s, SetWorkTab(id, tab)) == s.(sessions := s.sessions[id := was.(workTab := tab)])
            && Reduce(s, SetClosing(id, closing)) == s.(sessions := s.sessions[id := was.(closing := closing)])
  {
  }

  /** Attention asked for from outside: none for the active tab, the greater of old and new for others. */
  lemma AttentionAsked(s: State, id: Id, attention: Attention)
    requires id in s.sessions
    ensures var s' := Reduce(s, Attend(id, attention));
            var was, x := s.sessions[id], s'.sessions[id];
            && OnlyTouches(s, s', id) && x.(attention := was.attention) == was
            && (s.activeId == Some(id) ==> x.attention == Calm)
            && (s.activeId != Some(id) ==> x.attention in {was.attention, attention} && Rank(x.attention) >= Rank(attention)
                                           && Rank(x.attention) >= Rank(was.attention))
  {
  }

  /** The order of the attention levels, by the calmest ones they exceed. */
  function Rank(a: Attention): nat {
    (if a != Calm then 1 else 0) + (if a == Action || a == Alarm then 1 else 0) + (if a == Alarm then 1 else 0)
  }

  // ---------------------------------------------------------------- what is shown

  /** In split view both panes are shown in their order, otherwise the active tab alone. */
  lemma ShownTabs(s: State)
    requires WellLaidOut(s)
    ensures s.layout.Split? ==> Visible(s) == [s.panes.first.value, s.panes.second.value]
    ensures s.layout.Single? ==> Visible(s) == if s.activeId.Some? then [s.activeId.value] else []
  {
  }

  /** The earlier tabs of the order that are on the profile. */
  function Earlier(s: State, k: nat, profileId: string): set<nat>
    requires k <= |s.order|
  {
    set i: nat | i < k && s.order[i] in s.sessions && s.sessions[s.order[i]].profile.id == profileId
  }

  lemma {:induction false} TabsAppend(s: State, a: seq<Id>, b: seq<Id>, profileId: string)
    ensures TabsOf(s, a + b, profileId) == TabsOf(s, a, profileId) + TabsOf(s, b, profileId)
  {
    if a == [] {
      assert a + b == b;
    } else {
      assert (a + b)[1..] == a[1..] + b;
      TabsAppend(s, a[1..], b, profileId);
    }
  }

  lemma {:induction false} EarlierCount(s: State, k: nat, profileId: string)
    requires k <= |s.order|
    ensures |TabsOf(s, s.order[..k], profileId)| == |Earlier(s, k, profileId)|
  {
    hide *;
    if k == 0 {
      NoneEarlier(s, profileId);
    } else {
      var front, id := s.order[..k - 1], s.order[k - 1];
      EarlierCount(s, k - 1, profileId);
      assert s.order[..k] == front + [id];
      TabsAppend(s, front, [id], profileId);
      OneTab(s, id, profileId);
      EarlierStep(s, k - 1, profileId);
    }
  }

  lemma NoneEarlier(s: State, profileId: string)
    ensures TabsOf(s, s.order[..0], profileId) == [] && Earlier(s, 0, profileId) == {}
  {
  }

  lemma EarlierStep(s: State, k: nat, profileId: string)
    requires k < |s.order|
    ensures var hit := s.order[k] in s.sessions && s.sessions[s.order[k]].profile.id == profileId;
            |Earlier(s, k + 1, profileId)| == |Earlier(s, k, profileId)| + if hit then 1 else 0
  {
    var before := Earlier(s, k, profileId);
    var hit := s.order[k] in s.sessions && s.sessions[s.order[k]].profile.id == profileId;
    assert Earlier(s, k + 1, profileId) == if hit then before + {k} else before;
  }

  lemma OneTab(s: State, id: Id, profileId: string)
    ensures TabsOf(s, [id], profileId) == if id in s.sessions && s.sessions[id].profile.id == profileId then [id] else []
  {
    assert [id][1..] == [];
    assert TabsOf(s, [], profileId) == [];
  }

  lemma {:induction false} IndexBehind(ids: seq<Id>, id: Id, rest: seq<Id>)
    requires id !in ids
    ensures id in ids + [id] + rest && IndexOf(ids + [id] + rest, id) == |ids|
  {
    var all := ids + [id] + rest;
    assert all[|ids|] == id;
    if ids != [] {
      assert all[1..] == ids[1..] + [id] + rest && all[0] == ids[0];
      IndexBehind(ids[1..], id, rest);
    }
  }

  /** A tab whose profile has several tabs is numbered by its place among them; a lone one has the
      profile's plain name. */
  lemma NumberIsPlace(s: State, k: nat)
    requires WellLaidOut(s) && k < |s.order|
    ensures s.order[k] in s.sessions
    ensures var id := s.order[k];
            var p := s.sessions[id].profile;
            DisplayName(s, id) ==
            Some(if |Earlier(s, |s.order|, p.id)| == 1 then p.name else p.name + " #" + Decimal(|Earlier(s, k, p.id)| + 1))
  {
    hide *;
    TabAt(s, k);
    var id := s.order[k];
    var p := s.sessions[id].profile;
    var front, rest := s.order[..k], s.order[k + 1..];
    assert s.order == front + [id] + rest && s.order[..|s.order|] == s.order;
    TabsAppend(s, front + [id], rest, p.id);
    TabsAppend(s, front, [id], p.id);
    OneTab(s, id, p.id);
    EarlierCount(s, k, p.id);
    EarlierCount(s, |s.order|, p.id);
    assert id !in front;
    IndexBehind(TabsOf(s, front, p.id), id, TabsOf(s, rest, p.id));
    NumberedName(s, id);
  }

  lemma NumberedName(s: State, id: Id)
    requires id in s.sessions && id in TabsOf(s, s.order, s.sessions[id].profile.id)
    ensures var p := s.sessions[id].profile;
            var tabs := TabsOf(s, s.order, p.id);
            DisplayName(s, id) == Some(if |tabs| == 1 then p.name else p.name + " #" + Decimal(IndexOf(tabs, id) + 1))
  {
    hide TabsOf, IndexOf, Decimal;
  }
}
