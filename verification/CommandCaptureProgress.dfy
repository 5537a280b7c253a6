/** Progress of the command capture: a submitted command waits until it is confirmed, and is confirmed
  when its echo is printed. */
module CommandCaptureProgress {
  import opened Common
  import opened CommandCapture
  import opened CommandCaptureRuns
  import opened CommandCaptureEditor

  // ---------------------------------------------------------------- pruning

  lemma {:induction false} FreshAppend(a: seq<Candidate>, b: seq<Candidate>, now: int)
    ensures Fresh(a + b, now) == Fresh(a, now) + Fresh(b, now)
  {
    if a == [] {
      assert a + b == b;
    } else {
      assert (a + b)[1..] == a[1..] + b;
      FreshAppend(a[1..], b, now);
    }
  }

  lemma FreshOne(c: Candidate, now: int)
    ensures Fresh([c], now) == if now - c.queuedAt <= 15_000 then [c] else []
  {
    assert Fresh([], now) == [];
  }

  /** `kept` lists, in increasing order, the positions of the candidates of the last 15 s. */
  ghost predicate KeptAt(pending: seq<Candidate>, now: int, kept: seq<nat>) {
    && (forall i, j :: 0 <= i < j < |kept| ==> kept[i] < kept[j])
    && (forall i :: 0 <= i < |kept| ==> kept[i] < |pending|)
    && forall k: nat :: k < |pending| ==> (k in kept <==> now - pending[k].queuedAt <= 15_000)
  }

  lemma KeptSnoc(before: seq<Candidate>, c: Candidate, now: int, kept: seq<nat>)
    requires KeptAt(before, now, kept)
    ensures KeptAt(before + [c], now, kept + if now - c.queuedAt <= 15_000 then [|before|] else [])
  {
    var more := kept + if now - c.queuedAt <= 15_000 then [|before|] else [];
    forall k: nat | k < |before + [c]| ensures k in more <==> now - (before + [c])[k].queuedAt <= 15_000 {
      assert k < |before| ==> (k in more <==> k in kept);
    }
  }

  /** Pruning keeps exactly the candidates of the last 15 s, in their order. */
  lemma {:induction false} FreshExact(pending: seq<Candidate>, now: int) returns (kept: seq<nat>)
    ensures KeptAt(pending, now, kept) && |kept| == |Fresh(pending, now)|
    ensures forall i :: 0 <= i < |kept| ==> Fresh(pending, now)[i] == pending[kept[i]]
  {
    if pending == [] {
      FreshShorter(pending, now);
      kept := [];
    } else {
      hide Fresh;
      var before, c := pending[..|pending| - 1], pending[|pending| - 1];
      assert pending == before + [c];
      FreshAppend(before, [c], now);
      FreshOne(c, now);
      kept := FreshExact(before, now);
      KeptSnoc(before, c, now, kept);
      kept := kept + if now - c.queuedAt <= 15_000 then [|before|] else [];
    }
  }

  // ---------------------------------------------------------------- a place in the queue

  ghost predicate WaitsAt(pending: seq<Candidate>, c: Candidate, p: nat, ahead: nat, behind: nat) {
    p < |pending| && pending[p] == c && p <= ahead && |pending| - 1 - p <= behind
  }

  /** The candidate is queued, with at most `ahead` candidates ahead of it and `behind` behind it. */
  ghost predicate Waits(pending: seq<Candidate>, c: Candidate, ahead: nat, behind: nat) {
    exists p: nat :: WaitsAt(pending, c, p, ahead, behind)
  }

  lemma WaitsBetween(front: seq<Candidate>, c: Candidate, back: seq<Candidate>, ahead: nat, behind: nat)
    requires |front| <= ahead && |back| <= behind
    ensures Waits(front + [c] + back, c, ahead, behind)
  {
    assert WaitsAt(front + [c] + back, c, |front|, ahead, behind);
  }

  lemma WaitsSplit(pending: seq<Candidate>, c: Candidate, ahead: nat, behind: nat) returns (front: seq<Candidate>, back: seq<Candidate>)
    requires Waits(pending, c, ahead, behind)
    ensures pending == front + [c] + back && |front| <= ahead && |back| <= behind
  {
    var p: nat :| WaitsAt(pending, c, p, ahead, behind);
    front, back := pending[..p], pending[p + 1..];
  }

  lemma FreshWaits(pending: seq<Candidate>, c: Candidate, ahead: nat, behind: nat, now: int)
    requires Waits(pending, c, ahead, behind) && now - c.queuedAt <= 15_000
    ensures Waits(Fresh(pending, now), c, ahead, behind)
  {
    hide Fresh, Waits;
    var front, back := WaitsSplit(pending, c, ahead, behind);
    FreshAppend(front + [c], back, now);
    FreshAppend(front, [c], now);
    FreshOne(c, now);
    FreshShorter(front, now);
    FreshShorter(back, now);
    WaitsBetween(Fresh(front, now), c, Fresh(back, now), ahead, behind);
  }

  /** A new candidate behind the others; the oldest makes room beyond eight. */
  lemma PushWaits(pending: seq<Candidate>, c: Candidate, ahead: nat, behind: nat, last: Candidate)
    requires Waits(pending, c, ahead, behind) && behind <= 6
    ensures var queued := pending + [last];
            Waits(if |queued| > MAX_PENDING_COMMANDS then queued[1..] else queued, c, ahead, behind + 1)
  {
    var p: nat :| WaitsAt(pending, c, p, ahead, behind);
    var queued := pending + [last];
    if |queued| > MAX_PENDING_COMMANDS {
      assert WaitsAt(queued[1..], c, p - 1, ahead, behind + 1);
    } else {
      assert WaitsAt(queued, c, p, ahead, behind + 1);
    }
  }

  // ---------------------------------------------------------------- one confirmation pass

  /** One of the confirmations is the candidate's. */
  ghost predicate Answered(done: seq<Confirmation>, c: Candidate) {
    exists d :: d in done && d.command == c.command && d.submittedAt == c.submittedAt
  }

  lemma {:induction false} ScanAppend(total: Text, from: nat, a: seq<Candidate>, b: seq<Candidate>)
    ensures var x := Scan(total, from, a);
            var y := Scan(total, x.through, b);
            Scan(total, from, a + b) == ScanResult(x.rest + y.rest, x.done + y.done, y.through)
    decreases |a|
  {
    hide FirstMatch, MatchAt, MatchEnd;
    if a == [] {
      assert a + b == b;
    } else {
      assert (a + b)[1..] == a[1..] + b;
      var found := FirstMatch(total, a[0].command, from, a[0].submittedAt + 1);
      ScanAppend(total, if found.None? then from else MatchEnd(total, a[0].command, found.value), a[1..], b);
    }
  }

  lemma {:induction false} ScanThrough(total: Text, from: nat, pending: seq<Candidate>)
    ensures var r := Scan(total, from, pending); r.through == from || exists d :: d in r.done && d.end == r.through
    ensures |Scan(total, from, pending).rest| <= |pending|
    decreases |pending|
  {
    hide FirstMatch, MatchAt, MatchEnd;
    if pending != [] {
      var found := FirstMatch(total, pending[0].command, from, pending[0].submittedAt + 1);
      if found.None? {
        ScanThrough(total, from, pending[1..]);
      } else {
        var end := MatchEnd(total, pending[0].command, found.value);
        ScanThrough(total, end, pending[1..]);
        var r := Scan(total, end, pending[1..]);
        var d := Confirmation(pending[0].command, found.value, end, pending[0].submittedAt);
        assert d in [d] + r.done;
        if r.through != end {
          var x :| x in r.done && x.end == r.through;
          assert x in [d] + r.done;
        }
      }
    }
  }

  lemma ScanOne(total: Text, from: nat, c: Candidate)
    ensures var r := Scan(total, from, [c]);
            if FirstMatch(total, c.command, from, c.submittedAt + 1).Some? then r.rest == [] && Answered(r.done, c)
            else r.rest == [c] && r.through == from
  {
    hide FirstMatch, MatchAt, MatchEnd;
    assert [c][1..] == [];
    var found := FirstMatch(total, c.command, from, c.submittedAt + 1);
    if found.Some? {
      var d := Confirmation(c.command, found.value, MatchEnd(total, c.command, found.value), c.submittedAt);
      assert Scan(total, from, [c]).done == [d] + [];
      assert d in [d] + [];
    }
  }

  lemma AnsweredAmong(a: seq<Confirmation>, done: seq<Confirmation>, b: seq<Confirmation>, c: Candidate)
    requires Answered(done, c)
    ensures Answered(a + done + b, c)
  {
    var d :| d in done && d.command == c.command && d.submittedAt == c.submittedAt;
    assert d in a + done + b;
  }

  /** The pass over a queue, split at one candidate. */
  lemma ScanAround(total: Text, from: nat, front: seq<Candidate>, c: Candidate, back: seq<Candidate>)
    ensures var x := Scan(total, from, front);
            var y := Scan(total, x.through, [c]);
            var z := Scan(total, y.through, back);
            Scan(total, from, front + [c] + back) == ScanResult(x.rest + y.rest + z.rest, x.done + y.done + z.done, z.through)
  {
    hide Scan;
    ScanAppend(total, from, front + [c], back);
    ScanAppend(total, from, front, [c]);
  }

  /** A pass confirms the candidate or leaves it in its place. */
  lemma ScanKeeps(total: Text, from: nat, pending: seq<Candidate>, c: Candidate, ahead: nat, behind: nat)
    requires Waits(pending, c, ahead, behind)
    ensures var r := Scan(total, from, pending); Answered(r.done, c) || Waits(r.rest, c, ahead, behind)
  {
    hide Scan, FirstMatch, Waits, Answered;
    var front, back := WaitsSplit(pending, c, ahead, behind);
    ScanAround(total, from, front, c, back);
    var x := Scan(total, from, front);
    var y := Scan(total, x.through, [c]);
    var z := Scan(total, y.through, back);
    ScanOne(total, x.through, c);
    ScanThrough(total, from, front);
    ScanThrough(total, y.through, back);
    if y.rest == [] { AnsweredAmong(x.done, y.done, z.done, c); } else { WaitsBetween(x.rest, c, z.rest, ahead, behind); }
  }

  lemma NothingScanned(total: Text, from: nat)
    ensures Scan(total, from, []).through == from
  {
  }

  /** A pass confirms a candidate that has an echo, unless an echo of a candidate ahead of it was found
      that ends behind the start of this one. */
  lemma ScanFinds(total: Text, from: nat, pending: seq<Candidate>, c: Candidate, ahead: nat, behind: nat, i: nat)
    requires Waits(pending, c, ahead, behind) && from <= i && Qualifies(total, c.command, i, c.submittedAt + 1)
    ensures var r := Scan(total, from, pending); Answered(r.done, c) || (ahead > 0 && exists d :: d in r.done && d.end > i)
  {
    hide Scan, Waits, Answered, Qualifies;
    var front, back := WaitsSplit(pending, c, ahead, behind);
    ScanAround(total, from, front, c, back);
    var x := Scan(total, from, front);
    var y := Scan(total, x.through, [c]);
    var z := Scan(total, y.through, back);
    ScanThrough(total, from, front);
    ScanOne(total, x.through, c);
    if front == [] { assert x.through == from by { NothingScanned(total, from); } }
    if x.through <= i {
      AnsweredAmong(x.done, y.done, z.done, c);
    } else {
      var d :| d in x.done && d.end == x.through;
      assert d in x.done + y.done + z.done;
    }
  }

  // ---------------------------------------------------------------- chunks of input

  /** The chunk is a single line with an interrupt or kill-line in it. */
  predicate ClearsQueue(text: Text) { SingleLine(text) && exists i :: 0 <= i < |text| && Clears(text[i]) }

  lemma {:induction false} KeysKeepPending(filters: Text -> bool, st: State, text: Text, n: nat, now: int)
    requires n <= |text| && forall i :: 0 <= i < n ==> !IsTerminator(text[i]) && !Clears(text[i])
    ensures var x := Keys(filters, st, text, n, now); x.pending == st.pending && x.total == st.total && x.base == st.base
  {
    hide Submit, DropLastCodePoint;
    if n > 0 { KeysKeepPending(filters, st, text, n - 1, now); }
  }

  function Behind(submitted: Option<Text>): nat { if submitted.Some? then 1 else 0 }

  /** A chunk of input keeps a waiting candidate, one place further from the end if it submits another. */
  lemma FeedKeeps(filters: Text -> bool, st: State, text: Text, now: int, c: Candidate, ahead: nat, behind: nat)
    requires Waits(st.pending, c, ahead, behind) && now - c.queuedAt <= 15_000 && !ClearsQueue(text)
    requires behind + Behind(TypedCommand(filters, st, text, now)) <= 7
    ensures Waits(FeedText(filters, st, text, now).pending, c, ahead, behind + Behind(TypedCommand(filters, st, text, now)))
  {
    hide Waits, Keys, Fresh, Trim, IsSafeCommand, FeedText;
    if SingleLine(text) {
      var n := BodyLength(text);
      var line := Keys(filters, st, text, n, now);
      forall i | 0 <= i < n ensures !IsTerminator(text[i]) { assert text[..n][i] == text[i]; }
      KeysKeepPending(filters, st, text, n, now);
      FeedIsSubmit(filters, st, text, now);
      if n < |text| && TypedCommand(filters, st, text, now).Some? {
        FreshWaits(st.pending, c, ahead, behind, now);
        PushWaits(Fresh(st.pending, now), c, ahead, behind, Candidate(Trim(line.buffer), now, |st.total|));
      }
    } else {
      MalformedDropsLine(filters, st, text, now);
    }
  }

  /** A chunk of input that completes a safe command queues it last. */
  lemma FeedQueues(filters: Text -> bool, st: State, text: Text, now: int)
    requires TypedCommand(filters, st, text, now).Some?
    ensures Waits(FeedText(filters, st, text, now).pending, Candidate(TypedCommand(filters, st, text, now).value, now, |st.total|), |st.pending|, 0)
  {
    hide Keys, Fresh, Trim, IsSafeCommand, FeedText;
    var n := BodyLength(text);
    var line := Keys(filters, st, text, n, now);
    KeysBeforeTerminator(filters, st, text, n, now);
    FeedIsSubmit(filters, st, text, now);
    var c := Candidate(Trim(line.buffer), now, |st.total|);
    var x := FeedText(filters, st, text, now);
    FreshShorter(line.pending, now);
    assert x.pending[|x.pending| - 1] == c;
    assert WaitsAt(x.pending, c, |x.pending| - 1, |st.pending|, 0);
  }

  // ---------------------------------------------------------------- whole runs

  /** The command that event k submits, if any. */
  ghost function Submitted(filters: Text -> bool, events: seq<Event>, k: nat): Option<Text>
    requires k < |events|
  {
    if events[k].Typed? then TypedCommand(filters, Run(filters, events[..k]).0, events[k].text, events[k].now) else None
  }

  /** Event j submits a command: the candidate it queues. */
  ghost function CandidateOf(filters: Text -> bool, events: seq<Event>, j: nat): Candidate
    requires j < |events| && Submitted(filters, events, j).Some?
  {
    Candidate(Submitted(filters, events, j).value, events[j].now, |OutputOf(events[..j])|)
  }

  /** How many candidates waited when event j came. */
  ghost function WaitingAt(filters: Text -> bool, events: seq<Event>, j: nat): nat
    requires j < |events|
  {
    |Run(filters, events[..j]).0.pending|
  }

  /** How many commands were submitted after event j. */
  ghost function SubmittedAfter(filters: Text -> bool, events: seq<Event>, j: nat): nat
    requires j < |events|
    decreases |events|
  {
    if |events| == j + 1 then 0
    else SubmittedAfter(filters, events[..|events| - 1], j) + Behind(Submitted(filters, events, |events| - 1))
  }

  /** The event neither resets the capture nor comes more than 15 s after the submission. */
  predicate Leaves(e: Event, queuedAt: int) {
    match e
    case Typed(text, now) => now - queuedAt <= 15_000 && !ClearsQueue(text)
    case Output(_, now) => now - queuedAt <= 15_000
    case Reset => false
  }

  ghost predicate Undisturbed(events: seq<Event>, j: nat)
    requires j < |events|
  {
    events[j].Typed? && forall k :: j < k < |events| ==> Leaves(events[k], events[j].now)
  }

  lemma LastSubmitted(filters: Text -> bool, events: seq<Event>, j: nat)
    requires j < |events| - 1
    ensures Submitted(filters, events[..|events| - 1], j) == Submitted(filters, events, j)
    ensures events[..|events| - 1][..j] == events[..j]
  {
    assert events[..|events| - 1][..j] == events[..j];
  }

  /** As long as nothing resets the capture and fewer than eight commands follow within 15 s, a submitted
      command is confirmed or still waits. */
  lemma {:induction false} KeptOrConfirmed(filters: Text -> bool, events: seq<Event>, j: nat)
    requires j < |events| && Submitted(filters, events, j).Some? && Undisturbed(events, j)
    requires SubmittedAfter(filters, events, j) <= 7
    ensures var c := CandidateOf(filters, events, j);
            Answered(Run(filters, events).1, c) ||
            Waits(Run(filters, events).0.pending, c, WaitingAt(filters, events, j), SubmittedAfter(filters, events, j))
  {
    hide Run, Waits, Answered, OutputOf, FeedText, ObserveText, TypedCommand, Leaves;
    var c := CandidateOf(filters, events, j);
    var before, e := events[..|events| - 1], events[|events| - 1];
    var (st, done) := Run(filters, before);
    RunSplits(filters, events);
    if j == |events| - 1 {
      SoundRun(filters, before);
      FeedQueues(filters, st, e.text, e.now);
    } else {
      LastSubmitted(filters, events, j);
      KeptOrConfirmed(filters, before, j);
      if Answered(done, c) {
        AnsweredAmong([], done, Step(filters, st, e).1, c);
        assert [] + done + Step(filters, st, e).1 == done + Step(filters, st, e).1;
      } else {
        StepKeeps(filters, st, e, c, WaitingAt(filters, before, j), SubmittedAfter(filters, before, j));
        if Answered(Step(filters, st, e).1, c) {
          AnsweredAmong(done, Step(filters, st, e).1, [], c);
          assert done + Step(filters, st, e).1 + [] == done + Step(filters, st, e).1;
        }
      }
    }
  }

  lemma StepKeeps(filters: Text -> bool, st: State, e: Event, c: Candidate, ahead: nat, behind: nat)
    requires Waits(st.pending, c, ahead, behind) && Leaves(e, c.queuedAt)
    requires behind + (if e.Typed? then Behind(TypedCommand(filters, st, e.text, e.now)) else 0) <= 7
    ensures var (x, more) := Step(filters, st, e);
            Answered(more, c) || Waits(x.pending, c, ahead, behind + if e.Typed? then Behind(TypedCommand(filters, st, e.text, e.now)) else 0)
  {
    hide FeedText, Waits, Answered, TypedCommand, Scan, Fresh;
    match e
    case Typed(text, now) => FeedKeeps(filters, st, text, now, c, ahead, behind);
    case Output(text, now) =>
      if text != [] {
        var total := st.total + text;
        FreshWaits(st.pending, c, ahead, behind, now);
        ScanKeeps(total, Max(st.base, |total| - MAX_OUTPUT_CHARS), Fresh(st.pending, now), c, ahead, behind);
      }
  }

  /** Confirmation over whole runs: a command submitted at most 15 s ago, neither reset nor displaced by
      eight later ones, is confirmed by the output event that prints its echo inside the kept window,
      or was confirmed before.  The one exception: a command that already waited when it was submitted
      is confirmed by this event with an echo that ends behind the start of this one. */
  lemma ConfirmedWhenEchoed(filters: Text -> bool, events: seq<Event>, j: nat, i: nat)
    requires j < |events| - 1 && Submitted(filters, events, j).Some? && Undisturbed(events, j)
    requires SubmittedAfter(filters, events, j) <= 7
    requires var last := events[|events| - 1]; last.Output? && last.text != []
    requires var c, total := CandidateOf(filters, events, j), OutputOf(events);
             Qualifies(total, c.command, i, c.submittedAt + 1) &&
             i >= Max(Run(filters, events[..|events| - 1]).0.base, |total| - 32 * 1024)
    ensures var c, done := CandidateOf(filters, events, j), Run(filters, events).1;
            Answered(done, c) ||
            (WaitingAt(filters, events, j) > 0 && exists d :: d in done[|Run(filters, events[..|events| - 1]).1|..] && d.end > i)
  {
    hide Run, Waits, Answered, TypedCommand, Scan, Fresh, Qualifies;
    var c := CandidateOf(filters, events, j);
    var before, e := events[..|events| - 1], events[|events| - 1];
    var (st, done) := Run(filters, before);
    RunSplits(filters, events);
    LastSubmitted(filters, events, j);
    KeptOrConfirmed(filters, before, j);
    SoundRun(filters, before);
    var more := ObserveText(st, e.text, e.now).1;
    assert (done + more)[|done|..] == more;
    if Answered(done, c) {
      AnsweredAmong([], done, more, c);
      assert [] + done + more == done + more;
    } else {
      var total, ahead, behind := st.total + e.text, WaitingAt(filters, before, j), SubmittedAfter(filters, before, j);
      FreshWaits(st.pending, c, ahead, behind, e.now);
      ScanFinds(total, Max(st.base, |total| - MAX_OUTPUT_CHARS), Fresh(st.pending, e.now), c, ahead, behind, i);
      if Answered(more, c) {
        AnsweredAmong(done, more, [], c);
        assert done + more + [] == done + more;
      }
    }
  }

  /** What is answered is among the commands handed to the caller. */
  lemma {:induction false} AnsweredReturned(done: seq<Confirmation>, c: Candidate)
    requires Answered(done, c)
    ensures c.command in Commands(done)
  {
    var d :| d in done && d.command == c.command && d.submittedAt == c.submittedAt;
    if d != done[0] {
      assert d in done[1..];
      AnsweredReturned(done[1..], c);
    }
  }
}
