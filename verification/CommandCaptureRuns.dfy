/** Properties of whole runs of the command capture, proved about its reference matcher. */
module CommandCaptureRuns {
  import opened Common
  import opened CommandCapture

  // ---------------------------------------------------------------- chunking independence

  /** A text whose only line terminator, if any, is at its end. */
  predicate SingleLine(text: Text) {
    forall i :: 0 <= i < |text| && TerminatorAt(text, i) > 0 ==> i + TerminatorAt(text, i) == |text|
  }

  /** The regular-expression test on the list of terminators rejects exactly the other texts. */
  lemma {:induction false} MalformedIff(text: Text)
    ensures Malformed(text) <==> !SingleLine(text)
  {
    TerminatorsFrom(text, 0);
  }

  lemma {:induction false} TerminatorsFrom(text: Text, from: nat)
    requires from <= |text| && NoTerminator(text[..from])
    ensures var ts := Terminators(text, from);
            SingleLine(text) <==> |ts| == 0 || (|ts| == 1 && ts[0].0 + ts[0].1 == |text|)
    ensures var ts := Terminators(text, from);
            |ts| > 0 ==> ts[0].0 + ts[0].1 <= |text| && (|ts| > 1 ==> ts[0].0 + ts[0].1 < |text|)
    decreases |text| - from
  {
    forall i | 0 <= i < from ensures !IsTerminator(text[i]) { assert text[i] == text[..from][i]; }
    if from < |text| {
      var n := TerminatorAt(text, from);
      if n == 0 {
        assert text[..from + 1] == text[..from] + [text[from]];
        TerminatorsFrom(text, from + 1);
      } else if from + n < |text| {
      } else {
        assert Terminators(text, from + n) == [];
      }
    }
  }

  function Concat(chunks: seq<Text>): Text {
    if chunks == [] then [] else chunks[0] + Concat(chunks[1..])
  }

  function FeedAll(filters: Text -> bool, st: State, chunks: seq<Text>, now: int): State
    decreases |chunks|
  {
    if chunks == [] then st else FeedAll(filters, FeedText(filters, st, chunks[0], now), chunks[1..], now)
  }

  /** An empty line submits nothing. */
  lemma SubmitEmptyLine(filters: Text -> bool, st: State, now: int)
    requires st.buffer == [] && !st.unsafeLine
    ensures Submit(filters, st, now) == st
  {
  }

  /** Every submission leaves an empty line. */
  lemma SubmitResets(filters: Text -> bool, st: State, now: int)
    ensures var x := Submit(filters, st, now); x.buffer == [] && !x.unsafeLine
  {
  }

  lemma {:induction false} KeysPrefix(filters: Text -> bool, st: State, a: Text, b: Text, n: nat, now: int)
    requires n <= |a|
    ensures Keys(filters, st, a + b, n, now) == Keys(filters, st, a, n, now)
  {
    if n > 0 {
      KeysPrefix(filters, st, a, b, n - 1, now);
      var x := Keys(filters, st, a, n - 1, now);
      assert Key(filters, x, a + b, n - 1, now) == Key(filters, x, a, n - 1, now);
    }
  }

  lemma {:induction false} KeysConcat(filters: Text -> bool, st: State, a: Text, b: Text, n: nat, now: int)
    requires n <= |b| && SingleLine(a + b)
    ensures Keys(filters, st, a + b, |a| + n, now) == Keys(filters, Keys(filters, st, a, |a|, now), b, n, now)
  {
    hide Submit, SingleLine;
    if n == 0 {
      KeysPrefix(filters, st, a, b, |a|, now);
    } else {
      KeysConcat(filters, st, a, b, n - 1, now);
      var x := Keys(filters, st, a + b, |a| + n - 1, now);
      assert (a + b)[|a| + n - 1] == b[n - 1];
      if n > 1 {
        assert (a + b)[|a| + n - 2] == b[n - 2];
      } else if |a| > 0 && a[|a| - 1] == CR && b[0] == LF {
        // the terminator was cut in two: the LF alone submits the empty line
        assert (a + b)[|a| - 1] == CR;
        SubmitResets(filters, Keys(filters, st, a + b, |a| - 1, now), now);
        assert x == Submit(filters, Keys(filters, st, a + b, |a| - 1, now), now);
        SubmitEmptyLine(filters, x, now);
      }
    }
  }

  lemma SingleLineParts(a: Text, b: Text)
    requires SingleLine(a + b)
    ensures SingleLine(a) && SingleLine(b)
  {
    forall i | 0 <= i < |a| && TerminatorAt(a, i) > 0 ensures i + TerminatorAt(a, i) == |a| {
      assert a[i] == (a + b)[i];
      assert i + 1 < |a| ==> a[i + 1] == (a + b)[i + 1];
      assert TerminatorAt(a + b, i) > 0;
    }
    forall i | 0 <= i < |b| && TerminatorAt(b, i) > 0 ensures i + TerminatorAt(b, i) == |b| {
      assert b[i] == (a + b)[|a| + i];
      assert i + 1 < |b| ==> b[i + 1] == (a + b)[|a| + i + 1];
      assert TerminatorAt(a + b, |a| + i) > 0;
    }
  }

  lemma FeedConcat(filters: Text -> bool, st: State, a: Text, b: Text, now: int)
    requires SingleLine(a + b)
    ensures FeedText(filters, FeedText(filters, st, a, now), b, now) == FeedText(filters, st, a + b, now)
    ensures SingleLine(b)
  {
    SingleLineParts(a, b);
    MalformedIff(a);
    MalformedIff(b);
    MalformedIff(a + b);
    KeysConcat(filters, st, a, b, |b|, now);
  }

  /** However a single line is cut into chunks, even between CR and LF, the editor ends in the same
      state with the same candidates. */
  lemma {:induction false} ChunkingIndependence(filters: Text -> bool, st: State, chunks: seq<Text>, now: int)
    requires SingleLine(Concat(chunks))
    ensures FeedAll(filters, st, chunks, now) == FeedText(filters, st, Concat(chunks), now)
    decreases |chunks|
  {
    if chunks != [] {
      FeedConcat(filters, st, chunks[0], Concat(chunks[1..]), now);
      ChunkingIndependence(filters, FeedText(filters, st, chunks[0], now), chunks[1..], now);
    }
  }

  // ---------------------------------------------------------------- soundness of whole runs

  datatype Event = Typed(text: Text, now: int) | Output(text: Text, now: int) | Reset

  function Step(filters: Text -> bool, st: State, e: Event): (State, seq<Confirmation>) {
    match e
    case Typed(text, now) => (FeedText(filters, st, text, now), [])
    case Output(text, now) => ObserveText(st, text, now)
    case Reset => (ResetAll(st), [])
  }

  function Run(filters: Text -> bool, events: seq<Event>): (State, seq<Confirmation>) {
    if events == [] then (INITIAL, [])
    else
      var (st, done) := Run(filters, events[..|events| - 1]);
      var (st', more) := Step(filters, st, events[|events| - 1]);
      (st', done + more)
  }

  /** Everything the terminal printed during the run. */
  function OutputOf(events: seq<Event>): Text {
    if events == [] then []
    else
      var e := events[|events| - 1];
      OutputOf(events[..|events| - 1]) + if e.Output? then e.text else []
  }

  function BodyLength(text: Text): (n: nat)
    ensures n <= |text| && NoTerminator(text[..n])
    ensures n < |text| ==> IsTerminator(text[n])
  {
    if text == [] || IsTerminator(text[0]) then 0
    else
      var n := 1 + BodyLength(text[1..]);
      assert forall i :: 1 <= i < n ==> text[..n][i] == text[1..][..n - 1][i - 1];
      n
  }

  /** The safe command, if any, that a chunk of input completes. */
  function TypedCommand(filters: Text -> bool, st: State, text: Text, now: int): Option<Text> {
    var n := BodyLength(text);
    if !SingleLine(text) || n == |text| then None
    else
      var line := Keys(filters, st, text, n, now);
      if !line.unsafeLine && IsSafeCommand(filters, Trim(line.buffer)) then Some(Trim(line.buffer)) else None
  }

  /** The event at which the command was submitted, with `at` characters printed before it. */
  ghost predicate SubmittedAt(filters: Text -> bool, events: seq<Event>, command: Text, at: nat) {
    exists j ::
      0 <= j < |events| && events[j].Typed? && |OutputOf(events[..j])| == at &&
      TypedCommand(filters, Run(filters, events[..j]).0, events[j].text, events[j].now) == Some(command)
  }

  predicate IsEcho(total: Text, c: Confirmation) {
    && c.start + |c.command| <= c.end <= |total|
    && total[c.start..c.start + |c.command|] == c.command
    && total[c.start + |c.command|..c.end] in [[CR, LF], [CR], [LF]]
  }

  ghost predicate Disjoint(done: seq<Confirmation>) {
    forall i, j :: 0 <= i < j < |done| ==> done[i].end <= done[j].start
  }

  ghost predicate Sound(filters: Text -> bool, events: seq<Event>, st: State, done: seq<Confirmation>) {
    && st.total == OutputOf(events) && st.base <= |st.total| && |st.pending| <= MAX_PENDING_COMMANDS
    && (forall c :: c in st.pending ==>
          CommandShape(c.command) && c.submittedAt <= |st.total| && SubmittedAt(filters, events, c.command, c.submittedAt))
    && (forall c :: c in done ==>
          IsEcho(st.total, c) && c.submittedAt < c.end <= st.base && SubmittedAt(filters, events, c.command, c.submittedAt))
    && Disjoint(done)
  }

  /** Without a terminator a chunk can only keep or drop candidates. */
  lemma {:induction false} KeysBeforeTerminator(filters: Text -> bool, st: State, text: Text, n: nat, now: int)
    requires n <= |text| && NoTerminator(text[..n])
    ensures var x := Keys(filters, st, text, n, now);
            x.total == st.total && ((x.pending == st.pending && x.base == st.base) || (x.pending == [] && x.base == |st.total|))
  {
    hide Submit, DropLastCodePoint;
    if n > 0 {
      assert text[..n][n - 1] == text[n - 1];
      forall i | 0 <= i < n - 1 ensures text[..n - 1][i] == text[..n][i] {}
      KeysBeforeTerminator(filters, st, text, n - 1, now);
    }
  }

  /** What a chunk of input can add to the queue. */
  lemma FeedEffect(filters: Text -> bool, st: State, text: Text, now: int)
    ensures var x := FeedText(filters, st, text, now);
            && x.total == st.total && (x.base == st.base || x.base == |st.total|)
            && (|st.pending| <= MAX_PENDING_COMMANDS ==> |x.pending| <= MAX_PENDING_COMMANDS)
            && forall c :: c in x.pending ==>
                 c in st.pending ||
                 (TypedCommand(filters, st, text, now) == Some(c.command) && c.submittedAt == |st.total|)
  {
    MalformedIff(text);
    var n := BodyLength(text);
    if SingleLine(text) {
      KeysBeforeTerminator(filters, st, text, n, now);
      FeedIsSubmit(filters, st, text, now);
      FreshShorter(Keys(filters, st, text, n, now).pending, now);
    }
  }

  lemma {:induction false} FreshShorter(pending: seq<Candidate>, now: int)
    ensures |Fresh(pending, now)| <= |pending|
  {
    if pending != [] { FreshShorter(pending[1..], now); }
  }

  lemma FeedIsSubmit(filters: Text -> bool, st: State, text: Text, now: int)
    requires SingleLine(text)
    ensures var n := BodyLength(text);
            var line := Keys(filters, st, text, n, now);
            FeedText(filters, st, text, now) == if n == |text| then line else Submit(filters, line, now)
  {
    MalformedIff(text);
    var n := BodyLength(text);
    if n < |text| {
      assert n + TerminatorAt(text, n) == |text|;
      assert n == 0 || !IsTerminator(text[n - 1]) by {
        if n > 0 { assert text[..n][n - 1] == text[n - 1]; }
      }
      var line := Keys(filters, st, text, n, now);
      assert Keys(filters, st, text, n + 1, now) == Submit(filters, line, now);
      if n + 2 == |text| {
        assert Keys(filters, st, text, n + 2, now) == Key(filters, Keys(filters, st, text, n + 1, now), text, n + 1, now);
      }
    }
  }

  lemma MatchIsEcho(total: Text, command: Text, i: nat, submittedAt: nat)
    requires MatchAt(total, command, i)
    ensures IsEcho(total, Confirmation(command, i, MatchEnd(total, command, i), submittedAt))
  {
    var terminator := total[i + |command|..MatchEnd(total, command, i)];
    assert terminator == [CR, LF] || terminator == [CR] || terminator == [LF];
  }

  ghost predicate ScanOutcome(total: Text, from: nat, pending: seq<Candidate>, r: ScanResult) {
    && from <= r.through <= |total| && |r.rest| <= |pending|
    && (forall c :: c in r.rest ==> c in pending)
    && (forall d :: d in r.done ==> Answers(total, from, pending, d) && d.end <= r.through)
    && Disjoint(r.done)
  }

  /** A confirmation that answers one of the candidates. */
  ghost predicate Answers(total: Text, from: nat, pending: seq<Candidate>, d: Confirmation) {
    IsEcho(total, d) && from <= d.start && d.submittedAt < d.end &&
    exists c :: c in pending && c.command == d.command && c.submittedAt == d.submittedAt
  }

  /** A confirmation before a sound rest of the pass. */
  lemma FoundSound(total: Text, from: nat, pending: seq<Candidate>, d: Confirmation, r: ScanResult)
    requires pending != [] && d.command == pending[0].command && d.submittedAt == pending[0].submittedAt
    requires IsEcho(total, d) && from <= d.start && d.submittedAt < d.end
    requires ScanOutcome(total, d.end, pending[1..], r)
    ensures ScanOutcome(total, from, pending, r.(done := [d] + r.done))
  {
    assert d.start <= d.end;
    hide IsEcho;
    assert pending == [pending[0]] + pending[1..];
    assert pending[0] in pending && Answers(total, from, pending, d);
    forall x | x in r.done ensures Answers(total, from, pending, x) && d.end <= x.start && x.end <= r.through {
      assert Answers(total, d.end, pending[1..], x);
      var c :| c in pending[1..] && c.command == x.command && c.submittedAt == x.submittedAt;
      assert c in pending;
    }
  }

  /** One confirmation pass: the echoes found lie left to right between `from` and the new base. */
  lemma {:induction false} ScanSound(total: Text, from: nat, pending: seq<Candidate>)
    requires from <= |total| && forall c :: c in pending ==> CommandShape(c.command)
    ensures ScanOutcome(total, from, pending, Scan(total, from, pending))
    decreases |pending|
  {
    hide FirstMatch, MatchAt, MatchEnd, IsEcho;
    if pending != [] {
      var c := pending[0];
      var found := FirstMatch(total, c.command, from, c.submittedAt + 1);
      if found.None? {
        ScanSound(total, from, pending[1..]);
      } else {
        var end := MatchEnd(total, c.command, found.value);
        ScanSound(total, end, pending[1..]);
        MatchIsEcho(total, c.command, found.value, c.submittedAt);
        FoundSound(total, from, pending, Confirmation(c.command, found.value, end, c.submittedAt), Scan(total, end, pending[1..]));
      }
    }
  }

  /** A candidate that stays in the queue has no echo left anywhere in the output that may still be
      searched: the pass misses nothing. */
  lemma {:induction false} ScanComplete(total: Text, from: nat, pending: seq<Candidate>)
    ensures from <= Scan(total, from, pending).through
    ensures forall c :: c in Scan(total, from, pending).rest ==>
              FirstMatch(total, c.command, Scan(total, from, pending).through, c.submittedAt + 1) == None
    decreases |pending|
  {
    hide MatchAt, MatchEnd, FirstMatch;
    if pending != [] {
      var c := pending[0];
      var found := FirstMatch(total, c.command, from, c.submittedAt + 1);
      if found.None? {
        ScanComplete(total, from, pending[1..]);
      } else {
        ScanComplete(total, MatchEnd(total, c.command, found.value), pending[1..]);
      }
    }
  }

  /** No waiting candidate has an echo in the output that may still be searched. */
  ghost predicate Exhausted(st: State) {
    forall c :: c in st.pending ==> FirstMatch(st.total, c.command, st.base, c.submittedAt + 1) == None
  }

  lemma NothingPastEnd(total: Text, command: Text, from: nat, minimumEnd: int)
    requires from >= |total| || minimumEnd > |total|
    ensures FirstMatch(total, command, from, minimumEnd) == None
  {
  }

  lemma FeedExhausted(filters: Text -> bool, st: State, text: Text, now: int)
    requires Exhausted(st)
    ensures Exhausted(FeedText(filters, st, text, now))
  {
    hide FeedText, FirstMatch, TypedCommand;
    var x := FeedText(filters, st, text, now);
    FeedEffect(filters, st, text, now);
    forall c | c in x.pending ensures FirstMatch(x.total, c.command, x.base, c.submittedAt + 1) == None {
      if x.base == |st.total| || c !in st.pending { NothingPastEnd(x.total, c.command, x.base, c.submittedAt + 1); }
    }
  }

  lemma OutputExhausted(st: State, text: Text, now: int)
    requires Exhausted(st)
    ensures Exhausted(ObserveText(st, text, now).0)
  {
    hide FirstMatch, Scan, Fresh;
    var total := st.total + text;
    ScanComplete(total, Max(st.base, |total| - MAX_OUTPUT_CHARS), Fresh(st.pending, now));
  }

  /** The last event, in terms of the run before it. */
  lemma LastStep(filters: Text -> bool, events: seq<Event>)
    requires events != []
    ensures Run(filters, events).0 == Step(filters, Run(filters, events[..|events| - 1]).0, events[|events| - 1]).0
  {
    hide Step;
  }

  /** Completeness over every run: a command that still waits has not been echoed in what may still be
      searched, so no confirmation is ever overdue. */
  lemma {:induction false} CompleteRun(filters: Text -> bool, events: seq<Event>)
    ensures Exhausted(Run(filters, events).0)
  {
    if events != [] {
      hide Run, Exhausted, FeedText, ObserveText;
      LastStep(filters, events);
      CompleteRun(filters, events[..|events| - 1]);
      var st := Run(filters, events[..|events| - 1]).0;
      match events[|events| - 1]
      case Typed(text, now) => FeedExhausted(filters, st, text, now);
      case Output(text, now) => OutputExhausted(st, text, now);
      case Reset => ResetExhausted(st);
    }
  }

  lemma ResetExhausted(st: State)
    ensures Exhausted(ResetAll(st))
  {
  }

  lemma EchoStable(total: Text, more: Text, c: Confirmation)
    requires IsEcho(total, c)
    ensures IsEcho(total + more, c)
  {
    assert (total + more)[c.start..c.start + |c.command|] == total[c.start..c.start + |c.command|];
    assert (total + more)[c.start + |c.command|..c.end] == total[c.start + |c.command|..c.end];
  }

  lemma SubmittedLater(filters: Text -> bool, events: seq<Event>, e: Event, command: Text, at: nat)
    requires SubmittedAt(filters, events, command, at)
    ensures SubmittedAt(filters, events + [e], command, at)
  {
    var j :|
      0 <= j < |events| && events[j].Typed? && |OutputOf(events[..j])| == at &&
      TypedCommand(filters, Run(filters, events[..j]).0, events[j].text, events[j].now) == Some(command);
    assert (events + [e])[..j] == events[..j] && (events + [e])[j] == events[j];
  }

  /** Sliding-window soundness over every run: the confirmed commands, each with its terminator, are
      pairwise disjoint substrings of the output in left-to-right order, each was typed and submitted
      by an input event of the run, and each echo ends after the output printed before that event. */
  lemma {:induction false} SoundRun(filters: Text -> bool, events: seq<Event>)
    ensures Sound(filters, events, Run(filters, events).0, Run(filters, events).1)
  {
    if events != [] {
      var before, e := events[..|events| - 1], events[|events| - 1];
      assert events == before + [e];
      SoundRun(filters, before);
      var (st, done) := Run(filters, before);
      var (st', more) := Step(filters, st, e);
      forall command, at | SubmittedAt(filters, before, command, at)
        ensures SubmittedAt(filters, events, command, at)
      {
        SubmittedLater(filters, before, e, command, at);
      }
      match e
      case Typed(text, now) => SoundTyped(filters, before, e, st, done);
      case Output(text, now) => SoundOutput(filters, before, e, st, done);
      case Reset =>
    }
  }

  lemma SafeIsShape(filters: Text -> bool, command: Text)
    requires IsSafeCommand(filters, command)
    ensures CommandShape(command)
  {
    forall i | 0 <= i < |command| ensures !IsTerminator(command[i]) { assert !IsForbiddenControl(command[i]); }
  }

  lemma SoundTyped(filters: Text -> bool, before: seq<Event>, e: Event, st: State, done: seq<Confirmation>)
    requires e.Typed? && st == Run(filters, before).0 && Sound(filters, before, st, done)
    ensures Sound(filters, before + [e], FeedText(filters, st, e.text, e.now), done)
  {
    var events := before + [e];
    assert events[..|before|] == before;
    FeedEffect(filters, st, e.text, e.now);
    forall command, at | SubmittedAt(filters, before, command, at)
      ensures SubmittedAt(filters, events, command, at)
    {
      SubmittedLater(filters, before, e, command, at);
    }
    forall c | c in FeedText(filters, st, e.text, e.now).pending
      ensures CommandShape(c.command) && SubmittedAt(filters, events, c.command, c.submittedAt)
    {
      if c !in st.pending {
        SafeIsShape(filters, c.command);
        assert events[|before|].Typed? && |OutputOf(events[..|before|])| == c.submittedAt;
      }
    }
  }

  lemma SoundOutput(filters: Text -> bool, before: seq<Event>, e: Event, st: State, done: seq<Confirmation>)
    requires e.Output? && Sound(filters, before, st, done)
    ensures var (st', more) := ObserveText(st, e.text, e.now);
            Sound(filters, before + [e], st', done + more)
  {
    hide IsEcho, SubmittedAt, Scan, Fresh;
    var events := before + [e];
    assert events[..|before|] == before;
    forall command, at | SubmittedAt(filters, before, command, at)
      ensures SubmittedAt(filters, events, command, at)
    {
      SubmittedLater(filters, before, e, command, at);
    }
    var total := st.total + e.text;
    forall c | c in done ensures IsEcho(total, c) { EchoStable(st.total, e.text, c); }
    if e.text == [] {
      assert done + [] == done && total == st.total;
    } else {
      FreshShorter(st.pending, e.now);
      ScanSound(total, Max(st.base, |total| - MAX_OUTPUT_CHARS), Fresh(st.pending, e.now));
    }
  }
}
