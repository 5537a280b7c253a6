/** What the keys of the command capture's line editor do (apps/worker/src/ssh/command-capture.ts):
  typing, backspace, interrupt, and the lines that are never submitted. */
module CommandCaptureEditor {
  import opened Common
  import opened CommandCapture
  import opened CommandCaptureRuns

  // ---------------------------------------------------------------- trimming

  /** Trimming cuts white space off both ends, all of it and nothing else. */
  lemma {:induction false} TrimExact(s: Text) returns (a: nat, b: nat)
    ensures a <= b <= |s| && Trim(s) == s[a..b]
    ensures forall i :: 0 <= i < a || b <= i < |s| ==> IsSpace(s[i])
    ensures a < b ==> !IsSpace(s[a]) && !IsSpace(s[b - 1])
  {
    if |s| > 0 && IsSpace(s[0]) {
      a, b := TrimExact(s[1..]);
      forall i | 0 <= i < a + 1 || b + 1 <= i < |s| ensures IsSpace(s[i]) {
        if i > 0 { assert s[1..][i - 1] == s[i]; }
      }
      assert s[1..][a..b] == s[a + 1..b + 1];
      a, b := a + 1, b + 1;
    } else if |s| > 0 && IsSpace(s[|s| - 1]) {
      a, b := TrimExact(s[..|s| - 1]);
      assert s[..|s| - 1][a..b] == s[a..b];
      forall i | 0 <= i < a || b <= i < |s| ensures IsSpace(s[i]) {
        if i < |s| - 1 { assert s[..|s| - 1][i] == s[i]; }
      }
    } else {
      a, b := 0, |s|;
      assert s[0..|s|] == s;
    }
  }

  // ---------------------------------------------------------------- typing and deleting

  /** A character that is typed as it is. */
  predicate IsPlain(u: CodeUnit) { u >= 0x20 && u != 0x7f && u != 0xfffd }

  predicate PlainText(s: Text) { forall i :: 0 <= i < |s| ==> IsPlain(s[i]) }

  lemma {:induction false} PlainKeys(filters: Text -> bool, st: State, text: Text, n: nat, now: int)
    requires n <= |text| && PlainText(text[..n]) && |st.buffer| + n <= MAX_CAPTURED_COMMAND_CHARS
    ensures Keys(filters, st, text, n, now) == st.(buffer := st.buffer + text[..n])
  {
    if n == 0 {
      assert st.buffer + text[..0] == st.buffer;
    } else {
      forall i | 0 <= i < n - 1 ensures text[..n - 1][i] == text[..n][i] {}
      PlainKeys(filters, st, text, n - 1, now);
      assert text[..n][n - 1] == text[n - 1];
      assert text[..n] == text[..n - 1] + [text[n - 1]];
      assert st.buffer + text[..n] == st.buffer + text[..n - 1] + [text[n - 1]];
    }
  }

  predicate IsLineEnd(end: Text) { end in [[CR, LF], [CR], [LF]] }

  lemma {:induction false} BodyEnds(text: Text, n: nat)
    requires n < |text| && IsTerminator(text[n]) && forall i :: 0 <= i < n ==> !IsTerminator(text[i])
    ensures BodyLength(text) == n
  {
    if n > 0 { BodyEnds(text[1..], n - 1); }
  }

  lemma LineEnds(text: Text, end: Text)
    requires PlainText(text) && IsLineEnd(end)
    ensures BodyLength(text + end) == |text| && SingleLine(text + end)
  {
    var line, n := text + end, |text|;
    forall i | 0 <= i < n ensures !IsTerminator(line[i]) && TerminatorAt(line, i) == 0 {
      assert line[i] == text[i] && IsPlain(text[i]);
    }
    forall i | n <= i < |line| ensures line[i] == end[i - n] {}
    assert line[n] == end[0];
    BodyEnds(line, n);
  }

  /** Typing a plain text and a line end submits the whole line, trimmed, exactly when that is safe. */
  lemma PlainLineSubmitted(filters: Text -> bool, st: State, text: Text, end: Text, now: int)
    requires !st.unsafeLine && PlainText(text) && IsLineEnd(end) && |st.buffer| + |text| <= MAX_CAPTURED_COMMAND_CHARS
    ensures var command := Trim(st.buffer + text);
            TypedCommand(filters, st, text + end, now) == if IsSafeCommand(filters, command) then Some(command) else None
  {
    LineEnds(text, end);
    assert (text + end)[..|text|] == text;
    PlainKeys(filters, st, text + end, |text|, now);
    hide Trim, IsSafeCommand, SingleLine, Keys;
  }

  /** One code point as JavaScript stores it: one unit, or a surrogate pair. */
  predicate IsCodePoint(s: Text) {
    || (|s| == 1 && !(0xdc00 <= s[0] <= 0xdfff))
    || (|s| == 2 && 0xd800 <= s[0] <= 0xdbff && 0xdc00 <= s[1] <= 0xdfff)
  }

  lemma DropAppended(s: Text, c: Text)
    requires IsCodePoint(c)
    ensures DropLastCodePoint(s + c) == s
  {
    var t := s + c;
    assert t[|t| - 1] == c[|c| - 1];
    if |c| == 2 { assert t[|t| - 2] == c[0]; }
    assert t[..|s|] == s;
  }

  /** Backspace undoes the typing of a character, of a surrogate pair as a whole. */
  lemma BackspaceUndoes(filters: Text -> bool, st: State, c: Text, key: CodeUnit, now: int)
    requires IsCodePoint(c) && PlainText(c) && (key == 0x08 || key == 0x7f)
    requires |st.buffer| + |c| <= MAX_CAPTURED_COMMAND_CHARS
    ensures Keys(filters, st, c + [key], |c| + 1, now) == st
  {
    var text := c + [key];
    assert text[..|c|] == c;
    PlainKeys(filters, st, text, |c|, now);
    assert text[|c|] == key;
    DropAppended(st.buffer, c);
  }

  /** A command fit for the history: 1 to 2048 characters, no control character but the tab, and nothing
      the expressions object to. */
  lemma SafeExact(filters: Text -> bool, command: Text)
    ensures IsSafeCommand(filters, command) <==>
              && 1 <= |command| <= 2_048 && filters(command)
              && forall i :: 0 <= i < |command| ==> command[i] == 0x09 || (command[i] >= 0x20 && command[i] != 0x7f)
  {
  }

  // ---------------------------------------------------------------- lines that are never submitted

  /** Escape and the other control characters, and bytes that were no UTF-8. */
  predicate Spoils(u: CodeUnit) {
    (u < 0x20 && u != 0x03 && u != 0x08 && u != 0x15 && !IsTerminator(u)) || u == 0xfffd
  }

  /** Interrupt and kill-line. */
  predicate Clears(u: CodeUnit) { u == 0x03 || u == 0x15 }

  lemma {:induction false} UnsafeStays(filters: Text -> bool, st: State, text: Text, m: nat, n: nat, now: int)
    requires m <= n <= |text| && Keys(filters, st, text, m, now).unsafeLine
    requires forall i :: m <= i < n ==> !IsTerminator(text[i]) && !Clears(text[i])
    ensures Keys(filters, st, text, n, now).unsafeLine
  {
    hide Submit, DropLastCodePoint;
    if m < n { UnsafeStays(filters, st, text, m, n - 1, now); }
  }

  lemma UnsafeUnsubmitted(filters: Text -> bool, st: State, text: Text, m: nat, now: int)
    requires m <= BodyLength(text) && Keys(filters, st, text, m, now).unsafeLine
    requires forall i :: m <= i < BodyLength(text) ==> !Clears(text[i])
    ensures TypedCommand(filters, st, text, now) == None
  {
    var n := BodyLength(text);
    forall i | m <= i < n ensures !IsTerminator(text[i]) { assert text[..n][i] == text[i]; }
    UnsafeStays(filters, st, text, m, n, now);
  }

  /** A line with an escape sequence or any other control character in it is never submitted, unless it
      was cleared afterwards. */
  lemma SpoiledNeverSubmitted(filters: Text -> bool, st: State, text: Text, k: nat, now: int)
    requires k < BodyLength(text) && Spoils(text[k])
    requires forall i :: k < i < BodyLength(text) ==> !Clears(text[i])
    ensures TypedCommand(filters, st, text, now) == None
  {
    hide Submit, DropLastCodePoint;
    assert Keys(filters, st, text, k + 1, now).unsafeLine;
    UnsafeUnsubmitted(filters, st, text, k + 1, now);
  }

  /** Nor is a line that has grown past the limit. */
  lemma TooLongNeverSubmitted(filters: Text -> bool, st: State, text: Text, k: nat, now: int)
    requires k < BodyLength(text) && IsPlain(text[k])
    requires |Keys(filters, st, text, k, now).buffer| >= MAX_CAPTURED_COMMAND_CHARS
    requires forall i :: k < i < BodyLength(text) ==> !Clears(text[i])
    ensures TypedCommand(filters, st, text, now) == None
  {
    hide Submit, DropLastCodePoint;
    assert Keys(filters, st, text, k + 1, now).unsafeLine;
    UnsafeUnsubmitted(filters, st, text, k + 1, now);
  }

  /** A chunk with text after a line end, or with two line ends, drops the line and touches nothing else. */
  lemma MalformedDropsLine(filters: Text -> bool, st: State, text: Text, now: int)
    requires !SingleLine(text)
    ensures FeedText(filters, st, text, now) == State([], false, st.total, st.base, st.pending)
  {
    MalformedIff(text);
  }

  // ---------------------------------------------------------------- clearing

  /** Interrupt and kill-line forget the line, the waiting commands and the output. */
  lemma ClearForgets(filters: Text -> bool, st: State, key: CodeUnit, now: int)
    requires Clears(key)
    ensures FeedText(filters, st, [key], now) == State([], false, st.total, |st.total|, [])
  {
    MalformedIff([key]);
    assert Keys(filters, st, [key], 0, now) == st;
  }

  ghost predicate Past(st: State, from: nat) { from <= st.base <= |st.total| }

  lemma {:induction false} RunPast(filters: Text -> bool, events: seq<Event>, k: nat, from: nat)
    requires k <= |events| && Past(Run(filters, events[..k]).0, from)
    ensures Past(Run(filters, events).0, from) && |Run(filters, events[..k]).1| <= |Run(filters, events).1|
    ensures forall m :: |Run(filters, events[..k]).1| <= m < |Run(filters, events).1| ==> Run(filters, events).1[m].start >= from
  {
    if k == |events| {
      assert events[..k] == events;
    } else {
      var before, e := events[..|events| - 1], events[|events| - 1];
      assert before[..k] == events[..k];
      RunPast(filters, before, k, from);
      SoundRun(filters, before);
      StepPast(filters, Run(filters, before).0, e, from);
      hide Run, Step, Past;
      RunSplits(filters, events);
    }
  }

  lemma RunSplits(filters: Text -> bool, events: seq<Event>)
    requires events != []
    ensures var (st, done), e := Run(filters, events[..|events| - 1]), events[|events| - 1];
            Run(filters, events) == (Step(filters, st, e).0, done + Step(filters, st, e).1)
  {
    hide Step;
  }

  lemma StepPast(filters: Text -> bool, st: State, e: Event, from: nat)
    requires Past(st, from) && forall c :: c in st.pending ==> CommandShape(c.command)
    ensures Past(Step(filters, st, e).0, from) && forall d :: d in Step(filters, st, e).1 ==> d.start >= from
  {
    hide FeedText, ObserveText, CommandShape;
    match e
    case Typed(text, now) => FeedEffect(filters, st, text, now);
    case Output(text, now) => OutputPast(st, text, now, from);
    case Reset =>
  }

  lemma OutputPast(st: State, text: Text, now: int, from: nat)
    requires Past(st, from) && forall c :: c in st.pending ==> CommandShape(c.command)
    ensures var (x, more) := ObserveText(st, text, now);
            Past(x, from) && forall d :: d in more ==> d.start >= from
  {
    hide Scan, Fresh, CommandShape, IsEcho;
    var total := st.total + text;
    ScanSound(total, Max(st.base, |total| - MAX_OUTPUT_CHARS), Fresh(st.pending, now));
  }

  /** After a reset nothing waits, and no later confirmation uses output printed before it. */
  lemma ResetForgets(filters: Text -> bool, events: seq<Event>, k: nat)
    requires k < |events| && events[k].Reset?
    ensures Run(filters, events[..k + 1]).0.pending == [] && Run(filters, events[..k + 1]).0.buffer == []
    ensures var before := Run(filters, events[..k]).1;
            |before| <= |Run(filters, events).1| &&
            forall m :: |before| <= m < |Run(filters, events).1| ==> Run(filters, events).1[m].start >= |OutputOf(events[..k])|
  {
    var prefix := events[..k + 1];
    assert prefix[..|prefix| - 1] == events[..k];
    RunSplits(filters, prefix);
    SoundRun(filters, events[..k]);
    RunPast(filters, events, k + 1, |OutputOf(events[..k])|);
  }
}
