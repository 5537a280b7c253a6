/** Terminal command capture (apps/worker/src/ssh/command-capture.ts).

  The class `TerminalCommandCapture` is the source's streaming matcher: it keeps at most 32K of
  output and rebases the offsets of its pending candidates whenever the window moves.  The
  functions above it are a reference matcher that keeps the whole output stream and absolute
  positions; every method of the class is proved to do what the reference does, and the properties
  of whole runs are proved about the reference. */
module CommandCapture {
  import opened Common

  /** A UTF-16 code unit: JavaScript strings are indexed by these. */
  type CodeUnit = u: int | 0 <= u < 0x1_0000
  type Text = seq<CodeUnit>

  const MAX_CAPTURED_COMMAND_CHARS := 2_048
  const MAX_PENDING_COMMANDS := 8
  const MAX_OUTPUT_CHARS := 32 * 1024
  const CANDIDATE_TTL_MS := 15_000
  const LOOK_BACK := 512
  const CR: CodeUnit := 0x0d
  const LF: CodeUnit := 0x0a

  // ---------------------------------------------------------------- matching an echoed line

  predicate IsTerminator(u: CodeUnit) { u == CR || u == LF }

  /** Length of the match of `\r\n|\r|\n` at index i, 0 when there is none. */
  function TerminatorAt(s: Text, i: nat): (n: nat)
    ensures n > 0 <==> i < |s| && IsTerminator(s[i])
    ensures n > 0 ==> i + n <= |s| && n <= 2
    ensures n == 2 <==> i + 1 < |s| && s[i] == CR && s[i + 1] == LF
    ensures forall j :: i <= j < i + n ==> IsTerminator(s[j])
  {
    if i >= |s| then 0
    else if s[i] == CR then if i + 1 < |s| && s[i + 1] == LF then 2 else 1
    else if s[i] == LF then 1
    else 0
  }

  predicate NoTerminator(s: Text) { forall i :: 0 <= i < |s| ==> !IsTerminator(s[i]) }

  /** What `isSafeCommandForHistory` guarantees about the text it accepts. */
  predicate CommandShape(command: Text) {
    1 <= |command| <= MAX_CAPTURED_COMMAND_CHARS && NoTerminator(command)
  }

  /** The command followed by a line terminator occurs in s at index i. */
  predicate MatchAt(s: Text, command: Text, i: nat) {
    i + |command| < |s| && s[i..i + |command|] == command && IsTerminator(s[i + |command|])
  }

  function MatchEnd(s: Text, command: Text, i: nat): (e: nat)
    requires MatchAt(s, command, i)
    ensures i + |command| < e <= i + |command| + 2 && e <= |s|
    ensures forall j :: i + |command| <= j < e ==> IsTerminator(s[j])
  {
    i + |command| + TerminatorAt(s, i + |command|)
  }

  predicate Qualifies(s: Text, command: Text, i: nat, minimumEnd: int) {
    MatchAt(s, command, i) && MatchEnd(s, command, i) >= minimumEnd
  }

  /** The simple search: the first match at or after `from` that ends at or after `minimumEnd`. */
  function FirstMatch(s: Text, command: Text, from: nat, minimumEnd: int): (r: Option<nat>)
    ensures r.Some? ==> from <= r.value && Qualifies(s, command, r.value, minimumEnd)
    ensures r.Some? ==> forall i :: from <= i < r.value ==> !Qualifies(s, command, i, minimumEnd)
    ensures r.None? ==> forall i :: from <= i ==> !Qualifies(s, command, i, minimumEnd)
    decreases |s| - from
  {
    if from >= |s| then None
    else if Qualifies(s, command, from, minimumEnd) then Some(from)
    else FirstMatch(s, command, from + 1, minimumEnd)
  }

  /** Two occurrences of one echoed line never overlap, so a scan that resumes at the end of a match
      misses none. */
  lemma MatchesDisjoint(s: Text, command: Text, i: nat, j: nat)
    requires CommandShape(command) && MatchAt(s, command, i) && MatchAt(s, command, j) && i < j
    ensures MatchEnd(s, command, i) <= j
  {
    forall k | j <= k < j + |command|
      ensures !IsTerminator(s[k])
    {
      assert s[k] == s[j..j + |command|][k - j];
    }
    assert !(j <= i + |command| < j + |command|);
  }

  lemma SkipUnqualified(s: Text, command: Text, a: nat, b: nat, minimumEnd: int)
    requires a <= b
    requires forall i :: a <= i < b ==> !Qualifies(s, command, i, minimumEnd)
    ensures FirstMatch(s, command, a, minimumEnd) == FirstMatch(s, command, b, minimumEnd)
  {
    var x, y := FirstMatch(s, command, a, minimumEnd), FirstMatch(s, command, b, minimumEnd);
    if x.Some? && y.Some? {
      assert !(x.value < y.value) && !(y.value < x.value);
    }
  }

  /** The look-back window loses nothing: no match that starts before it can end late enough. */
  lemma LookBackSuffices(s: Text, command: Text, lo: nat, searchFrom: nat, minimumEnd: int)
    requires searchFrom > 0 ==> searchFrom + |command| + 2 <= minimumEnd
    ensures FirstMatch(s, command, lo, minimumEnd) == FirstMatch(s, command, Max(lo, searchFrom), minimumEnd)
  {
    SkipUnqualified(s, command, lo, Max(lo, searchFrom), minimumEnd);
  }

  /** A window `s[base..]` holds the same matches as the stream s, shifted by base. */
  lemma WindowMatch(s: Text, command: Text, base: nat, i: nat, minimumEnd: int, absoluteEnd: int)
    requires base <= |s|
    requires minimumEnd == Max(0, absoluteEnd - base)
    ensures Qualifies(s[base..], command, i, minimumEnd) <==> Qualifies(s, command, base + i, absoluteEnd)
    ensures MatchAt(s[base..], command, i) ==> MatchAt(s, command, base + i) &&
                                               MatchEnd(s[base..], command, i) + base == MatchEnd(s, command, base + i)
  {
    if i + |command| < |s| - base {
      assert s[base..][i..i + |command|] == s[base + i..base + i + |command|];
    }
  }

  lemma WindowSearch(s: Text, command: Text, base: nat, from: nat, minimumEnd: int, absoluteEnd: int)
    requires base <= |s|
    requires minimumEnd == Max(0, absoluteEnd - base)
    ensures var r := FirstMatch(s[base..], command, from, minimumEnd);
            FirstMatch(s, command, base + from, absoluteEnd) == if r.None? then None else Some(base + r.value)
  {
    hide FirstMatch, Qualifies, MatchAt, MatchEnd;
    var r := FirstMatch(s[base..], command, from, minimumEnd);
    var q := FirstMatch(s, command, base + from, absoluteEnd);
    if r.Some? { WindowMatch(s, command, base, r.value, minimumEnd, absoluteEnd); }
    if q.Some? {
      WindowMatch(s, command, base, q.value - base, minimumEnd, absoluteEnd);
      assert Qualifies(s[base..], command, q.value - base, minimumEnd);
    }
  }

  /** One turn of a global-regexp scan: the next match answers the search if it ends late enough,
      otherwise the search may resume at its end. */
  lemma NextMatch(s: Text, command: Text, from: nat, minimumEnd: int)
    requires CommandShape(command)
    ensures var next := FirstMatch(s, command, from, 0);
            FirstMatch(s, command, from, minimumEnd) ==
            if next.None? then None
            else if MatchEnd(s, command, next.value) >= minimumEnd then next
            else FirstMatch(s, command, MatchEnd(s, command, next.value), minimumEnd)
  {
    var next := FirstMatch(s, command, from, 0);
    forall i | from <= i && (next.None? || i < next.value)
      ensures !MatchAt(s, command, i)
    {
      assert !Qualifies(s, command, i, 0);
    }
    if next.Some? {
      SkipUnqualified(s, command, from, next.value, minimumEnd);
      if MatchEnd(s, command, next.value) < minimumEnd {
        forall i | next.value < i < MatchEnd(s, command, next.value)
          ensures !MatchAt(s, command, i)
        {
          if MatchAt(s, command, i) { MatchesDisjoint(s, command, next.value, i); }
        }
        SkipUnqualified(s, command, next.value, MatchEnd(s, command, next.value), minimumEnd);
      }
    }
  }

  /** The same turn, taken on the suffix that starts at searchFrom. */
  lemma NextMatchInSuffix(s: Text, command: Text, searchFrom: nat, lastIndex: nat, minimumEnd: int)
    requires CommandShape(command) && searchFrom <= |s|
    ensures var next := FirstMatch(s[searchFrom..], command, lastIndex, 0);
            if next.None? then FirstMatch(s, command, searchFrom + lastIndex, minimumEnd) == None
            else
              var end := MatchEnd(s[searchFrom..], command, next.value);
              FirstMatch(s, command, searchFrom + lastIndex, minimumEnd) ==
              if searchFrom + end >= minimumEnd then Some(searchFrom + next.value)
              else FirstMatch(s, command, searchFrom + end, minimumEnd)
    ensures var next := FirstMatch(s[searchFrom..], command, lastIndex, 0);
            next.Some? ==> MatchAt(s, command, searchFrom + next.value) &&
                           MatchEnd(s, command, searchFrom + next.value) == searchFrom + MatchEnd(s[searchFrom..], command, next.value)
  {
    hide FirstMatch, MatchAt, MatchEnd;
    var next := FirstMatch(s[searchFrom..], command, lastIndex, 0);
    WindowSearch(s, command, searchFrom, lastIndex, 0, 0);
    NextMatch(s, command, searchFrom + lastIndex, minimumEnd);
    if next.Some? { WindowMatch(s, command, searchFrom, next.value, 0, 0); }
  }

  /** The `pattern.exec` loop: it walks over non-overlapping matches of a suffix of the window, and
      finds exactly what the simple search finds. */
  method Search(output: Text, command: Text, searchFrom: nat, minimumMatchEnd: int) returns (matchEnd: Option<nat>)
    requires CommandShape(command) && searchFrom <= |output|
    ensures var r := FirstMatch(output, command, searchFrom, minimumMatchEnd);
            matchEnd == if r.None? then None else Some(MatchEnd(output, command, r.value))
  {
    hide FirstMatch, MatchAt, MatchEnd;
    var search := output[searchFrom..];
    var lastIndex := 0;
    while true
      invariant lastIndex <= |search|
      invariant FirstMatch(output, command, searchFrom, minimumMatchEnd) ==
                FirstMatch(output, command, searchFrom + lastIndex, minimumMatchEnd)
      decreases |search| - lastIndex
    {
      var found := FirstMatch(search, command, lastIndex, 0);
      NextMatchInSuffix(output, command, searchFrom, lastIndex, minimumMatchEnd);
      if found.None? { return None; }
      var end := searchFrom + MatchEnd(search, command, found.value);
      if end >= minimumMatchEnd { return Some(end); }
      lastIndex := MatchEnd(search, command, found.value);
    }
  }

  // ---------------------------------------------------------------- the reference matcher

  /** A submitted line that waits for its echo; submittedAt is the length of the whole output stream
      at the moment the line was submitted. */
  datatype Candidate = Candidate(command: Text, queuedAt: int, submittedAt: nat)

  datatype Confirmation = Confirmation(command: Text, start: nat, end: nat, submittedAt: nat)

  /** Reference state: the line editor, the whole output stream, the position before which output is
      no longer searched, and the candidates in queue order. */
  datatype State = State(buffer: Text, unsafeLine: bool, total: Text, base: nat, pending: seq<Candidate>)

  const INITIAL := State([], false, [], 0, [])

  /** The checks of `isSafeCommandForHistory`; `filters` stands for its regular expressions. */
  predicate IsSafeCommand(filters: Text -> bool, command: Text) {
    && 0 < |command| <= MAX_CAPTURED_COMMAND_CHARS
    && (forall i :: 0 <= i < |command| ==> !IsForbiddenControl(command[i]))
    && filters(command)
  }

  predicate IsForbiddenControl(u: CodeUnit) {
    u <= 0x08 || 0x0a <= u <= 0x1f || u == 0x7f
  }

  /** `String.prototype.trim`. */
  function Trim(s: Text): Text {
    if |s| > 0 && IsSpace(s[0]) then Trim(s[1..])
    else if |s| > 0 && IsSpace(s[|s| - 1]) then Trim(s[..|s| - 1])
    else s
  }

  /** The string without its last code point: a surrogate pair goes as one. */
  function DropLastCodePoint(s: Text): Text {
    if |s| == 0 then s
    else if |s| >= 2 && 0xdc00 <= s[|s| - 1] <= 0xdfff && 0xd800 <= s[|s| - 2] <= 0xdbff then s[..|s| - 2]
    else s[..|s| - 1]
  }

  function Fresh(pending: seq<Candidate>, now: int): (r: seq<Candidate>)
    ensures forall c :: c in r <==> c in pending && now - c.queuedAt <= CANDIDATE_TTL_MS
  {
    if pending == [] then []
    else if now - pending[0].queuedAt <= CANDIDATE_TTL_MS then [pending[0]] + Fresh(pending[1..], now)
    else Fresh(pending[1..], now)
  }

  function ResetLine(st: State): State { st.(buffer := [], unsafeLine := false) }

  /** `reset`: everything seen so far will never be searched again. */
  function ResetAll(st: State): State { State([], false, st.total, |st.total|, []) }

  /** A line terminator was typed. */
  function Submit(filters: Text -> bool, st: State, now: int): State {
    var command := Trim(st.buffer);
    if !st.unsafeLine && IsSafeCommand(filters, command) then
      var queued := Fresh(st.pending, now) + [Candidate(command, now, |st.total|)];
      ResetLine(st.(pending := if |queued| > MAX_PENDING_COMMANDS then queued[1..] else queued))
    else ResetLine(st)
  }

  /** The effect of code unit i of a chunk. */
  function Key(filters: Text -> bool, st: State, text: Text, i: nat, now: int): State
    requires i < |text|
  {
    var u := text[i];
    if IsTerminator(u) then
      if u == LF && i > 0 && text[i - 1] == CR then st else Submit(filters, st, now)
    else if u == 0x08 || u == 0x7f then st.(buffer := DropLastCodePoint(st.buffer))
    else if u == 0x03 || u == 0x15 then ResetAll(st)
    else if u < 0x20 || u == 0xfffd then st.(unsafeLine := true)
    else if |st.buffer| < MAX_CAPTURED_COMMAND_CHARS then st.(buffer := st.buffer + [u])
    else st.(unsafeLine := true)
  }

  function Keys(filters: Text -> bool, st: State, text: Text, n: nat, now: int): State
    requires n <= |text|
  {
    if n == 0 then st else Key(filters, Keys(filters, st, text, n - 1, now), text, n - 1, now)
  }

  /** All matches of `\r\n|\r|\n` as (index, length). */
  function Terminators(s: Text, from: nat): seq<(nat, nat)>
    decreases |s| - from
  {
    if from >= |s| then []
    else
      var n := TerminatorAt(s, from);
      if n > 0 then [(from, n)] + Terminators(s, from + n) else Terminators(s, from + 1)
  }

  predicate Malformed(text: Text) {
    var terminators := Terminators(text, 0);
    |terminators| > 1 || (|terminators| > 0 && terminators[0].0 + terminators[0].1 < |text|)
  }

  function FeedText(filters: Text -> bool, st: State, text: Text, now: int): State {
    if text == [] then st
    else if Malformed(text) then ResetLine(st)
    else Keys(filters, st, text, |text|, now)
  }

  datatype ScanResult = ScanResult(rest: seq<Candidate>, done: seq<Confirmation>, through: nat)

  /** The naive confirmation pass: candidates in queue order, each looking in the whole stream for the
      first echo that starts at or after `from` and ends after its submission. */
  function Scan(total: Text, from: nat, pending: seq<Candidate>): ScanResult
    decreases |pending|
  {
    if pending == [] then ScanResult([], [], from)
    else
      var c := pending[0];
      var found := FirstMatch(total, c.command, from, c.submittedAt + 1);
      if found.None? then
        var r := Scan(total, from, pending[1..]);
        r.(rest := [c] + r.rest)
      else
        var end := MatchEnd(total, c.command, found.value);
        var r := Scan(total, end, pending[1..]);
        r.(done := [Confirmation(c.command, found.value, end, c.submittedAt)] + r.done)
  }

  function ObserveText(st: State, text: Text, now: int): (State, seq<Confirmation>) {
    if text == [] then (st, [])
    else
      var total := st.total + text;
      var r := Scan(total, Max(st.base, |total| - MAX_OUTPUT_CHARS), Fresh(st.pending, now));
      (st.(total := total, base := r.through, pending := r.rest), r.done)
  }

  lemma ScanStep(total: Text, from: nat, pending: seq<Candidate>, i: nat)
    requires i < |pending|
    ensures var c := pending[i];
            var found := FirstMatch(total, c.command, from, c.submittedAt + 1);
            var r := Scan(total, from, pending[i..]);
            if found.None? then
              r == Scan(total, from, pending[i + 1..]).(rest := [c] + Scan(total, from, pending[i + 1..]).rest)
            else
              var s := Scan(total, MatchEnd(total, c.command, found.value), pending[i + 1..]);
              r.rest == s.rest && r.through == s.through && Commands(r.done) == [c.command] + Commands(s.done)
  {
    hide FirstMatch, MatchAt, MatchEnd;
    assert pending[i..][1..] == pending[i + 1..];
  }

  lemma ScanEnds(total: Text, from: nat, pending: seq<Candidate>)
    ensures Scan(total, from, pending[|pending|..]) == ScanResult([], [], from) && Commands([]) == []
  {
  }

  function Commands(done: seq<Confirmation>): seq<Text> {
    if done == [] then [] else [done[0].command] + Commands(done[1..])
  }

  // ---------------------------------------------------------------- the streaming matcher

  datatype PendingCommand = PendingCommand(command: Text, queuedAt: int, searchFrom: nat, minimumMatchEnd: nat)

  /** How a stored candidate represents a reference candidate, given the window's start and end. */
  ghost predicate Represents(p: PendingCommand, c: Candidate, base: nat, length: nat) {
    && p.command == c.command && p.queuedAt == c.queuedAt
    && CommandShape(c.command)
    && c.submittedAt <= length
    && p.minimumMatchEnd == Max(0, c.submittedAt + 1 - base)
    && (p.searchFrom > 0 ==> p.searchFrom + |p.command| + LOOK_BACK + 1 <= p.minimumMatchEnd)
  }

  ghost predicate RepresentsAll(ps: seq<PendingCommand>, cs: seq<Candidate>, base: nat, length: nat) {
    |ps| == |cs| && forall i :: 0 <= i < |ps| ==> Represents(ps[i], cs[i], base, length)
  }

  function Rebased(p: PendingCommand, removed: nat): PendingCommand {
    p.(searchFrom := Max(0, p.searchFrom - removed), minimumMatchEnd := Max(0, p.minimumMatchEnd - removed))
  }

  /** Clamped subtractions compose: a candidate rebased by any amount still represents the same
      absolute candidate. */
  lemma RebaseRepresents(p: PendingCommand, c: Candidate, base: nat, removed: nat, length: nat)
    requires Represents(p, c, base, length)
    ensures Represents(Rebased(p, removed), c, base + removed, length)
  {
  }

  function FreshPending(ps: seq<PendingCommand>, now: int): seq<PendingCommand> {
    if ps == [] then []
    else if now - ps[0].queuedAt <= CANDIDATE_TTL_MS then [ps[0]] + FreshPending(ps[1..], now)
    else FreshPending(ps[1..], now)
  }

  lemma FreshRepresents(ps: seq<PendingCommand>, cs: seq<Candidate>, base: nat, length: nat, now: int)
    requires RepresentsAll(ps, cs, base, length)
    ensures RepresentsAll(FreshPending(ps, now), Fresh(cs, now), base, length)
  {
    if ps != [] { FreshRepresents(ps[1..], cs[1..], base, length, now); }
  }

  /** One candidate's search in the window agrees with the reference's search in the stream. */
  lemma WindowSearchAgrees(p: PendingCommand, c: Candidate, total: Text, base: nat, consumed: nat)
    requires base + consumed <= |total| && Represents(p, c, base, |total|)
    ensures Max(p.searchFrom, consumed) <= |total| - base
    ensures var r := FirstMatch(total[base..], p.command, Max(p.searchFrom, consumed), p.minimumMatchEnd);
            var q := FirstMatch(total, c.command, base + consumed, c.submittedAt + 1);
            r.Some? == q.Some? &&
            (r.Some? ==> q.value == base + r.value &&
                         MatchEnd(total, c.command, q.value) == base + MatchEnd(total[base..], p.command, r.value))
  {
    hide FirstMatch, MatchAt, MatchEnd;
    LookBackSuffices(total[base..], p.command, consumed, p.searchFrom, p.minimumMatchEnd);
    WindowSearch(total, c.command, base, consumed, p.minimumMatchEnd, c.submittedAt + 1);
    var r := FirstMatch(total[base..], p.command, consumed, p.minimumMatchEnd);
    if r.Some? {
      WindowMatch(total, c.command, base, r.value, p.minimumMatchEnd, c.submittedAt + 1);
    }
  }

  class TerminalCommandCapture {
    const filters: Text -> bool
    var buffer: Text
    var unsafeLine: bool
    var output: Text
    var pending: seq<PendingCommand>
    // the whole output stream, where the window starts in it, and the candidates in absolute positions
    ghost var total: Text
    ghost var base: nat
    ghost var candidates: seq<Candidate>

    ghost function Abstract(): State
      reads this
    {
      State(buffer, unsafeLine, total, base, candidates)
    }

    ghost predicate Valid()
      reads this
    {
      && base <= |total| && output == total[base..] && |output| <= MAX_OUTPUT_CHARS
      && RepresentsAll(pending, candidates, base, |total|)
    }

    constructor (filters: Text -> bool)
      ensures Valid() && Abstract() == INITIAL && this.filters == filters
    {
      this.filters := filters;
      buffer, unsafeLine, output, pending := [], false, [], [];
      total, base, candidates := [], 0, [];
    }

    method Feed(text: Text, now: int)
      requires Valid()
      modifies this
      ensures Valid() && Abstract() == FeedText(filters, old(Abstract()), text, now)
    {
      if text == [] { return; }
      var terminators := Terminators(text, 0);
      if |terminators| > 1 || (|terminators| > 0 && terminators[0].0 + terminators[0].1 < |text|) {
        ResetLineState();
        return;
      }
      for index := 0 to |text|
        invariant Valid() && Abstract() == Keys(filters, old(Abstract()), text, index, now)
      {
        TypeKey(text, index, now);
      }
    }

    /** The body of the loop over the characters of a chunk. */
    method TypeKey(text: Text, index: nat, now: int)
      requires Valid() && index < |text|
      modifies this
      ensures Valid() && Abstract() == Key(filters, old(Abstract()), text, index, now)
    {
      hide Submit, DropLastCodePoint, Keys;
      var character := text[index];
      if IsTerminator(character) {
        if character == LF && index > 0 && text[index - 1] == CR { return; }
        SubmitLine(now);
      } else if character == 0x08 || character == 0x7f {
        buffer := DropLastCodePoint(buffer);
      } else if character == 0x03 || character == 0x15 {
        Reset();
      } else if character < 0x20 || character == 0xfffd {
        unsafeLine := true;
      } else if |buffer| < MAX_CAPTURED_COMMAND_CHARS {
        buffer := buffer + [character];
      } else {
        unsafeLine := true;
      }
    }

    /** The branch of that loop for a line terminator. */
    method SubmitLine(now: int)
      requires Valid()
      modifies this
      ensures Valid() && Abstract() == Submit(filters, old(Abstract()), now)
    {
      hide Fresh, Trim, Scan, FirstMatch;
      var command := Trim(buffer);
      if !unsafeLine && IsSafeCommand(filters, command) {
        PrunePending(now);
        pending := pending + [PendingCommand(command, now, Max(0, |output| - |command| - LOOK_BACK), |output| + 1)];
        candidates := candidates + [Candidate(command, now, |total|)];
        if |pending| > MAX_PENDING_COMMANDS { pending, candidates := pending[1..], candidates[1..]; }
      }
      ResetLineState();
    }

    method ObserveOutput(text: Text, now: int) returns (confirmed: seq<Text>)
      requires Valid()
      modifies this
      ensures Valid()
      ensures Abstract() == ObserveText(old(Abstract()), text, now).0
      ensures confirmed == Commands(ObserveText(old(Abstract()), text, now).1)
    {
      hide Fresh, Scan;
      if text == [] { return []; }
      output, total := output + text, total + text;
      if |output| > MAX_OUTPUT_CHARS {
        DropOutput(|output| - MAX_OUTPUT_CHARS);
      }
      PrunePending(now);
      var consumedThrough;
      confirmed, consumedThrough := ConfirmCandidates();
      if consumedThrough > 0 {
        DropOutput(consumedThrough);
      }
    }

    /** Slides the window forward and rebases every candidate in place. */
    method DropOutput(removed: nat)
      requires base <= |total| && output == total[base..] && removed <= |output|
      requires RepresentsAll(pending, candidates, base, |total|)
      modifies this`output, this`pending, this`base
      ensures base == old(base) + removed && output == total[base..]
      ensures RepresentsAll(pending, candidates, base, |total|)
    {
      ghost var stored := pending;
      output := output[removed..];
      base := base + removed;
      for i := 0 to |pending|
        invariant base == old(base) + removed && output == total[base..] && |pending| == |stored|
        invariant forall j :: 0 <= j < i ==> pending[j] == Rebased(stored[j], removed)
        invariant forall j :: i <= j < |pending| ==> pending[j] == stored[j]
      {
        pending := pending[i := Rebased(pending[i], removed)];
      }
      forall i | 0 <= i < |pending| ensures Represents(pending[i], candidates[i], base, |total|) {
        RebaseRepresents(stored[i], candidates[i], old(base), removed, |total|);
      }
    }

    /** The confirmation pass over the pending candidates. */
    method ConfirmCandidates() returns (confirmed: seq<Text>, consumedThrough: nat)
      requires base <= |total| && output == total[base..]
      requires RepresentsAll(pending, candidates, base, |total|)
      modifies this`pending, this`candidates
      ensures var r := Scan(total, base, old(candidates));
              confirmed == Commands(r.done) && base + consumedThrough == r.through && candidates == r.rest
      ensures consumedThrough <= |output| && RepresentsAll(pending, candidates, base, |total|)
    {
      hide Scan, FirstMatch, MatchAt, MatchEnd, Commands;
      var remaining: seq<PendingCommand> := [];
      ghost var kept: seq<Candidate> := [];
      ghost var full := Scan(total, base, candidates);
      confirmed, consumedThrough := [], 0;
      assert candidates[0..] == candidates;
      for i := 0 to |pending|
        invariant consumedThrough <= |output| && pending == old(pending) && candidates == old(candidates)
        invariant RepresentsAll(remaining, kept, base, |total|)
        invariant var r := Scan(total, base + consumedThrough, candidates[i..]);
                  full == ScanResult(kept + r.rest, full.done, r.through) && Commands(full.done) == confirmed + Commands(r.done)
      {
        var candidate := pending[i];
        WindowSearchAgrees(candidate, candidates[i], total, base, consumedThrough);
        ScanStep(total, base + consumedThrough, candidates, i);
        var matchEnd := Search(output, candidate.command, Max(candidate.searchFrom, consumedThrough), candidate.minimumMatchEnd);
        if matchEnd.None? {
          remaining, kept := remaining + [candidate], kept + [candidates[i]];
        } else {
          confirmed := confirmed + [candidate.command];
          consumedThrough := matchEnd.value;
        }
      }
      ScanEnds(total, base + consumedThrough, candidates);
      pending, candidates := remaining, kept;
    }

    method Reset()
      requires Valid()
      modifies this
      ensures Valid() && Abstract() == ResetAll(old(Abstract()))
    {
      ResetLineState();
      output, pending := [], [];
      base, candidates := |total|, [];
    }

    method ResetLineState()
      modifies this`buffer, this`unsafeLine
      ensures Abstract() == ResetLine(old(Abstract()))
    {
      buffer, unsafeLine := [], false;
    }

    method PrunePending(now: int)
      requires RepresentsAll(pending, candidates, base, |total|)
      modifies this`pending, this`candidates
      ensures RepresentsAll(pending, candidates, base, |total|)
      ensures candidates == Fresh(old(candidates), now)
    {
      FreshRepresents(pending, candidates, base, |total|, now);
      pending, candidates := FreshPending(pending, now), Fresh(candidates, now);
    }
  }
}
