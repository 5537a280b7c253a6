# WebSSH workbench: verified models

A Dafny model of the parts of the workbench that carry hard state, arithmetic or concurrency: the
terminal command capture, the session leases, the SFTP transfers, host-key pinning, Base32 and
one-time codes, IP address parsing and classification, the tailnet connector's admission and replay
cache, the browser's transfer gate and tab reducer, the command history and the login back-off.

Verify everything with `dafny verify dfyconfig.toml`.

How the modules are built:

- Code that changes fields is a `class` with those fields. Each method is proved to do what a small
  reference step (a function on values) does, and the properties of whole runs are lemmas about the
  reference steps, over every sequence of events.
- Code that awaits is cut at its awaits: each uninterrupted stretch is one step, and the steps of
  different sessions or connections interleave freely.
- Everything the code gets from outside (clocks, identifiers, what the remote side or the network
  does, regular expressions, signatures) is a parameter, universally quantified.

| file | what it models |
|---|---|
| `Common.dfy` | options, minimum and maximum, division facts, decimal numerals |
| `CommandCapture.dfy` | the streaming matcher and the reference matcher it refines |
| `CommandCaptureRuns.dfy` | chunking independence, soundness and completeness of whole runs |
| `CommandCaptureEditor.dfy`, `CommandCaptureProgress.dfy` | the keys of the line editor; when a command is sure to be confirmed |
| `LeaseRegistry.dfy` | the per-owner registry, refined to an ideal map of unexpired leases |
| `LeaseProtocol.dfy` | registry and session objects together: safety and its exact timing bound |
| `LeaseProgress.dfy` | what ends a live session, and what renewal does |
| `SftpUpload.dfy`, `SftpDownload.dfy` | transfers across engine, session object and browser |
| `SftpRefusals.dfy` | which upload calls and frames are accepted |
| `Base32.dfy`, `Totp.dfy` | Base32 with a 32-bit accumulator; secrets, HOTP packing and truncation |
| `Addresses.dfy`, `Ipv6.dfy`, `ReservedRanges.dfy` | address literals and reserved ranges |
| `AddressTexts.dfy` | addresses byte by byte, and IPv4 addresses inside IPv6 ones |
| `Admission.dfy`, `ReplayCache.dfy` | the connector's reservations and its nonce cache |
| `AdmissionProgress.dfy` | which connections become relays, and that every one ends |
| `TransferGate.dfy` | the first-in-first-out lock of file transfers |
| `RateLimiter.dfy` | login back-off and the attempt rate it enforces |
| `CommandHistory.dfy` | keyset paging and retention of the history table |
| `CommandHistoryQueries.dfy` | what a query returns, filter by filter |
| `Workbench.dfy` | the reducer of tabs and panes |
| `WorkbenchEffects.dfy` | what each of its actions does |
| `HostKeyPin.dfy` | trust on first use with racing sessions |
| `HostKeyVerdicts.dfy` | why a key is accepted, over whole runs |
| `DirectoryPages.dfy` | pages of a directory listing |

Three results differ from what a reader of the source might expect:

- The discard-only range 100::/64 is not recognised as reserved. The call at
  `apps/worker/src/security/network.ts:88` passes two prefix bytes for eight whole bytes, and a missing
  byte never equals an address byte. `ReservedRanges.HasPrefixExact` says exactly when the test is
  CIDR membership, `DiscardOnlyMissed` that no address of the range is caught, and
  `ReservedIpv6Exact` what the classification then is.
- The lease protocol is safe if and only if a registry call is answered or fails within 4750 ms and
  start-up plus one call takes less than 80 s (`LeaseProtocol.PunctualIffCovered`); the source states
  no such bound.
- `base32Decode` accepts one redundant final `A` when the length leaves a whole group of spare bits;
  `Base32.EncodeDecode` says for which lengths re-encoding drops it.

## Model

| member | source | states |
|---|---|---|
| `CommandCapture.FirstMatch` | apps/worker/src/ssh/command-capture.ts:108-116 | the simple search: the leftmost echoed line (command and terminator) from a position on whose end is late enough; none exactly when no position qualifies |
| `CommandCapture.MatchesDisjoint` | apps/worker/src/ssh/command-capture.ts:108-116 | two occurrences of one echoed line never overlap, because a safe command holds no terminator |
| `CommandCapture.LookBackSuffices` | apps/worker/src/ssh/command-capture.ts:65-66 | starting the search at `searchFrom` instead of anywhere earlier loses no match that ends at or after `minimumMatchEnd` |
| `CommandCapture.WindowSearch` | apps/worker/src/ssh/command-capture.ts:94-101 | searching the kept window and searching the whole output stream find the same occurrence, shifted by what was dropped |
| `CommandCapture.NextMatch` | apps/worker/src/ssh/command-capture.ts:113-116 | resuming a global-regexp scan at the end of a match that came too early finds what the simple search finds |
| `CommandCapture.NextMatchInSuffix` | apps/worker/src/ssh/command-capture.ts:109-116 | the same turn taken on the sliced suffix, with its positions translated back |
| `CommandCapture.Search` | apps/worker/src/ssh/command-capture.ts:108-116 | the `exec` loop returns the end of the first late-enough match of the whole window, or none if there is none |
| `CommandCapture.RebaseRepresents` | apps/worker/src/ssh/command-capture.ts:94-101 | clamped subtractions compose: a candidate rebased by any amount still stands for the same absolute submission position |
| `CommandCapture.FreshRepresents` | apps/worker/src/ssh/command-capture.ts:146-148 | dropping candidates older than 15 s drops the same ones in the window and in the stream view |
| `CommandCapture.WindowSearchAgrees` | apps/worker/src/ssh/command-capture.ts:107-116 | after any number of trims a candidate's clamped search agrees with the search of the whole stream for an end past its submission |
| `CommandCapture.ScanStep` | apps/worker/src/ssh/command-capture.ts:107-123 | one candidate of the naive pass: it stays queued, or is confirmed and moves the scan to the end of its echo |
| `CommandCapture.TerminalCommandCapture.constructor` | apps/worker/src/ssh/command-capture.ts:38-43 | an empty line, an empty window, no candidates |
| `CommandCapture.TerminalCommandCapture.Feed` | apps/worker/src/ssh/command-capture.ts:45-89 | a chunk with more than one terminator or text after one drops the line, any other chunk acts key by key on editor and queue |
| `CommandCapture.TerminalCommandCapture.TypeKey` | apps/worker/src/ssh/command-capture.ts:55-88 | the effect of one character, backspace over a surrogate pair and the LF of a CRLF included |
| `CommandCapture.TerminalCommandCapture.SubmitLine` | apps/worker/src/ssh/command-capture.ts:57-72 | a safe line becomes a candidate at the current absolute output length, behind the unexpired ones, of which the oldest makes room beyond eight |
| `CommandCapture.TerminalCommandCapture.ObserveOutput` | apps/worker/src/ssh/command-capture.ts:91-133 | the windowed pass confirms exactly the commands that the naive matcher over the whole stream confirms, and leaves the same candidates |
| `CommandCapture.TerminalCommandCapture.DropOutput` | apps/worker/src/ssh/command-capture.ts:94-101 | sliding the window and rebasing in place changes no candidate's absolute meaning |
| `CommandCapture.TerminalCommandCapture.ConfirmCandidates` | apps/worker/src/ssh/command-capture.ts:104-124 | confirmed commands, remaining candidates and consumed length are those of the naive pass |
| `CommandCapture.TerminalCommandCapture.Reset` | apps/worker/src/ssh/command-capture.ts:135-139 | the line and the candidates are dropped and no output printed so far is searched again |
| `CommandCapture.TerminalCommandCapture.ResetLineState` | apps/worker/src/ssh/command-capture.ts:141-144 | the line is emptied and safe, candidates and window stay |
| `CommandCapture.TerminalCommandCapture.PrunePending` | apps/worker/src/ssh/command-capture.ts:146-148 | exactly the candidates of the last 15 s stay, in order, with the same absolute meaning |
| `CommandCaptureRuns.SoundRun` | apps/worker/src/ssh/command-capture.ts:45-133 | for every interleaving of input, output and resets: confirmed commands with their terminators are pairwise disjoint left-to-right substrings of the whole output, each submitted by an input event of the run and ending after the output printed before it; at most eight candidates wait |
| `CommandCaptureRuns.ScanSound` | apps/worker/src/ssh/command-capture.ts:104-124 | one pass confirms only echoes of queued candidates, left to right and after their submission |
| `CommandCaptureRuns.ScanComplete` | apps/worker/src/ssh/command-capture.ts:104-124 | one pass misses nothing: a candidate left in the queue has no echo in the output that may still be searched |
| `CommandCaptureRuns.CompleteRun` | apps/worker/src/ssh/command-capture.ts:45-133 | over every run no waiting command has an echo, ending after its submission, in the output that may still be searched: no confirmation is ever overdue |
| `CommandCaptureRuns.ChunkingIndependence` | apps/worker/src/ssh/command-capture.ts:45-89 | every way of cutting a single line into chunks, between CR and LF too, leaves the same line, unsafe flag and candidates |
| `CommandCaptureRuns.FeedConcat` | apps/worker/src/ssh/command-capture.ts:45-89 | two chunks of a single line act like their concatenation |
| `CommandCaptureRuns.MalformedIff` | apps/worker/src/ssh/command-capture.ts:48-53 | the test on the list of terminator matches rejects exactly the texts whose terminator, if any, is not at the end |
| `CommandCaptureRuns.FeedEffect` | apps/worker/src/ssh/command-capture.ts:45-89 | a chunk adds at most the safe command it completes, stamped with the output length, and never exceeds eight candidates |
| `CommandCaptureRuns.SafeIsShape` | apps/worker/src/ssh/command-capture.ts:15-19 | a command safe for history has 1 to 2048 characters and no CR or LF |
| `CommandCaptureEditor.SafeExact` | apps/worker/src/ssh/command-capture.ts:15-28 | the exact condition: 1 to 2048 characters, no control character but the tab, and nothing the expressions object to |
| `CommandCaptureEditor.TrimExact` | apps/worker/src/ssh/command-capture.ts:59-59 | trimming cuts all white space off both ends and nothing else |
| `CommandCaptureEditor.PlainLineSubmitted` | apps/worker/src/ssh/command-capture.ts:55-72 | typing a plain text and a line end submits the whole line, trimmed, exactly when that is safe |
| `CommandCaptureEditor.BackspaceUndoes` | apps/worker/src/ssh/command-capture.ts:73-76 | backspace undoes the typing of one code point, a surrogate pair as a whole |
| `CommandCaptureEditor.SpoiledNeverSubmitted` | apps/worker/src/ssh/command-capture.ts:81-85 | a line with an escape or another control character, or bytes that are no UTF-8, is never submitted unless it was cleared afterwards |
| `CommandCaptureEditor.TooLongNeverSubmitted` | apps/worker/src/ssh/command-capture.ts:86-87 | nor is a line typed on past 2048 characters |
| `CommandCaptureEditor.MalformedDropsLine` | apps/worker/src/ssh/command-capture.ts:48-53 | a chunk with text behind a line end, or two line ends, empties the line and touches neither output nor candidates |
| `CommandCaptureEditor.ClearForgets` | apps/worker/src/ssh/command-capture.ts:77-80 | interrupt and kill-line forget line, candidates and output |
| `CommandCaptureEditor.ResetForgets` | apps/worker/src/ssh/command-capture.ts:135-139 | over every run: after a reset nothing waits, and no later confirmation uses output printed before it |
| `CommandCaptureProgress.FreshExact` | apps/worker/src/ssh/command-capture.ts:146-148 | pruning keeps exactly the candidates of the last 15 s, in their order |
| `CommandCaptureProgress.ScanKeeps` | apps/worker/src/ssh/command-capture.ts:107-124 | one pass confirms a waiting candidate or leaves it in its place |
| `CommandCaptureProgress.ScanFinds` | apps/worker/src/ssh/command-capture.ts:107-124 | one pass confirms every candidate that has an echo, except behind an echo found for a candidate ahead of it |
| `CommandCaptureProgress.KeptOrConfirmed` | apps/worker/src/ssh/command-capture.ts:45-133 | over every run: as long as nothing resets the capture and at most seven commands follow within 15 s, a submitted command is confirmed or still waits |
| `CommandCaptureProgress.ConfirmedWhenEchoed` | apps/worker/src/ssh/command-capture.ts:45-133 | over every run: such a command is confirmed once its echo is printed inside the kept window; the one exception is an echo that starts before the end of one confirmed for a command that already waited |
| `CommandCaptureProgress.AnsweredReturned` | apps/worker/src/ssh/command-capture.ts:121-132 | a confirmed command is among the texts returned to the caller |
| `LeaseRegistry.LeastExpiry` | apps/worker/src/durable/ssh-session-registry.ts:23-32 | the next alarm is an expiry of the map and no expiry is earlier |
| `LeaseRegistry.SSHSessionRegistry.constructor` | apps/worker/src/durable/ssh-session-registry.ts:76-77 | no leases, no alarm |
| `LeaseRegistry.SSHSessionRegistry.Fetch` | apps/worker/src/durable/ssh-session-registry.ts:102-121 | a request stores and answers the transition's result, and the alarm is again the least stored expiry |
| `LeaseRegistry.SSHSessionRegistry.Alarm` | apps/worker/src/durable/ssh-session-registry.ts:123-135 | exactly the unexpired leases stay, and a due alarm strictly shrinks the map |
| `LeaseRegistry.SSHSessionRegistry.Commit` | apps/worker/src/durable/ssh-session-registry.ts:108-114 | storage and alarm describe the same map; an empty one leaves neither |
| `LeaseRegistry.PruneInvisible` | apps/worker/src/durable/ssh-session-registry.ts:34-74 | pruning at any earlier time changes the result of no later acquire, renew or release |
| `LeaseRegistry.StepRefines` | apps/worker/src/durable/ssh-session-registry.ts:34-70 | one operation answers like an ideal map that never prunes and ignores expired leases |
| `LeaseRegistry.RunRefines` | apps/worker/src/durable/ssh-session-registry.ts:34-135 | over every run with a forward clock and alarms at any moments callers cannot tell the pruned registry from the ideal one |
| `LeaseRegistry.NoRevival` | apps/worker/src/durable/ssh-session-registry.ts:49-60 | a released or expired lease is never brought back without a new acquire |
| `LeaseRegistry.CapacityKept` | apps/worker/src/durable/ssh-session-registry.ts:34-47 | with a fixed limit the registry never holds more leases than the limit |
| `LeaseRegistry.TransitionCapacity` | apps/worker/src/durable/ssh-session-registry.ts:34-70 | no single operation exceeds the limit |
| `LeaseProtocol.LeaseSafety` | apps/worker/src/durable/ssh-session.ts:1292-1371 | over every run with punctual calls each live session holds an unexpired registry lease, the number of live sessions respects the limit, and at most 15 renewals fail in a row |
| `LeaseProtocol.PunctualIffCovered` | apps/worker/src/durable/ssh-session.ts:1326-1371 | live sessions are covered by unexpired leases in every run if and only if calls take at most 4750 ms and start-up plus a call stays under 80 s |
| `LeaseProtocol.BoundIsExact` | apps/worker/src/durable/ssh-session.ts:1326-1371 | with calls of 4751 ms a run exists in which a live session's lease has expired |
| `LeaseProtocol.StartupBoundIsExact` | apps/worker/src/durable/ssh-session.ts:557-660 | with start-up plus call of 80 s a run exists in which a live session's lease has expired |
| `LeaseProtocol.FailOnce` | apps/worker/src/durable/ssh-session.ts:1326-1334 | a run of one session extends by a renewal that fails after any permitted latency, and the next attempt is due max(250, min(5000, remaining - 5000)) ms later |
| `LeaseProtocol.RunSafe` | apps/worker/src/durable/ssh-session.ts:557-660 | the safety invariant (lease, timer and retry budget of every session, registry size) holds after every run |
| `LeaseProtocol.SafeStep` | apps/worker/src/durable/ssh-session.ts:557-1371 | every single action, from any session, keeps the invariant of all sessions |
| `LeaseProtocol.RenewStep` | apps/worker/src/durable/ssh-session.ts:1299-1303 | the registry never refuses the renewal of a live session |
| `LeaseProtocol.SessionKept` | apps/worker/src/durable/ssh-session-registry.ts:34-74 | no registry operation but a session's own release weakens that session's guarantees |
| `LeaseProgress.LiveStaysIff` | apps/worker/src/durable/ssh-session.ts:1292-1358 | a safe live session is live after an action if and only if the action is neither its own close nor its failed renewal with at most 5 s left |
| `LeaseProgress.LiveUntilEnded` | apps/worker/src/durable/ssh-session.ts:1292-1358 | over every punctual run a live session stays live until one of these two ends it |
| `LeaseProgress.AnswerRenews` | apps/worker/src/durable/ssh-session.ts:1324-1325 | an answered renewal leaves the session live, its lease good for 120 s from the sending or later, earlier failures forgotten and the next renewal due in 40 s |
| `LeaseProgress.RenewsForever` | apps/worker/src/durable/ssh-session.ts:1292-1371 | for every n there is a run in which a session is renewed n times and still live |
| `LeaseProgress.ReleaseFrees` | apps/worker/src/durable/ssh-session.ts:1647-1652 | the release of a closed session frees its place and touches no other unexpired lease |
| `LeaseProtocol.LiveSession.constructor` | apps/worker/src/durable/ssh-session.ts:631-660 | a live session starts with its first renewal due after 40 s |
| `LeaseProtocol.LiveSession.ScheduleLeaseRenewal` | apps/worker/src/durable/ssh-session.ts:1360-1371 | the timer is set at least 250 ms ahead, and only while the session is open |
| `LeaseProtocol.LiveSession.BeginRenewal` | apps/worker/src/durable/ssh-session.ts:1296-1303 | a renewal is sent only by an open session that waits for none |
| `LeaseProtocol.LiveSession.RenewalAnswered` | apps/worker/src/durable/ssh-session.ts:1304-1325 | a granted renewal extends the lease and re-arms the timer, a refused one closes the session |
| `LeaseProtocol.LiveSession.RenewalFailed` | apps/worker/src/durable/ssh-session.ts:1326-1357 | a failed call retries while more than five seconds remain and otherwise closes the session |
| `LeaseProtocol.LiveSession.Cleanup` | apps/worker/src/durable/ssh-session.ts:1630-1644 | a closed session has no timer |
| `SftpUpload.SSH2Engine.Upload` | apps/worker/src/ssh/ssh2-engine.ts:261-298 | the engine call: restart at offset 0, rejection of unexpected offsets, forgetting a failed upload |
| `SftpUpload.SSH2Engine.StreamFailed` | apps/worker/src/ssh/ssh2-engine.ts:276-278 | a stream error forgets that upload and no other |
| `SftpUpload.SessionObject.HandleBinaryFrame` | apps/worker/src/durable/ssh-session.ts:941-982 | the frame handler's checks, the engine call and the two updates of the transfer |
| `SftpUpload.SessionObject.Start` | apps/worker/src/durable/ssh-session.ts:985-1046 | a started upload waits at offset 0; an empty file is completed at once |
| `SftpUpload.EngineEffect` | apps/worker/src/ssh/ssh2-engine.ts:261-298 | one call touches no other upload, extends the stream by exactly the chunk on success, and on failure forgets the upload or changes nothing |
| `SftpUpload.StepConsistent` | apps/worker/src/durable/ssh-session.ts:941-1046 | one event keeps the offsets of the two layers equal whenever both exist, and a completion finds the whole upload in the stream |
| `SftpUpload.LayersConsistent` | apps/worker/src/durable/ssh-session.ts:941-1046 | the same over every run, whatever frames arrive and whenever streams fail |
| `SftpUpload.CompletedIsExact` | apps/worker/src/durable/ssh-session.ts:954-982 | "completed" is sent only when the ended remote stream is the concatenation of the acknowledged payloads, as many bytes as were declared |
| `SftpUpload.StreamsArePrefixes` | apps/worker/src/ssh/ssh2-engine.ts:280-292 | while a file is uploaded by frames in any order, repeated or overlapping, the remote stream is always a prefix of the file |
| `SftpUpload.FileUploaded` | apps/worker/src/durable/ssh-session.ts:941-1046 | a completed upload of a file leaves exactly that file in the remote stream |
| `SftpUpload.SendFile` | apps/web/src/components/FileWorkspace.tsx:248-265 | the browser's loop sends consecutive 64 KiB chunks from the resume offset to the end |
| `SftpUpload.Projection` | apps/worker/src/durable/ssh-session.ts:941-1046 | transfers do not interfere: for one transfer a run is as good as the run of its own events |
| `SftpUpload.LoopCompletes` | apps/web/src/components/FileWorkspace.tsx:248-265 | if no write fails, sending the remaining chunks completes the upload with the file in the stream |
| `SftpUpload.ClientCompletes` | apps/web/src/components/FileWorkspace.tsx:243-265 | if no write fails, the client's loop completes any file whatever other transfers do in between |
| `SftpUpload.StartAnswered` | apps/worker/src/durable/ssh-session.ts:1002-1045 | a started upload is answered with offset 0, from which the client sends, and is completed at once exactly when the file is empty |
| `SftpRefusals.EngineAcceptsIff` | apps/worker/src/ssh/ssh2-engine.ts:261-298 | an engine call succeeds exactly for a named transfer, a chunk of at most 256 KiB, the expected path and offset, and a remote side that serves it |
| `SftpRefusals.UnexpectedChangesNothing` | apps/worker/src/ssh/ssh2-engine.ts:268-282 | an unexpected or too large call changes nothing |
| `SftpRefusals.FrameAcceptedIff` | apps/worker/src/durable/ssh-session.ts:941-961 | a frame is accepted exactly when its transfer is started, it comes at its offset and fits, and the engine accepts it; the answer is the offset behind it |
| `SftpRefusals.WrongFrameRefused` | apps/worker/src/durable/ssh-session.ts:941-953 | a frame out of order or too long changes nothing |
| `SftpRefusals.RepeatedFrameRefused` | apps/worker/src/durable/ssh-session.ts:941-961 | an accepted frame that carried bytes is refused when it is repeated |
| `SftpRefusals.StreamErrorForgets` | apps/worker/src/ssh/ssh2-engine.ts:276-278 | a stream error forgets one upload and leaves transfers, other uploads and ended streams |
| `SftpRefusals.CloseRefuses` | apps/worker/src/durable/ssh-session.ts:1636-1645 | after a close every frame is refused until an upload is started again |
| `SftpRefusals.StartDeclares` | apps/worker/src/durable/ssh-session.ts:993-1002 | a started upload waits at offset 0 for its declared size |
| `SftpRefusals.EmptyUpload` | apps/worker/src/durable/ssh-session.ts:1015-1037 | an empty upload leaves an empty stream and is completed, or fails if the remote side cannot end it |
| `SftpDownload.EmitChunk` | apps/worker/src/durable/ssh-session.ts:1074-1101 | a chunk of any size becomes gap-free frames of 1 to 65536 bytes that carry exactly the chunk |
| `SftpDownload.Download` | apps/worker/src/ssh/ssh2-engine.ts:300-325 | refusal exactly for bad offsets, negative lengths or more than 100 MiB; otherwise contiguous frames carry the stream, however it was cut |
| `SftpDownload.DownloadBuffer.constructor` | apps/web/src/components/FileWorkspace.tsx:222-234 | a buffer of the announced size; an empty file is shown at once |
| `SftpDownload.DownloadBuffer.Receive` | apps/web/src/components/FileWorkspace.tsx:286-304 | a frame at the expected offset that fits is written in place, any other is ignored, and a full buffer is shown |
| `SftpDownload.AlwaysPrefix` | apps/web/src/components/FileWorkspace.tsx:286-304 | whatever frames of the file arrive, in any order and number, the buffer is a prefix of the file and only the file is ever shown |
| `SftpDownload.FramesAreSlices` | apps/worker/src/durable/ssh-session.ts:1074-1101 | each contiguous frame is the slice of the file that its offset claims |
| `SftpDownload.ContiguousAdvance` | apps/web/src/components/FileWorkspace.tsx:286-304 | contiguous frames advance `received` by exactly the bytes they carry |
| `SftpDownload.Reassembled` | apps/web/src/components/FileWorkspace.tsx:278-307 | the client shows the file if and only if the frames carried all of it, and otherwise waits with the received prefix |
| `Base32.Base32Encode` | apps/worker/src/auth/totp.ts:8-21 | although the accumulator wraps at 32 bits the output is the unpadded encoding of section 6 of RFC 4648 of the bit string |
| `Base32.Base32Decode` | apps/worker/src/auth/totp.ts:23-42 | although the accumulator wraps, the bytes, the two errors and the canonicity test are those of the bit string |
| `Base32.DecodeEncode` | apps/worker/src/auth/totp.ts:8-42 | decode(encode(b)) = b for every non-empty b; the empty text is rejected |
| `Base32.EncodeDecode` | apps/worker/src/auth/totp.ts:8-42 | encode(decode(s)) = s for every accepted s, minus one final `A` exactly when the length mod 8 is 1, 3 or 6 |
| `Base32.AcceptedIff` | apps/worker/src/auth/totp.ts:23-42 | the accepted texts are exactly the non-empty encodings, and those with one redundant final `A` at lengths 1, 3 or 6 modulo 8 |
| `Base32.ErrorsExact` | apps/worker/src/auth/totp.ts:24-40 | invalid means empty or a character outside the alphabet; non-canonical means a spare bit that is not zero |
| `Base32.EncodedBits` | apps/worker/src/auth/totp.ts:8-21 | the digits of an encoding spell the bits followed by the zeros that fill the last group |
| `Base32.AlphabetAt` | apps/worker/src/auth/totp.ts:4-4 | the digit of each value is the character of the alphabet at that position |
| `Base32.IndexOfExact` | apps/worker/src/auth/totp.ts:32-33 | the value of a character is its first position in the alphabet, and -1 exactly when it does not occur |
| `Base32.ShiftInBits` | apps/worker/src/auth/totp.ts:13-13 | a 32-bit left shift appends bits whatever is lost at the top |
| `Base32.ShiftOutBits` | apps/worker/src/auth/totp.ts:16-16 | an unsigned right shift splits the bits it keeps from the ones it drops |
| `Base32.CharsInjective` | apps/worker/src/auth/totp.ts:4-4 | a text over the alphabet is determined by its bits |
| `Base32.BytesInjective` | apps/worker/src/auth/totp.ts:41-41 | bytes are determined by their bits |
| `Totp.SecretRoundTrip` | apps/worker/src/auth/totp.ts:23-48 | an encoded secret decodes to the bytes it was made of, through the cleaning of `=`, white space and case |
| `Totp.PaddingIgnored` | apps/worker/src/auth/totp.ts:24-24 | any number of `=` at the end of a secret is ignored |
| `Totp.SpaceIgnored` | apps/worker/src/auth/totp.ts:24-24 | white space before the last character that is not padding is ignored |
| `Totp.CaseIgnored` | apps/worker/src/auth/totp.ts:24-24 | characters with the same upper case are interchangeable |
| `Totp.SetUint32` | apps/worker/src/auth/totp.ts:63-64 | four bytes hold the value modulo 2^32 in big-endian order and the rest of the buffer is untouched |
| `Totp.PackCounter` | apps/worker/src/auth/totp.ts:61-64 | the message is the 64-bit big-endian form of every safe counter, also beyond 32 bits |
| `Totp.Truncate` | apps/worker/src/auth/totp.ts:67-73 | the code is `digits` decimal digits that denote the low 31 bits at the dynamic offset modulo 10^digits (section 5.3 of RFC 4226) |
| `Totp.VerifyTotp` | apps/worker/src/auth/totp.ts:88-107 | a code is accepted if and only if it belongs to a non-negative counter within the window; an undecodable secret throws exactly when it is consulted |
| `Addresses.Ipv4Exact` | apps/worker/src/security/network.ts:14-19 | each address has exactly one accepted dotted-quad text, its decimal print without leading zeros |
| `Addresses.JoinSplit` | apps/worker/src/security/network.ts:16-16 | splitting at a separator and joining again gives the text back |
| `Ipv6.ParseAddress` | apps/worker/src/security/network.ts:21-51 | the rewriting, splitting and filling program computes the parser that the exactness result is about |
| `Ipv6.FillBytes` | apps/worker/src/security/network.ts:45-50 | each group lands in network order in its two bytes |
| `Ipv6.ParseIpv6Exact` | apps/worker/src/security/network.ts:21-51 | accepted are exactly the text forms of section 2.2 of RFC 4291, in optional brackets and either case, and every legal spelling yields the bytes of the address it denotes |
| `Ipv6.SpellingParsed` | apps/worker/src/security/network.ts:21-51 | every legal spelling is accepted with its address |
| `Ipv6.SpellingRead` | apps/worker/src/security/network.ts:21-51 | every accepted text is a legal spelling of the address returned |
| `Ipv6.GroupsAccepted` | apps/worker/src/security/network.ts:35-44 | a legal spelling without a dotted quad, compressed anywhere or not, gives its eight groups |
| `Ipv6.GroupsRead` | apps/worker/src/security/network.ts:35-44 | what the group parser accepts is the print of the legal spelling it read |
| `Ipv6.QuadReplaced` | apps/worker/src/security/network.ts:26-33 | replacing a dotted quad in a legal text gives the legal text of the same address in groups |
| `Ipv6.QuadRead` | apps/worker/src/security/network.ts:26-44 | a text with a quad that the parser accepts is a legal spelling with that quad |
| `AddressTexts.QuadBytes` | apps/worker/src/security/network.ts:32-32 | the two groups written for a dotted quad are its four bytes in order |
| `AddressTexts.QuadIsTail` | apps/worker/src/security/network.ts:26-33 | for every legal spelling with a dotted quad the last four bytes of the address are the quad |
| `AddressTexts.QuadParsed` | apps/worker/src/security/network.ts:21-51 | the parser carries the quad to the last four bytes unchanged |
| `AddressTexts.GroupBytes` | apps/worker/src/security/network.ts:43-50 | for every legal spelling in groups each byte pair is the group written at its place, from the front or from the end, and zero where `::` stands |
| `AddressTexts.LegalTextParsed` | apps/worker/src/security/network.ts:21-24 | every legal spelling parses to its address as it is, in brackets, and with capital hexadecimal digits |
| `AddressTexts.MappedClassified` | apps/worker/src/security/network.ts:91-93 | `::ffff:a.b.c.d` parses to the mapped address of a.b.c.d, which is reserved exactly when a.b.c.d is |
| `ReservedRanges.CheckPrefix` | apps/worker/src/security/network.ts:53-62 | the byte loop and the masked comparison decide the prefix test, missing prefix bytes included |
| `ReservedRanges.HasPrefixExact` | apps/worker/src/security/network.ts:53-62 | the test is CIDR membership bit by bit if and only if the written prefix has all whole bytes of the range; otherwise it is always false |
| `ReservedRanges.ReservedIpv4Exact` | apps/worker/src/security/network.ts:64-78 | the comparisons on octets are exactly the union of fourteen CIDR ranges |
| `ReservedRanges.ReservedIpv6Exact` | apps/worker/src/security/network.ts:84-99 | the classification is exactly the union of the listed CIDR ranges and the reserved IPv4 ranges embedded in three of them, without 100::/64 |
| `ReservedRanges.DiscardOnlyMissed` | apps/worker/src/security/network.ts:88-88 | no address of 100::/64 is recognised |
| `Admission.Connector.constructor` | apps/tailnet-connector/src/server.ts:41-41 | nothing reserved, nothing active |
| `Admission.Connector.HandleUpgrade` | apps/tailnet-connector/src/server.ts:54-61 | admission exactly while fewer than the maximum are reserved |
| `Admission.Connector.Release` | apps/tailnet-connector/src/server.ts:77-82 | a pending connection gives its reservation back, any other call changes nothing |
| `Admission.Connector.Abandon` | apps/tailnet-connector/src/server.ts:129-134 | giving up returns the reservation and destroys the socket |
| `Admission.Connector.OnPendingDisconnect` | apps/tailnet-connector/src/server.ts:65-76 | a disconnect is noted only while the connection is pending |
| `Admission.Connector.OnResolved` | apps/tailnet-connector/src/server.ts:105-113 | the TCP connection starts, or the deadline has passed |
| `Admission.Connector.OnCaught` | apps/tailnet-connector/src/server.ts:114-128 | the catch block releases the reservation and destroys a socket that arrived |
| `Admission.Connector.OnConnected` | apps/tailnet-connector/src/server.ts:129-161 | the continuation, for every behaviour of the WebSocket upgrade including throwing after the callback |
| `Admission.Connector.OnAccept` | apps/tailnet-connector/src/server.ts:137-152 | the callback hands the reservation over to a relay, or gives up |
| `Admission.Connector.Finish` | apps/tailnet-connector/src/server.ts:250-258 | a relay ends once, returns the reservation and destroys the socket |
| `Admission.AdmissionConserved` | apps/tailnet-connector/src/server.ts:54-161 | over every interleaving the counter is pending plus relayed, within 0 and the maximum, and each reservation is returned exactly once |
| `Admission.StepConserves` | apps/tailnet-connector/src/server.ts:54-161 | every step keeps these books |
| `Admission.StepIsBooked` | apps/tailnet-connector/src/server.ts:54-161 | a step changes the counter and the active set only as the one connection it is about requires |
| `Admission.BookedConserves` | apps/tailnet-connector/src/server.ts:54-161 | such a change keeps the books of all connections |
| `Admission.NoSocketLeaks` | apps/tailnet-connector/src/server.ts:114-161 | when no wait is under way every TCP socket ever produced is owned by its relay or destroyed, late ones too |
| `Admission.OverIsFinal` | apps/tailnet-connector/src/server.ts:77-82 | nothing reopens a finished connection or returns its reservation again |
| `AdmissionProgress.AdmittedIff` | apps/tailnet-connector/src/server.ts:54-59 | a request is admitted exactly below the limit, and a refused one changes nothing |
| `AdmissionProgress.RelayIff` | apps/tailnet-connector/src/server.ts:129-161 | an upgrade opens a relay exactly when the client and socket are still there and the callback comes before the client goes; any other ending returns the reservation and destroys the socket |
| `AdmissionProgress.RelayEnds` | apps/tailnet-connector/src/server.ts:250-258 | a relay that ends returns its reservation and destroys the socket |
| `AdmissionProgress.LostWaitEnds` | apps/tailnet-connector/src/server.ts:91-128 | a lost wait returns the reservation, and a socket that connects later is destroyed |
| `AdmissionProgress.Advances` | apps/tailnet-connector/src/server.ts:84-161 | every awaited event brings a connection strictly closer to its end, and none takes it back |
| `AdmissionProgress.OthersUntouched` | apps/tailnet-connector/src/server.ts:41-161 | events of one connection leave every other one as it is |
| `AdmissionProgress.GoneNeverRelays` | apps/tailnet-connector/src/server.ts:65-71 | over every interleaving a client that left while pending never gets a relay |
| `AdmissionProgress.RelayOpens` | apps/tailnet-connector/src/server.ts:41-152 | over every interleaving an admitted connection that is resolved, connected and upgraded with its client there is active and owns its open socket |
| `ReplayCache.NonceReplayCache.constructor` | apps/tailnet-connector/src/auth.ts:12-13 | an empty cache |
| `ReplayCache.NonceReplayCache.Consume` | apps/tailnet-connector/src/auth.ts:15-22 | exactly the expired entries are deleted while walking over the map, and a nonce is accepted exactly when no unexpired entry has it |
| `ReplayCache.NonceReplayCache.Authenticate` | apps/tailnet-connector/src/auth.ts:43-56 | handshakes outside the expiry window never reach the cache |
| `ReplayCache.CacheIsHistory` | apps/tailnet-connector/src/auth.ts:12-23 | with a forward clock the pruned cache knows exactly the unexpired nonces of the unbounded history |
| `ReplayCache.DecisionExact` | apps/tailnet-connector/src/auth.ts:43-56 | an attempt is accepted if and only if it is in its window and no accepted handshake with its nonce is still unexpired |
| `ReplayCache.NoReplay` | apps/tailnet-connector/src/auth.ts:43-56 | no handshake is ever accepted twice |
| `TransferGate.TransferGate.constructor` | apps/web/src/lib/transfer-gate.ts:14-16 | nobody holds the gate or waits |
| `TransferGate.TransferGate.AcquireLease` | apps/web/src/lib/transfer-gate.ts:18-30 | a request joins the end of the queue, which is drained |
| `TransferGate.TransferGate.CancelClientSession` | apps/web/src/lib/transfer-gate.ts:32-46 | the session's active lease is aborted, its waiters rejected, and the next waiter let in |
| `TransferGate.TransferGate.RejectQueued` | apps/web/src/lib/transfer-gate.ts:38-44 | the backward loop with its splices removes exactly the session's waiters and keeps the others in order |
| `TransferGate.TransferGate.CancelEverything` | apps/web/src/lib/transfer-gate.ts:48-58 | the holder is aborted and every waiter aborted and rejected |
| `TransferGate.TransferGate.ReleaseLease` | apps/web/src/lib/transfer-gate.ts:76-81 | the release closure acts once, and frees the gate only for its own lease |
| `TransferGate.TransferGate.DrainQueue` | apps/web/src/lib/transfer-gate.ts:68-83 | a free gate goes to the first waiter |
| `TransferGate.RunValid` | apps/web/src/lib/transfer-gate.ts:18-84 | after every sequence of calls: at most one lease is granted, unreleased and unaborted, namely the active one; waiters imply a holder; every request is queued, granted or rejected and never two of these; grants and queue are in acquire order |
| `TransferGate.Fifo` | apps/web/src/lib/transfer-gate.ts:18-84 | among requests that were not rejected, grants follow acquire order |
| `TransferGate.StaleRelease` | apps/web/src/lib/transfer-gate.ts:76-81 | a stale or repeated release changes neither holder nor queue |
| `TransferGate.HolderRelease` | apps/web/src/lib/transfer-gate.ts:68-83 | the holder's release passes the gate to the first waiter and moves the others up |
| `TransferGate.NoOvertaking` | apps/web/src/lib/transfer-gate.ts:18-84 | no call ever puts a new request ahead of a waiter |
| `TransferGate.ReleaseAdvances` | apps/web/src/lib/transfer-gate.ts:76-81 | each release by the holder grants a waiter or leaves it exactly one fewer ahead |
| `TransferGate.AcquireJoins` | apps/web/src/lib/transfer-gate.ts:18-30 | a request of a session is let in at once exactly when the gate is free, and is the last in the queue otherwise |
| `TransferGate.CancelClears` | apps/web/src/lib/transfer-gate.ts:32-46 | a cancelled session holds nothing and waits for nothing; its requests are aborted and rejected, and everyone else keeps holding or waiting |
| `TransferGate.CancelAllClears` | apps/web/src/lib/transfer-gate.ts:48-58 | after cancelling everything nobody holds or waits; holder and waiters are aborted, exactly the waiters newly rejected |
| `RateLimiter.AuthRateLimiter.constructor` | apps/worker/src/durable/auth-rate-limiter.ts:26-27 | nothing stored, no alarm |
| `RateLimiter.AuthRateLimiter.Clear` | apps/worker/src/durable/auth-rate-limiter.ts:111-114 | state and alarm are gone |
| `RateLimiter.AuthRateLimiter.ReadFreshState` | apps/worker/src/durable/auth-rate-limiter.ts:102-109 | a state a day old is cleared, any other returned unchanged |
| `RateLimiter.AuthRateLimiter.Check` | apps/worker/src/durable/auth-rate-limiter.ts:56-64 | allowed when no fresh block is running, otherwise the remaining seconds rounded up |
| `RateLimiter.AuthRateLimiter.UpdateFailureState` | apps/worker/src/durable/auth-rate-limiter.ts:76-100 | one more failure, saturated at 31, blocks for its delay; the alarm follows the last failure by a day |
| `RateLimiter.AuthRateLimiter.ReserveAttempt` | apps/worker/src/durable/auth-rate-limiter.ts:70-74 | an attempt let through is counted as a failure in advance |
| `RateLimiter.AuthRateLimiter.RecordFailure` | apps/worker/src/durable/auth-rate-limiter.ts:66-68 | a reported failure is counted and answered with its delay |
| `RateLimiter.AttemptRate` | apps/worker/src/durable/auth-rate-limiter.ts:56-100 | from one address the n-th attempt let through (n at least 15) comes at least 1023 + 900 (n - 15) seconds after the first, in every run with a forward clock and no reset |
| `RateLimiter.RunEnforces` | apps/worker/src/durable/auth-rate-limiter.ts:56-100 | in both scopes the n-th attempt let through comes at least the sum of the delays of the earlier ones after the first |
| `RateLimiter.BlockNeverShrinks` | apps/worker/src/durable/auth-rate-limiter.ts:76-100 | neither `blockedUntil` nor the failure count ever moves back |
| `RateLimiter.TotalIpDelay` | apps/worker/src/durable/auth-rate-limiter.ts:82-86 | n counted failures of one address enforce 1023 + 900 (n - 14) seconds in total (n at least 14) |
| `RateLimiter.TotalAccountDelay` | apps/worker/src/durable/auth-rate-limiter.ts:82-86 | n counted failures of one account enforce 1023 + 900 (n - 29) seconds in total (n at least 29) |
| `RateLimiter.AccountAttemptRate` | apps/worker/src/durable/auth-rate-limiter.ts:56-100 | for one account the n-th attempt let through (n at least 30) comes at least 1023 + 900 (n - 30) seconds after the first |
| `RateLimiter.FailureAnswersCheck` | apps/worker/src/durable/auth-rate-limiter.ts:66-100 | a reported failure is answered exactly what a check at the same moment would answer |
| `RateLimiter.DayForgets` | apps/worker/src/durable/auth-rate-limiter.ts:102-109 | a day after the last failure everything is forgotten, and not earlier |
| `RateLimiter.SaturationReachesCap` | apps/worker/src/durable/auth-rate-limiter.ts:82-86 | the count saturated at 31 still reaches the 900 s delay with both thresholds |
| `RateLimiter.RetryAfterExact` | apps/worker/src/durable/auth-rate-limiter.ts:56-64 | the seconds answered to a refused caller are exact: waiting that long suffices, a second less does not |
| `RateLimiter.GreedyAttains` | apps/worker/src/durable/auth-rate-limiter.ts:56-100 | attempts made the moment each block ends are all let through, so the bound cannot be improved |
| `CommandHistory.CommandHistoryRepository.constructor` | apps/worker/src/storage/history.ts:99-100 | an empty table |
| `CommandHistory.CommandHistoryRepository.Append` | apps/worker/src/storage/history.ts:102-144 | a row is inserted if and only if the session belongs to the owner |
| `CommandHistory.CommandHistoryRepository.ListPage` | apps/worker/src/storage/history.ts:146-195 | the page, its cursor and whether more follows, from one row more than the limit |
| `CommandHistory.CommandHistoryRepository.PruneOwner` | apps/worker/src/storage/history.ts:222-233 | the delete statement, and the number of rows it removed |
| `CommandHistory.SortSorts` | apps/worker/src/storage/history.ts:180-180 | the ordered result is strictly descending in (created_at, id) and has exactly the selected rows |
| `CommandHistory.DescendingUnique` | apps/worker/src/storage/history.ts:180-180 | a strictly descending listing is determined by its rows |
| `CommandHistory.PageSplits` | apps/worker/src/storage/history.ts:174-194 | a page's rows match and descend, and every other matching row comes after the next cursor |
| `CommandHistory.FollowExact` | apps/worker/src/storage/history.ts:146-195 | following the cursor to the end yields every matching row present at the start exactly once in descending order, even if rows are inserted between pages, and nothing that does not match |
| `CommandHistory.FollowUnchanged` | apps/worker/src/storage/history.ts:146-195 | on a table that does not change the pages are the sorted matching rows, cut up |
| `CommandHistoryQueries.PageRowsMeetFilters` | apps/worker/src/storage/history.ts:152-173 | every row of a page belongs to the asking owner and meets the profile, session, text and time filters that were given |
| `CommandHistoryQueries.FollowedRowsAreThose` | apps/worker/src/storage/history.ts:146-195 | followed to the end a query returns every row of the owner present at the start that meets the filters, and only rows of the owner that do |
| `CommandHistoryQueries.MeetsIff` | apps/worker/src/storage/history.ts:152-173 | the clauses of the statement select exactly the rows of the owner that meet each filter given |
| `CommandHistoryQueries.NewestFirst` | apps/worker/src/storage/history.ts:180-180 | of two rows the later one comes first, and of one moment the one with the greater id |
| `CommandHistoryQueries.LessExact` | apps/worker/src/storage/history.ts:180-180 | texts are compared at their first difference, a proper prefix being smaller |
| `CommandHistoryQueries.LimitExact` | apps/worker/src/storage/history.ts:150-150 | the page size asked for, moved into 1 to 100; 50 by default |
| `CommandHistoryQueries.BatchExact` | apps/worker/src/storage/history.ts:223-223 | the batch size asked for, moved into 1 to 1000 |
| `CommandHistoryQueries.NextSelects` | apps/worker/src/storage/history.ts:174-194 | the next page starts exactly behind the rows of a full page |
| `CommandHistoryQueries.FollowEnds` | apps/worker/src/storage/history.ts:184-194 | on an unchanged table following the cursor reaches the end within as many pages as the rows fill |
| `CommandHistory.PruneExact` | apps/worker/src/storage/history.ts:222-233 | a prune drops exactly the owner's rows at positions 100000 to 100000 + batch of the newest-first order, and nobody else's |
| `CommandHistory.PairKeepsNewest` | apps/worker/src/storage/history.ts:102-233 | an append followed by its prune keeps exactly the owner's newest 100000 rows |
| `CommandHistory.RetentionBound` | apps/worker/src/storage/history.ts:102-233 | over any interleaving of append-then-prune pairs an owner has at most 100000 rows and the appends not yet pruned |
| `CommandHistory.PruneCounts` | apps/worker/src/storage/history.ts:222-233 | a prune never adds rows to anyone and removes one of an owner over the limit |
| `Workbench.NextAvailable` | apps/web/src/lib/workbench-sessions.ts:125-130 | a tab of the order that is not excluded, none exactly when there is no other |
| `Workbench.AlwaysWellLaidOut` | apps/web/src/lib/workbench-sessions.ts:227-423 | after every sequence of actions: the order lists every session once; the active tab is undefined exactly when there are no tabs; a single layout shows the active tab in pane 0; a split layout shows two distinct existing tabs, the active one in the focused pane; logs stay within 200 entries |
| `Workbench.ReduceKeepsLayout` | apps/web/src/lib/workbench-sessions.ts:227-423 | every single action keeps that invariant |
| `Workbench.SelectKeepsLayout` | apps/web/src/lib/workbench-sessions.ts:132-156 | selecting an existing tab restores agreement of the active tab with the focused pane |
| `Workbench.RemoveKeepsLayout` | apps/web/src/lib/workbench-sessions.ts:158-189 | removing a tab refills its pane or leaves split view without repeating or losing a tab |
| `Workbench.ToggleKeepsLayout` | apps/web/src/lib/workbench-sessions.ts:191-213 | toggling split view keeps the invariant, also with fewer than two tabs |
| `Workbench.VisibleSound` | apps/web/src/lib/workbench-sessions.ts:425-431 | what is shown are at most two distinct existing tabs, the active one among them, and nothing exactly when there are no tabs |
| `Workbench.StaleAttemptIgnored` | apps/web/src/lib/workbench-sessions.ts:275-330 | messages of an earlier connection attempt change nothing |
| `Workbench.AttemptStable` | apps/web/src/lib/workbench-sessions.ts:227-423 | only a reconnect, a removal or a clear changes what attempt a tab is on |
| `Workbench.AlwaysQuiet` | apps/web/src/lib/workbench-sessions.ts:227-423 | for every sequence of actions that opens tabs as lines 98-123 create them, a tab at rest (idle, closed or failed) does not ask to be connected |
| `Workbench.ReduceKeepsQuiet` | apps/web/src/lib/workbench-sessions.ts:227-423 | every single action keeps that |
| `Workbench.AttentionKept` | apps/web/src/lib/workbench-sessions.ts:215-225 | no action lowers the attention of a tab that stays in the background, except its own reconnect |
| `Workbench.SessionUpdate` | apps/web/src/lib/workbench-sessions.ts:251-417 | an action about one session replaces that session, under its own id and within 200 log entries, and nothing else |
| `WorkbenchEffects.SelectActivates` | apps/web/src/lib/workbench-sessions.ts:132-156 | a selected tab becomes active, is shown in its own pane or else the focused one, asks for no attention, and no other tab changes |
| `WorkbenchEffects.FocusActivates` | apps/web/src/lib/workbench-sessions.ts:243-248 | focusing a pane of the split view makes its tab active and moves no tab |
| `WorkbenchEffects.OpenAppends` | apps/web/src/lib/workbench-sessions.ts:232-240 | a new tab is stored as given, comes last and is active; an existing one is not opened again |
| `WorkbenchEffects.ToggleKeepsActive` | apps/web/src/lib/workbench-sessions.ts:191-213 | split view shows the active tab and the first other one, leaving it shows the active tab alone; the active tab never changes and one tab cannot be split |
| `WorkbenchEffects.RemoveTakesOne` | apps/web/src/lib/workbench-sessions.ts:158-189 | a removal takes one tab out of its place and leaves the active tab unless it is that one |
| `WorkbenchEffects.RemoveKeepsPanes` | apps/web/src/lib/workbench-sessions.ts:158-189 | split view survives a removal exactly when two tabs remain, and a remaining tab keeps its pane |
| `WorkbenchEffects.ClearEmpties` | apps/web/src/lib/workbench-sessions.ts:420-421 | clearing leaves no tabs |
| `WorkbenchEffects.MessageEffect` | apps/web/src/lib/workbench-sessions.ts:326-381 | status and errors head the log of at most 200 entries, metrics replace metrics, a background tab asks for as much attention as the message deserves and the active one for none |
| `WorkbenchEffects.ReconnectStartsOver` | apps/web/src/lib/workbench-sessions.ts:251-274 | a reconnect starts the given attempt with empty log, no channel and no attention, and keeps the open tool |
| `WorkbenchEffects.PauseRests` | apps/web/src/lib/workbench-sessions.ts:275-290 | a pause of the current attempt brings the tab to rest without a channel |
| `WorkbenchEffects.StateShown` | apps/web/src/lib/workbench-sessions.ts:291-314 | a state of the current attempt is shown; a terminal one withdraws the request to connect and a failure in the background raises the alarm |
| `WorkbenchEffects.FieldsSet` | apps/web/src/lib/workbench-sessions.ts:315-417 | channel, tool and closing flag are set and nothing else changes |
| `WorkbenchEffects.AttentionAsked` | apps/web/src/lib/workbench-sessions.ts:393-406 | attention asked for a background tab never lowers what it had, and the active tab has none |
| `WorkbenchEffects.ShownTabs` | apps/web/src/lib/workbench-sessions.ts:425-431 | split view shows both panes in order, single view the active tab alone |
| `WorkbenchEffects.NumberIsPlace` | apps/web/src/lib/workbench-sessions.ts:443-454 | a tab is numbered by its place among the tabs of its profile, and a lone one has the plain name |
| `WorkbenchEffects.NextIsFirst` | apps/web/src/lib/workbench-sessions.ts:125-130 | the replacement for a pane is the first tab of the order that is not excluded |
| `WorkbenchEffects.DropExact` | apps/web/src/lib/workbench-sessions.ts:165-165 | dropping a tab closes its gap and keeps the order of the others |
| `Workbench.NamesDistinct` | apps/web/src/lib/workbench-sessions.ts:443-454 | two tabs of one profile never carry the same display name, even if the profile was renamed in between |
| `Workbench.ProfileSessionCounts` | apps/web/src/lib/workbench-sessions.ts:433-441 | each profile's count is the number of its sessions, and profiles without sessions have no entry |
| `HostKeyPin.HostKeyVerifier.constructor` | apps/worker/src/ssh/ssh2-engine.ts:406-414 | verification starts by reading the stored key |
| `HostKeyPin.HostKeyVerifier.KeyRead` | apps/worker/src/ssh/ssh2-engine.ts:416-433 | a stored pin, else the profile's fingerprint, decides; without either the user is asked about the presented key |
| `HostKeyPin.HostKeyVerifier.DecideHostKey` | apps/worker/src/ssh/ssh2-engine.ts:138-144 | a decision counts only while one is awaited and for the presented fingerprint; any other changes nothing |
| `HostKeyPin.HostKeyVerifier.ConfirmationTimedOut` | apps/worker/src/ssh/ssh2-engine.ts:466-475 | an unanswered question refuses the key |
| `HostKeyPin.HostKeyVerifier.PinRead` | apps/worker/src/ssh/ssh2-engine.ts:449-459 | "trust and save" verifies only if the key read back is the presented one |
| `HostKeyPin.HostKeyVerifier.Close` | apps/worker/src/ssh/ssh2-engine.ts:327-335 | closing refuses a key that awaits its decision |
| `HostKeyPin.PinAgreement` | apps/worker/src/durable/ssh-session.ts:1913-1973 | however sessions interleave reads, decisions, inserts and re-reads, the fingerprint is written at most once and every session that verified through the pin verified that fingerprint |
| `HostKeyPin.StepAgrees` | apps/worker/src/durable/ssh-session.ts:1940-1973 | no step changes a stored fingerprint |
| `HostKeyPin.RowStays` | apps/worker/src/durable/ssh-session.ts:1940-1962 | once stored, the fingerprint stays the same for the rest of the run |
| `HostKeyPin.SessionsAgree` | apps/worker/src/durable/ssh-session.ts:1913-1973 | two sessions that verified through the pin at any moments of a run verified the same key |
| `HostKeyVerdicts.VerifiedIsJustified` | apps/worker/src/ssh/ssh2-engine.ts:406-464 | over every run a session is verified only if the stored key it read is the presented one, or none was stored and the profile expects it, or none was stored or expected and the user accepted it when asked; "trust and save" also read it back |
| `HostKeyVerdicts.RefusedNeverVerified` | apps/worker/src/ssh/ssh2-engine.ts:406-464 | over every run a rejected, timed-out or mismatching key is never verified later |
| `HostKeyVerdicts.VerdictForEver` | apps/worker/src/ssh/ssh2-engine.ts:406-464 | a verdict never changes |
| `HostKeyVerdicts.ReadOutcome` | apps/worker/src/ssh/ssh2-engine.ts:416-433 | exactly when a stored pin verifies, a profile fingerprint verifies, the user is asked, and the key is refused |
| `HostKeyVerdicts.DecisionOutcome` | apps/worker/src/ssh/ssh2-engine.ts:433-449 | a rejection refuses, an acceptance for once verifies, and only one to be remembered is stored |
| `HostKeyVerdicts.SaveOutcome` | apps/worker/src/durable/ssh-session.ts:1940-1973 | "trust and save" stores the key where none is stored and verifies exactly if the presented key is what is stored then |
| `HostKeyVerdicts.BreakOutcome` | apps/worker/src/ssh/ssh2-engine.ts:460-475 | a time-out, a close or a failed statement refuses what was not verified yet |
| `DirectoryPages.CreateDirectoryPage` | apps/worker/src/durable/ssh-session.ts:2263-2279 | the longest stretch from the offset that fits 500 entries and 48 KiB, never empty before the end, even if one entry is larger |
| `DirectoryPages.CollectListing` | apps/worker/src/durable/ssh-session.ts:792-807 | asking for page after page collects the whole listing, each entry once |

## Left out

- Cryptography (HMAC, SHA, AES-GCM, PBKDF2, JWT) and constant-time comparison: a code or a valid
  signature is a parameter.
- Decoding of frames, cursors, JSON and HTTP requests, and their validation: events carry decoded values.
- UTF-8 decoding of terminal input (`TextDecoder`): the capture's input is text in UTF-16 code units.
- The regular expressions of `isSafeCommandForHistory` are a parameter; its length and
  control-character tests are modelled.
- Confirmation in submission order across output events is not claimed: only stream order holds, and an
  older command confirmed by the same output may use up the echo of a newer one.
- The redaction of commands before they are stored, `clear` of the history and the cursor encoding.
- Deletion of rows between two pages: the paging results are about rows that stay and rows that are added.
- `Totp.SecretRoundTrip`: upper-casing of a character is a parameter that is only assumed to keep the
  letters and digits of the alphabet.
- `Totp.VerifyTotp`: counters are non-negative and the code of a counter is a parameter.
- `Ipv6.ParseIpv6Exact`: lower-casing outside ASCII is the identity; no such letter has a
  hexadecimal digit as its lower case.
- DNS resolution, name normalisation and port policy around the address classification.
- `LeaseProtocol.LeaseSafety`: time only passes while no deadline is overrun (timers fire when due, calls
  end within their bound); the HTTP layer of the registry calls is a reply or a failure, executed or not.
- Awaits inside one registry transaction, one back-off call or one database statement: each is one step,
  as the Durable Object and the database run it.
- `RateLimiter.AuthRateLimiter.Check`: the several readings of the clock within one call are one reading.
- `RateLimiter.AttemptRate`: runs with a success or a day without failures, which reset the count, are
  outside the bound.
- `SftpUpload.LayersConsistent`: frames of one session are handled one after the other, as the message
  queue at `apps/worker/src/durable/ssh-session.ts:183-197` makes them; a close while a frame is in the
  middle of its write is not modelled.
- `SftpDownload.Download`: "completed" is sent whatever the stream yielded; that a remote stream may be
  short is what the reassembly results account for.
- The other SFTP operations (rename, delete, read and write of text files), backpressure and metrics.
- `HostKeyPin.PinAgreement`: deletion of the stored row with its profile, and the `replaced_at` column,
  which no statement sets.
- `HostKeyPin.HostKeyVerifier.KeyRead`: an empty expected fingerprint counts as none.
- The audit log, security events and notifications sent beside the modelled steps.
- `TransferGate.RunValid`: listeners of an abort signal that call back into the gate while it cancels.
- `Workbench.AlwaysWellLaidOut`: session ids are non-empty and no built-in property names of JavaScript
  objects.
- That the active tab's attention is always calm is not claimed: a removal may activate a tab that asks
  for attention.
- The connector's shutdown, its logging and the bytes relayed between the two sockets.
- React rendering, the terminal emulator, Google sign-in, the Tailscale API client and HTTP routing.
