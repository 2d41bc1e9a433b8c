# voytty client model

A Dafny model of the parts of the voytty terminal client where a mistake loses,
repeats or corrupts what the user did, with proofs over all inputs and all runs:

- **Host input codec** (`HostInput`, `HostInputCodec`, `Conservation`, `Chunking`,
  `Stability`, `Splitting`, `Exactness`, `WellFormedStreams`, `Utf8Text`,
  `InputUnits`, `MouseReports`, `HostReplies`). The decoder for what the host terminal sends: text, page keys,
  bracketed paste, control sequences (section 5.4 of ECMA-48), OSC strings, SGR
  mouse reports and UTF-8 (sections 3 and 4 of RFC 3629). `HostInput` gives one
  decoding step and a run as functions; the class `HostInputCodec` is the decoder
  as it is updated in place and is proved to compute the same run.
- **Input lifetimes and the stdin fence** (`Lifetimes`, `StdinFence`). Which decoded
  events reach the session when the input epoch or geometry changes, for every
  interleaving of the reader thread with the session.
- **Uploads** (`Upload`). Client and host of a file transfer with credit-based flow
  control, acknowledgements, cancellation and failures at any point.
- **Session mutations** (`Replay`, `SessionMutations`, `SessionUnaryClient`,
  `RemoteUnary`). Leases, sequence numbers, the bounded target map, the exact-byte
  retry and the hosts' replay registries, as one system.
- **Wire frames** (`Varint`, `Frames`, `FrameDecoder`). The incremental decoder for
  length-prefixed frames and the reading of exactly one response.
- **Attachment epochs** (`Attachment`), **resume input** (`Resume`), **text selection**
  (`Selection`), the **progress journal** (`Journal`), **relay sources** (`RelaySources`)
  and **shell quoting** (`ShellQuote`, against section 2.2, Quoting, of the POSIX Shell
  Command Language).

Concurrent parts are state machines: a datatype of actions, a predicate saying when
an action is enabled, a function giving the next state, and `Exec` for runs. An action
is one stretch of code between awaits, one atomic operation of a thread, one step of
the peer, or one loss. Invariants are proved by induction over runs. Code that updates
objects in place is a class whose methods are proved against the functions that the
theorems are about, or, in `RemoteUnary`, state the property themselves.

`dafny verify dfyconfig.toml` checks the whole project.

## What the proofs found

Some statements that the code suggests are not true of it without a condition. Each has
a theorem with the exact condition.

- Cutting the input stream into reads differently can change what the codec returns.
  `ItemOrderly` names the situations, and `ChunkingIndependence` holds for every stream
  that avoids them. (1) An unfinished UTF-8 character directly before a bracketed paste:
  cut inside the paste's opening, the codec forgets that it was inside a character; uncut
  it does not. `PasteCutExact` shows that such a cut, wherever it falls in the opening,
  is invisible whatever follows if and only if no character is unfinished, and
  `UnfinishedCharacter` that a read can end there. (2) A control sequence or mouse
  report that ends after more than 64 bytes: cut late, it is taken apart; uncut, it is
  recognised. `SequenceCutExact`, `MouseCutExact` and `BrokenReportCutExact` show that a
  cut inside one is invisible if and only if fewer than 64 bytes come before it or, for a
  control sequence, it is a colour reply that is ignored either way; `LongReport` gives
  valid mouse reports that long. Such ignored replies, and sequences that never end,
  are within `ChunkingIndependence`.
- In the middle of an overlong OSC string, the number of its ignored bytes that have
  been reported so far can depend on the cut; `OscReportsLate` gives cuts where it does.
  `OscCutExact` shows that a cut inside an unterminated string changes neither the reports
  nor the bytes held if and only if at most 1024 bytes come before it, or what follows it,
  with an escape held back before it, is again over 1024 bytes, or what follows is a single
  escape and none was held back. The theorems above compare after settling such a string;
  nothing else differs.
- A feed of the frame decoder that fails returns none of the frames it completed before
  the error. `CutsDiffer` gives two cuts of the same bytes of which one loses a frame;
  `FramesLostExactly` shows that none is lost if and only if no chunk completes a frame
  and then fails; `FramesKeptExactly` says the same of where the cuts fall: one lies between
  the last whole frame and the failing byte; and `FeedsAgree` states what never depends on the cut: the error, the
  place, and that the frames returned are the first of those completed.
- A view that returns to live output need not be synchronised. `CatchesUpExactly` shows
  that after lost synchronisation the view is live only upon a later snapshot, exactly
  unless a resume was waiting to finish with its snapshot already applied; and after a
  reconnect, exactly unless the view was live.
- The journal's ids stop at the largest 64-bit number. `SeenUnlessAtTheLimit` shows that
  the next event is seen if and only if the reader's watermark is below it, so the
  theorems about readers are for fewer events.

## Model

| member | source | states |
|---|---|---|
| `HostInputDecoder.HostInputCodec.Feed` | crates/cli/src/terminal_ui.rs:2691-2918 | the in-place decoder terminates and computes exactly the specified run: same events, mode and retained bytes, or the same overflow |
| `HostInputDecoder.HostInputCodec.LoggedTurn` | crates/cli/src/terminal_ui.rs:2694-2916 | one turn of the decoding loop is one step of the specification |
| `HostInputDecoder.HostInputCodec.TurnPaste` | crates/cli/src/terminal_ui.rs:2698-2712 | the paste branch: ends at the first end marker, overflows exactly above the bound |
| `HostInputDecoder.HostInputCodec.TurnOsc` | crates/cli/src/terminal_ui.rs:2744-2813 | the OSC branch, including overlong strings that are discarded while more arrives |
| `HostInputDecoder.HostInputCodec.TurnDiscardCsi` | crates/cli/src/terminal_ui.rs:2720-2733 | an overlong colour reply is skipped to its final byte and reported as ignored |
| `HostInputDecoder.HostInputCodec.TurnSequence` | crates/cli/src/terminal_ui.rs:2814-2908 | the branches for mouse reports, control sequences, page keys and Alt keys |
| `HostInputDecoder.HostInputCodec.TurnText` | crates/cli/src/terminal_ui.rs:2909-2915 | the text branch and its count of UTF-8 continuation bytes |
| `HostInputDecoder.HostInputCodec.PushHostByte` | crates/cli/src/terminal_ui.rs:3014-3035 | adjacent text is merged; a Ctrl-C byte is an event of its own |
| `HostInputDecoder.HostInputCodec.FeedForLifetimes` | crates/cli/src/terminal_ui.rs:2661-2689 | the filtered feed returns exactly the events that pass, in order, and remembers the lifetimes of what it has not finished |
| `HostInputDecoder.ScanOsc` | crates/cli/src/terminal_ui.rs:2751-2779 | the search for the end of an OSC string finds the first terminator outside a UTF-8 character, or knows how many continuation bytes are outstanding at the end |
| `HostInput.OscScanIsFirst` | crates/cli/src/terminal_ui.rs:2759-2779 | no earlier byte outside a character ends the string, and the one found does |
| `InputUnits.UnitComesBack` | crates/cli/src/terminal_ui.rs:2691-2918 | input of which nothing is decoded until it is whole comes back as its own events and nothing else, however it is cut |
| `HostReplies.ReplyRoundTrip` | crates/cli/src/terminal_ui/host_colors.rs:242-266 | the reports of appearance, its mode, readiness and focus, printed with either introducer and cut anywhere, are each read as exactly the event they mean |
| `HostReplies.RepliesAreExact` | crates/cli/src/terminal_ui.rs:2856-2870 | each of those events is read from the sequences that report it and from no others; what is left is a key or passed on |
| `HostReplies.ColorExact` | crates/cli/src/terminal_ui/host_colors.rs:237-266 | a control sequence is taken for a reply exactly if it answers a status request or begins like a report of colours |
| `HostReplies.OscRoundTrip` | crates/cli/src/terminal_ui.rs:2744-2800 | an OSC string within the bound, introduced, terminated and cut in any way, is read as the replies of its body, in order; a cancelled one is ignored |
| `HostReplies.TextFills` | crates/cli/src/terminal_ui.rs:2759-2779 | any text without control characters can be such a body, whatever continuation bytes it has |
| `Conservation.RunConserves` | crates/cli/src/terminal_ui.rs:2691-2918 | the bytes the events stand for, followed by what is retained, are the bytes fed: none lost, none invented, in order; retained bytes stay within the bounds |
| `Conservation.StepKeepsState` | crates/cli/src/terminal_ui.rs:2691-2918 | every step keeps the codec's state valid and, when it waits, within its bound |
| `Conservation.StepAccounts` | crates/cli/src/terminal_ui.rs:2691-2918 | every event a step returns stands for exactly the bytes the step consumed |
| `Chunking.CollectAtoms` | crates/cli/src/terminal_ui.rs:3014-3035 | merging adjacent text loses and reorders nothing |
| `Stability.PasteStable` | crates/cli/src/terminal_ui.rs:2698-2712 | more input never changes a decision about a paste that was already final |
| `Stability.OscStable` | crates/cli/src/terminal_ui.rs:2744-2813 | the same for OSC strings |
| `Stability.SequenceStable` | crates/cli/src/terminal_ui.rs:2814-2908 | the same for keys, mouse reports and control sequences within the bound |
| `Splitting.StepStable` | crates/cli/src/terminal_ui.rs:2691-2918 | a step that takes bytes takes the same bytes with the same events when more input follows |
| `Splitting.TwoFeeds` | crates/cli/src/terminal_ui.rs:2691-2918 | feeding an orderly stream in two parts is feeding it whole |
| `Splitting.ManyFeeds` | crates/cli/src/terminal_ui.rs:2691-2918 | the same for any number of parts, from any valid state |
| `Splitting.DropSplits` | crates/cli/src/terminal_ui.rs:2873-2885 | an overlong colour reply is reported as ignored alike, however it is cut |
| `Splitting.ChunkingIndependence` | crates/cli/src/terminal_ui.rs:2691-2918 | however an orderly stream is cut into reads, it fails alike, and returns the same events up to merging with the same mode and retained bytes |
| `Exactness.PasteCutExact` | crates/cli/src/terminal_ui.rs:2713-2743 | a cut anywhere inside a paste's opening is invisible, whatever follows, if and only if no UTF-8 character is unfinished |
| `Exactness.SequenceCutExact` | crates/cli/src/terminal_ui.rs:2843-2908 | a cut inside a control sequence is invisible if and only if fewer than 64 bytes come before it or the sequence is a colour reply that is ignored anyway |
| `Exactness.TakenApartAs` | crates/cli/src/terminal_ui.rs:2876-2915 | how an overlong sequence is taken apart: an SS3 key whole, any other by its first byte |
| `Exactness.MouseCutExact` | crates/cli/src/terminal_ui.rs:2824-2842 | a cut inside a mouse report is invisible if and only if fewer than 64 bytes come before it |
| `Exactness.BrokenReportCutExact` | crates/cli/src/terminal_ui.rs:2839-2875 | the same of a mouse introducer that ends, past the bound, as another control sequence |
| `MouseReports.LongReport` | crates/cli/src/terminal_ui.rs:2935-2999 | reports of any length parse, so the bound can be exceeded by valid ones |
| `Exactness.OscCutExact` | crates/cli/src/terminal_ui.rs:2801-2812 | from any valid state, a cut inside an unterminated OSC string leaves the reports and the held bytes as they are if and only if the part before it is within the bound, what is left to hold is over the bound again, or only an escape is left |
| `Exactness.OscReportsLate` | crates/cli/src/terminal_ui.rs:2801-2812 | cuts of overlong OSC strings after which the last byte is reported later than without the cut |
| `WellFormedStreams.StreamDecodes` | crates/cli/src/terminal_ui.rs:2691-2918 | any sequence of well-formed items decodes to exactly the events of those items, leaving nothing behind |
| `WellFormedStreams.CutStreamDecodes` | crates/cli/src/terminal_ui.rs:2691-2918 | the same however the stream is cut |
| `WellFormedStreams.ItemDecodes` | crates/cli/src/terminal_ui.rs:2698-2915 | each kind of item, followed by anything, decodes to its own events |
| `WellFormedStreams.StandardSequence` | crates/cli/src/terminal_ui.rs:2843-2875 | every control sequence of the form of section 5.4 of ECMA-48 within the bound is one item |
| `WellFormedStreams.Ss3IsControl` | crates/cli/src/terminal_ui.rs:2843-2846 | so is an SS3 key |
| `WellFormedStreams.AltCharacterIsKey` | crates/cli/src/terminal_ui.rs:2890-2908 | escape and any UTF-8 encoded character make one Alt key |
| `Utf8Text.Utf8Transparency` | crates/cli/src/terminal_ui.rs:2734-2743 | well-formed UTF-8 text, cut anywhere, comes back byte for byte as text, whatever bytes its characters contain |
| `Utf8Text.UnfinishedCharacter` | crates/cli/src/terminal_ui.rs:2909-2915 | a read that ends inside a character leaves the codec counting the bytes still to come |
| `Utf8Text.EncodeIsText` | crates/cli/src/terminal_ui.rs:2909-2915 | the continuation count of the codec fits every UTF-8 encoding |
| `Utf8Text.LeadIsExact` | crates/cli/src/terminal_ui.rs:2909-2914 | a byte announces continuation bytes exactly if it begins the encoding of some character |
| `MouseReports.ParseDecimal` | crates/cli/src/terminal_ui.rs:2988-2999 | the digit loop yields the decimal value, and nothing for an empty, non-digit or too large field |
| `MouseReports.ParsesBack` | crates/cli/src/terminal_ui.rs:2935-2986 | parsing the encoding of a mouse report gives back its code, position and kind |
| `MouseReports.ParsesExactly` | crates/cli/src/terminal_ui.rs:2935-2986 | a report is understood exactly if it spells three numbers within 16 bits, the last two not zero, and then as those |
| `MouseReports.SgrRoundTrip` | crates/client/src/mouse.rs:43-58 | every report the client writes, cut anywhere, is decoded as exactly that report |
| `Lifetimes.DeliveredExactlyWhenCurrent` | crates/cli/src/terminal_ui.rs:2661-2689 | an event is delivered if and only if every read it can stem from was under the current epoch, and for a mouse event the current geometry; terminal replies always pass |
| `Lifetimes.DeliveredByEnds` | crates/cli/src/terminal_ui.rs:2652-2689 | the same when geometries may go up and down, as when inactive waits feed geometry 0: a mouse event is then judged by the first and the last read of its window |
| `Lifetimes.LeftOversDecide` | crates/cli/src/terminal_ui.rs:2672-2687 | if bytes, an unfinished character or a discarded string were left over from a read under another epoch, nothing but terminal replies passes; if nothing was, the read's own lifetimes decide |
| `Lifetimes.EventsComeFromWindow` | crates/cli/src/terminal_ui.rs:2661-2689 | an event stems only from reads since the codec was last idle |
| `Lifetimes.FilteredKeepsReplies` | crates/cli/src/terminal_ui.rs:2661-2689 | filtering keeps order, keeps exactly what passes and all terminal replies |
| `Lifetimes.FilteredInOrder` | crates/cli/src/terminal_ui.rs:2661-2689 | what is delivered is every event that passes, each once and in order |
| `StdinFence.InvHolds` | crates/cli/src/terminal_ui.rs:1398-1616 | conservation, order and tag discipline hold in every reachable state of the pump |
| `StdinFence.ReceivedInOrder` | crates/cli/src/terminal_ui.rs:1553-1616 | over any interleaving and any number of fences the session receives a prefix of what was read, in order, with non-decreasing tags, and the rest is still on its way |
| `StdinFence.TypedAccounted` | crates/cli/src/terminal_ui.rs:1398-1616 | every byte typed has been received, is on its way or is still in the terminal, exactly once and in order |
| `StdinFence.FenceSeparates` | crates/cli/src/terminal_ui.rs:1409-1495 | what is read carries a fence's epoch or a later one if and only if it was typed after the fence had drained the terminal and found it empty |
| `StdinFence.NoStaleInput` | crates/cli/src/terminal_ui.rs:731-750 | end to end: an event the session gets stands for bytes typed one after another and all read in the epoch current at its arrival, after the fence that began it; a mouse event outside the inactive waits also under the geometry current at its arrival |
| `StdinFence.FenceIsNotStuck` | crates/cli/src/terminal_ui.rs:1501-1540 | in every reachable state, a fence that waits for the reader can go on or the reader can take a step |
| `StdinFence.FenceWaitsBriefly` | crates/cli/src/terminal_ui.rs:1501-1616 | however the threads interleave, a fence waits for at most four steps of the reader |
| `StdinFence.FenceCompletes` | crates/cli/src/terminal_ui.rs:1409-1495 | from every state in which the pump runs or waits for a reader that has not crashed, and the bounds hold, the fence can run to its end: next epoch, marked after all that was typed, new reader, nothing received meanwhile |
| `StdinFence.DeathsAreExplained` | crates/cli/src/terminal_ui.rs:1409-1495 | the pump dies only of a read error, a failing drain or an exceeded bound; a reported error does end the next fence; the end of input is reported only if it came |
| `StdinFence.DrainIsBounded` | crates/cli/src/terminal_ui.rs:1424-1465 | a fence reads no more than the drain bound and one buffer less a byte |
| `StdinFence.RetainedIsBounded` | crates/cli/src/terminal_ui.rs:1466-1484 | what is carried over fences stays within its bound |
| `StdinFence.CountersCount` | crates/cli/src/terminal_ui.rs:731-750 | every advance and every finished fence begins a new epoch, every invalidation a new geometry |
| `Upload.InvHolds` | crates/client/src/upload.rs:239-387 | flow control, staging, finish and publication invariants hold in every reachable state |
| `Upload.UploadIntegrity` | crates/client/src/upload.rs:239-387 | at most 1 MiB is unacknowledged; Finish goes out at most once; the host publishes only the exact source, and success means it did |
| `Upload.FailuresAreTrue` | crates/client/src/upload.rs:340-383 | the outcome is called unknown exactly when the connection failed once finishing had begun, and then all was accepted; a published file goes with success, an unknown outcome, a cancellation or an answer of the host; cancellation and unusable sources are reported as such |
| `Upload.ClientJudges` | crates/client/src/upload.rs:298-366 | whatever a host sends, exactly which reports are taken, what is a success and what is malformed |
| `Upload.HostEndsOnce` | crates/daemon/src/session_wire/upload.rs:79-236 | the host stops at its first ending, publishes exactly when told to finish, and tells the client how it ended |
| `Upload.SizesAreBounded` | crates/client/src/upload.rs:255-290 | chunks are at most 64 KiB and less than 256 KiB goes unacknowledged by the host |
| `Upload.StagedIsPrefix` | crates/daemon/src/session_wire/upload.rs:79-236 | while a transfer runs, what the host staged is a prefix of the source at least as long as acknowledged |
| `Upload.FinishAfterAll` | crates/client/src/upload.rs:340-387 | Finish is sent only when the host has accepted the whole source |
| `Upload.NoFalseRejection` | crates/daemon/src/session_wire/upload.rs:120-236 | the host rejects a message only after the client has given up |
| `Upload.HealthyStep` | crates/client/src/upload.rs:239-387 | every step that is no failure uses up work |
| `Upload.NeverStuck` | crates/client/src/upload.rs:239-387 | no reachable state of a transfer without failures is a deadlock |
| `Upload.UploadCompletes` | crates/client/src/upload.rs:239-387 | without failures a transfer of n bytes takes at most 8n + 12 steps and can stop only in success |
| `Replay.RegisterSpends` | crates/daemon/src/session.rs:2357-2394 | an operation runs only if it is not spent; running spends it; no other operation becomes runnable |
| `Replay.RepeatsAreRecognised` | crates/daemon/src/session.rs:2462-2492 | after an operation ran, whatever happens to the registry: the same request joins it while it is remembered, at least while it runs, and is refused later; a different request under its id is always refused |
| `Replay.AnswersAreExact` | crates/daemon/src/session.rs:2357-2394 | an operation runs exactly if its lease is live, it has not run and there is room; it is told that there is no room exactly if only that is missing |
| `Replay.RoomIsMadeFromTheOldest` | crates/daemon/src/session.rs:2476-2489 | making room drops the oldest finished results only, as few as possible, and bars nothing newer |
| `Replay.WindowsAlwaysBounded` | crates/daemon/src/session.rs:2476-2492 | no lease ever holds more than 128 results |
| `Replay.CompletionFrees` | crates/daemon/src/session.rs:2414-2449 | once the last running operation of a lease has finished, the lease takes the next one and can be retired |
| `Replay.MakeRoom` | crates/daemon/src/session.rs:2476-2489 | dropping old results makes room unless one is running, and forgets no operation that ran |
| `Replay.IssueIsFresh` | crates/daemon/src/session.rs:2319-2355 | a lease just issued was never issued before |
| `Replay.HousekeepingIsLater` | crates/daemon/src/session.rs:2414-2449 | completion, retirement of leases and a restart with a new incarnation make nothing runnable again |
| `Replay.FreshOperationRuns` | crates/daemon/src/session.rs:2462-2492 | a new operation on a live lease with nothing running is not refused |
| `SessionMutations.InvHolds` | crates/client/src/unary.rs:259-371 | map, handle, lease, id, wire and replay invariants hold in every reachable state |
| `SessionMutations.IdsNeverReused` | crates/client/src/unary.rs:274-290 | two logical mutations never get the same id for a host, over cancellation at any await, unknown outcomes, lost leases, exhausted sequences and eviction; all writes of a mutation are one request |
| `SessionMutations.UnknownRetiresLease` | crates/client/src/unary.rs:302-310 | after an unknown outcome, no later id for that host is under the same lease |
| `SessionMutations.TargetMapIsSafe` | crates/client/src/unary.rs:339-371 | the map never exceeds 64 targets, every handle in use is the map's own cell, and at most one mutation per target is past the lock |
| `SessionMutations.AppliedAtMostOnce` | crates/daemon/src/session.rs:1358-1380 | a logical mutation is applied at most once, whatever is retried, duplicated, delayed, evicted, retired or restarted |
| `SessionMutations.RanIsOwn` | crates/daemon/src/session.rs:2462-2476 | an operation that ran under a mutation's id was that mutation's own request, so an answer by id is an answer to it |
| `SessionMutations.OutcomesAreTrue` | crates/client/src/unary.rs:291-311 | a refused mutation was never written nor applied, an answered or unknown one was written, a successful one was applied exactly once, and none is written more than twice |
| `SessionMutations.FirstMutationSucceeds` | crates/client/src/unary.rs:259-311 | from the start, a mutation of any target can run through lease, write, execution and answer to success, and the target keeps its lease |
| `SessionMutations.RetrySucceeds` | crates/client/src/remote_unary.rs:90-112 | when a request ran but its answer was lost, the same bytes are written again, are not run again, and the mutation succeeds |
| `SessionMutations.NothingEvictedEarly` | crates/client/src/unary.rs:339-371 | no target loses its cell before 64 cells were made |
| `SessionMutations.TurnedAwayExactly` | crates/client/src/unary.rs:339-371 | a mutation is turned away at once exactly when 64 other targets are all in use |
| `UnaryClient.SessionUnaryClient.MutationTargetState` | crates/client/src/unary.rs:339-371 | the map changes as in the system's step; a cell that a mutation refers to stays in it; the call fails only when all 64 are in use; a new cell is empty |
| `UnaryClient.SessionUnaryClient.FindInactive` | crates/client/src/unary.rs:355-357 | finds the first entry, in target order, that only the map refers to |
| `UnaryClient.LocalMutationState.TakeId` | crates/client/src/unary.rs:273-290 | the cell and the id after taking one are those of the system's step, for a cached lease and for one just received |
| `RemoteUnary.Demand.ExecuteValidated` | crates/client/src/remote_unary.rs:71-115 | at most one write for stateful control, two otherwise, always the same bytes; the result is the first valid reply of the attempts made, or the error of the last, or for a mutation after a write an unknown outcome; a mutation error of another kind means nothing was written |
| `RemoteUnary.Demand.ExchangeAndValidate` | crates/client/src/remote_unary.rs:118-129 | a reply that fails validation counts as failing after the write |
| `RemoteUnary.ValidatedIsDeliverable` | crates/client/src/remote_unary.rs:245-316 | a validated reply is correlated and is of the contracted kind or a service error that carries only its kind |
| `RemoteUnary.ValidationIsStable` | crates/client/src/remote_unary.rs:245-316 | validation leaves a deliverable reply as it is, keeps the kind of a service error, and changes nothing the second time |
| `Varint.OneEncoding` | crates/proto/src/lib.rs:1063-1092 | length prefixes and 64-bit numbers correspond one to one |
| `Varint.EncodeVarint` | crates/proto/src/lib.rs:1063-1073 | the loop writes the encoding |
| `Varint.DecodeVarint` | crates/proto/src/lib.rs:1075-1092 | a number is read exactly when the bytes begin with an accepted prefix |
| `Frames.FeedsAgree` | crates/proto/src/lib.rs:945-985 | however a stream is cut, decoding fails alike with the same error and ends in the same place with the same frames |
| `Frames.FramesLostExactly` | crates/proto/src/lib.rs:945-985 | all completed frames are returned if and only if no chunk completes one and then fails |
| `Frames.FramesKeptExactly` | crates/proto/src/lib.rs:945-985 | all completed frames are returned if and only if a cut lies after the last whole frame and before the byte that fails |
| `Frames.CutsDiffer` | crates/proto/src/lib.rs:945-985 | two cuts of the same bytes of which one loses a frame |
| `Frames.StreamDecodes` | crates/proto/src/lib.rs:1007-1029 | encoded frames back to back decode to exactly those frames |
| `Frames.StreamsAccepted` | crates/proto/src/lib.rs:945-995 | a stream decodes to its end as given frames if and only if it is their encodings |
| `Frames.ErrorsAreExact` | crates/proto/src/lib.rs:945-985 | which lengths are malformed, which are too large, and that a body is refused with the error of its own reading |
| `Frames.ScanAccounts` | crates/proto/src/lib.rs:945-985 | whatever decodes without error is whole frames and then the part of one that is held |
| `FrameReader.FrameDecoder.Feed` | crates/proto/src/lib.rs:945-985 | the in-place decoder with its bulk copies computes what the byte-at-a-time machine does |
| `FrameReader.FrameDecoder.AtBoundary` | crates/proto/src/lib.rs:987-993 | a stream may end only between frames |
| `FrameReader.ReadExactResponse` | crates/client/src/remote_unary.rs:425-465 | a response is returned if and only if the whole stream is one encoded frame, however it arrives |
| `Attachment.EpochStaysFramed` | crates/client/src/transport.rs:57-135 | over any run an epoch carries whole commands in order, then at most one command's prefix and not a byte more |
| `Attachment.OpenUntilClosed` | crates/client/src/transport.rs:57-135 | an epoch is open exactly until an action closes it, writable exactly until its write half closes, and is given the commands of the writes up to then, once and in order |
| `Attachment.AttachmentTransport.WriteUntil` | crates/client/src/transport.rs:66-96 | an interrupted write leaves the epoch closed; only a finished write or a closed write half keeps it |
| `Attachment.AttachmentTransport.Retire` | crates/client/src/transport.rs:57-61 | invalidation closes the epoch and sends nothing |
| `Resume.ReleasedExactlyOnce` | crates/cli/src/terminal_ui.rs:2470-2577 | each finished resume period gave back exactly the input it accepted, in order and once; the open one holds all of it within the bound |
| `Resume.SnapshotFlagIsExact` | crates/cli/src/terminal_ui.rs:2518-2561 | a resume can finish if and only if the open period applied a snapshot since the last reconnect |
| `Resume.InputIsKept` | crates/cli/src/terminal_ui.rs:2470-2577 | every byte of input that comes while the view is not live and fits is given back or still held, exactly once and in order |
| `Resume.CatchesUpExactly` | crates/cli/src/terminal_ui.rs:2529-2577 | after lost synchronisation, a reconnect or a visit to history, exactly when the view must see a later snapshot before it is live |
| `Resume.ViewportController.AppendResumeInput` | crates/client/src/input.rs:12-25 | an input unit is admitted whole or not at all |
| `Resume.ViewportController.Begin` | crates/cli/src/terminal_ui.rs:2481-2509 | beginning a resume keeps the input or, over the bound, changes nothing |
| `Resume.ViewportController.RetainOrBegin` | crates/cli/src/terminal_ui.rs:2470-2479 | input while in history begins a resume, and while resuming is retained |
| `Resume.ViewportController.Observe` | crates/cli/src/terminal_ui.rs:2518-2561 | snapshots, lost synchronisation and reconnects change the resume state as specified |
| `Resume.ViewportController.Finish` | crates/cli/src/terminal_ui.rs:2563-2577 | a finish hands over all input of the period, or nothing happens |
| `Selection.NewRange` | crates/core/src/terminal_selection.rs:39-46 | the two ends of a drag in reading order |
| `Selection.ExpandWideExact` | crates/core/src/terminal_selection.rs:55-87 | widening succeeds exactly for ends on the surface, never shrinks, cuts no wide glyph and is idempotent |
| `Selection.ExpandWideIsLeast` | crates/core/src/terminal_selection.rs:55-87 | it is the least range that cuts no glyph |
| `Selection.ExpandWideErrors` | crates/core/src/terminal_selection.rs:55-87 | on any rows, exactly when widening fails and with which error |
| `Selection.TextIsContained` | crates/core/src/terminal_selection.rs:49-136 | the row-by-row text is the cells that the range contains, in reading order, with newlines after unwrapped rows |
| `Selection.ColumnsStayColumns` | crates/core/src/terminal_selection.rs:114-128 | a run of plain cells reads as its bytes, column by column, blanks as spaces |
| `Selection.WideIsReadOnce` | crates/core/src/terminal_selection.rs:114-128 | a wide glyph is read once, whatever stands around it |
| `Selection.Extract` | crates/core/src/terminal_selection.rs:90-136 | for any rows, the loop yields the reading-order text or the first error in its order |
| `Selection.WellFormedOutcome` | crates/core/src/terminal_selection.rs:36-136 | on a well-formed surface extraction is independent of the drag direction and succeeds exactly on the surface with text that is not empty, within the limit and without NUL; each failure has its own error |
| `Journal.ProgressHistory.Record` | crates/client/src/progress.rs:67-81 | the journal stays exactly the last 64 coalesced events since the last clear, with consecutive ids |
| `Journal.ProgressHistory.Clear` | crates/client/src/progress.rs:84-86 | clearing drops entries and keeps the counter |
| `Journal.ProgressHistory.ReadAfter` | crates/client/src/progress.rs:89-94 | a poll returns the retained entries above the watermark, in order |
| `Journal.ReaderIsOrderly` | crates/client/src/progress.rs:66-94 | over any run a polling reader sees no entry twice or out of order, and each as it was recorded |
| `Journal.RepeatsAreCoalesced` | crates/client/src/progress.rs:67-81 | over any run, what was recorded since the last clear are the events reported since, without immediate repeats |
| `Journal.NothingMissed` | crates/client/src/progress.rs:66-94 | between two polls without a clear, a reader gets exactly the last 64 of the entries made, hence all if there were no more, whatever came before |
| `Journal.SeenUnlessAtTheLimit` | crates/client/src/progress.rs:75 | after any run a new event is seen by the next poll if and only if the reader's watermark is below the largest id |
| `RelaySources.MergeRelaySources` | crates/client/src/route.rs:257-284 | the loops compute the first occurrence of every hint, each source cut on its own |
| `RelaySources.FirstsAreExact` | crates/client/src/route.rs:257-284 | the result keeps the order offered and labels each hint with its earliest source |
| `RelaySources.MergePromises` | crates/client/src/route.rs:257-284 | no hint appears twice, no source displaces another's hints, fresh hints come before cached ones before those of the ticket, each source keeps its order, and each hint is labelled with the first source that has it |
| `ShellQuote.QuoteRoundTrip` | crates/cli/src/lib.rs:1334-1344 | a shell reads a quoted value as exactly one word, the value |
| `ShellQuote.QuotedWordsRoundTrip` | crates/cli/src/lib.rs:1334-1344 | quoted values on one line are read back one by one |
| `ShellQuote.ConnectTargetRoundTrip` | crates/cli/src/lib.rs:1346-1353 | a target that looks like an option is read as an operand after the end of options |

## Left out

- The parsers for OSC colour replies and enhanced keys are parameters of the codec; the theorems hold for every such parser that returns at least one reply per OSC string.
- StdinFence: the pump, its threads and its channel are one state machine on values rather than objects, because the threads interleave; memory ordering beyond atomic counters is not modelled, a poll that a signal interrupts is not counted as a step of the reader, and a drain that ends at a hang-up or end of file is taken to have found the terminal empty.
- NoStaleInput: promises no geometry for mouse events that arrive during the inactive waits (crates/cli/src/terminal_ui.rs:404 and 668), because the code feeds geometry 0 there; the epoch is promised for them too.
- Upload: client and host are one state machine on values; transfer ids, frame encoding, progress reports to the user, deadlines and file-system operations are not modelled, and after a write failure the client fails at once rather than waiting for a typed answer.
- SessionMutations: covers the remote path with its retry; requests to the local daemon and forwarding through it are not modelled. Lease requests are modelled by their effect, and which inactive target or retirable lease is evicted is left open, so the results hold for any choice.
- Replay: the registry as one principal sees it; the limits on principals and on leases over all principals are not modelled. A daemon incarnation is taken to be new at every start, where the code draws 128 random bits.
- Counters that the code increments with overflow checks or in 64 bits (epochs, lease ordinals) are unbounded here, except operation sequences and journal ids.
- RemoteUnary: deadlines, the acknowledgement watch and replacement connections are not modelled; how each exchange goes is an input, and the payload validators are parameters.
- Attachment: the draining of output during shutdown is not modelled; shutdown closes the epoch.
- Resume: scrolling is modelled only where it enters history; window caching, scroll metrics and dragging are not.
- Selection: the validation of surface rows before selection is not modelled; well-formedness is stated where it is needed.
- Varint: the bitwise operations are written as arithmetic on the same bits.
- ShellQuote: reserved words and assignments matter only in command position, which the quoted values are not in; the reader of shell words stops at anything that is not a literal word.
- Legacy mouse encodings, keyboard encoding, presentation, layout, colours, status text, pairing, discovery, transport set-up and the daemon's session logic: not modelled.
