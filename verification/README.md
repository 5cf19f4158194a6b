# Verified models of the Surf Ace compositor

A Dafny project that models the parts of the compositor with the most intricate state and proves
what they promise. Each part follows the form of its source: objects that update fields are classes,
loops are loops, and every method is proved equal to a specification function about which the
lemmas speak.

- **Presentation measurement** (`MeasurementCapture`, `MeasurementStory`, `MeasurementIntegrity`,
  `MeasurementFacts`, `MeasurementState`, `MeasurementReasons`, `MeasurementEvidence`, `PresentationBuckets`,
  `PresentationMeasurement`): an evidence recorder with
  three phases, bounded buffers, repeated-frame detection, one-second buckets and loss accounting under
  a lock that is only tried. A snapshot's one boolean is characterised exactly, by the delivered events.
- **Output pump and sanitizer** (`OutputPump`, `Sanitizer`, `AssignmentRedaction`, `BearerRedaction`,
  `UriRedaction`, `RecordGrammar`, `AssignmentGrammar`, `BearerGrammar`, `UriGrammar`, `SanitizedRecord`,
  `SecretRemoval`, `JournalLines`, `Masking`, `Text`, `Utf8`, `UnicodeText`): a chunked, bounded,
  failure-tolerant line framer that refines cutting the stream at newlines, and the hand-written scanners
  that redact each record.
- **Supervisor session and process manager** (`SupervisorSession`, `ProcessTables`, `ProcessLog`,
  `ProcessManager`, `ProcessWorker`, `SpawnRules`, `ReapRules`, `UnitNames`, `NameRules`): the events a
  child's supervisor attempts, the tables of tracked children, the log of the worker, and the allocation
  of unit names and slots.
- **Rotation, crop and root geometry** (`ScreenCapture`, `CaptureStore`, `RootGeometry`, `OutputRotation`,
  `RowMajor`): pixel loops, a capture store with a staged generation, a transactional geometry authority,
  and three rotation tables that agree.
- **Launch-command splitter** (`LaunchCommand`): a quoting automaton with its grammar and its printer.

Where a specification function follows the steps of the source, a second statement in other terms says
what it comes to: the grammars and `SanitizedRecord` for the scanners, `JournalLines` for what reaches the
journal, `SpawnRules` and `ReapRules` for the process manager, `NameRules` for unit names, and
`MeasurementState`, `MeasurementReasons` and `MeasurementEvidence` for the measurement.

Some properties one might expect are false of the code. The lemmas named here give the inputs and the
conditions under which the code meets them:

- The assignment pass is not idempotent when it writes "Bearer" and the marker: a second pass takes the
  written scheme for the value (`AssignmentRedaction.IdempotentExactlyWithoutBearer`,
  `SecretRemoval.SecondPassDiffers`).
- A secret can come back if it ends in a part of the scheme as the pass spells it, or overlaps the marker
  (`SecretRemoval.SchemeNameAppears`, `SecretRemoval.PartComesBackExactly`, `SecretRemoval.ComesBackExactly`).
- The URI scan skips a "://" whose colon ends an authority without password
  (`UriRedaction.AllMaskedExactly`, `UriRedaction.SkippedPasswordSurvives`).
- Recorded presentation times may go back in a valid measurement, by repeated frames only
  (`MeasurementFacts.RawTimesExactly`, `MeasurementFacts.RawTimesMayGoBack`).
- When systemd reuses the pid of a tracked child whose exit was already reported, a second exit is sent for
  it (`ProcessLog.SpawnPairedExactly`, `ProcessWorker.ReportedTwice`).
- A mode set before initialization initializes, its preparation does not
  (`RootGeometry.SetIsPrepareAndCommit`).
- Committing a preparation after another publication repeats the generation or makes it go back
  (`RootGeometry.CommitCountsExactly`, `RootGeometry.RunCountsExactly`, `RootGeometry.StaleCommitGoesBack`).
- The native buffer's width and height are 32-bit differences that can overflow
  (`RootGeometry.NativeBufferCovers`, `RootGeometry.NativeWidthWraps`).

Byte strings are sequences of numbers below 256, text is well-formed UTF-8, times are microseconds, and
64-bit and 32-bit limits are written out where the source depends on them. What systemd, the kernel, the
children and other threads do are parameters: every result holds for all of them.

`dafny verify dfyconfig.toml` checks the whole project.

## Model

| member | source | states |
|---|---|---|
| MeasurementIntegrity.IntegrityExactly | src/presentation_measurement.rs:426-470 | A snapshot claims capture integrity if and only if no delivery ever met a held lock and the session from the first press to completion is clean, a condition on the delivered events alone; then the recorded button events and presentations are exactly those of the session, in order. |
| MeasurementFacts.ValidIsContinuous | src/presentation_measurement.rs:201-422 | A snapshot that claims integrity proves a continuous measurement: one device, one output, the press the only button event inside the sixty seconds, button times never back, new frames strictly increasing and never back by seconds and microseconds, repeated frames with their old time. |
| MeasurementFacts.SessionFacts | src/presentation_measurement.rs:201-422 | The same facts for every clean session, by induction over its events. |
| MeasurementFacts.RawTimesExactly | src/presentation_measurement.rs:358-416 | The times of all recorded presentations, repeats included, never go back if and only if every repeated frame has the time of the frame that was new last. |
| MeasurementFacts.RawTimesMayGoBack | src/presentation_measurement.rs:358-416 | A concrete run whose snapshot claims integrity although a repeated frame makes the recorded times go back. |
| MeasurementCapture.MicrosExact | src/presentation_measurement.rs:346-351 | A time in microseconds is missing exactly if 64 bits cannot hold it, and otherwise tells the seconds and the microseconds below. |
| MeasurementEvidence.RunIsExact | src/presentation_measurement.rs:290-410 | After every run, valid or not, every recorded presentation has its exact time and every record says exactly whether it is in the sixty seconds. |
| MeasurementEvidence.ValidTellsEvents | src/presentation_measurement.rs:296-410 | In a valid measurement the records repeat the delivered button events and presentations field by field, one each, in order, and mark a frame exactly if it was presented before. |
| MeasurementEvidence.ValidBuckets | src/presentation_measurement.rs:557-582 | In a valid measurement each of the sixty counts is the number of frames that were new in that second. |
| MeasurementEvidence.StepAligned | src/presentation_measurement.rs:239-241 | The claim of aligned clocks is set by the starting press, exactly if there is a boot id and a monotonic output, and never changes after. |
| MeasurementState.StepIsAfter | src/presentation_measurement.rs:183-422 | Every event makes of the state, reasons and losses aside, what a one-piece account of all its fields says. |
| MeasurementState.RunIsAfter | src/presentation_measurement.rs:183-494 | So does every run, skipping the events that met a held lock. |
| MeasurementReasons.ReasonsExactly | src/presentation_measurement.rs:183-422 | Every event adds exactly the reasons of its faults, each fault spelled out in terms of the event and the state before. |
| MeasurementStory.StoryIsFromFirstPress | src/presentation_measurement.rs:183-219 | The session is the stretch of the run that starts with the first press and ends at completion or at the end of the run; its active output is the one last set before that press, or none. |
| MeasurementStory.RunAdvances | src/presentation_measurement.rs:512-555 | Over every run, contended or not, the phase only advances and reasons, losses and records are only added. |
| MeasurementStory.RunKeeps | src/presentation_measurement.rs:521-555 | After every run all buffers are within their limits, overflow is equivalent to a positive own loss count and leaves a reason, no reason is listed twice, and while nothing overflowed the presentations are the frames seen plus the repeats. |
| MeasurementStory.ContentionCounts | src/presentation_measurement.rs:472-494 | The contention counter is zero if and only if no delivery met a held lock, saturation included. |
| MeasurementCapture.StepKeeps | src/presentation_measurement.rs:183-422 | Every event advances the phase by at most one and keeps all bounds and counts. |
| MeasurementIntegrity.EventMirrors | src/presentation_measurement.rs:201-422 | In a clean session one more event is either clean, and the state mirrors the longer session, or it leaves a reason behind. |
| MeasurementIntegrity.PressMirrors | src/presentation_measurement.rs:215-251 | The first press leaves no reason exactly if boot id, device, output, monotonic clock, CRTC, active output and window end are all in order. |
| MeasurementIntegrity.KeepButtonClean | src/presentation_measurement.rs:270-309 | A button event during recording leaves no reason exactly if it is in time, from the same device, fits the buffer and is not an early release; it is then recorded. |
| MeasurementIntegrity.NewFrameClean | src/presentation_measurement.rs:375-397 | A new frame leaves no reason exactly if neither its time nor its sequence number goes back. |
| PresentationBuckets.BucketOf | src/presentation_measurement.rs:565-580 | A presentation inside the window counts in exactly one of the sixty half-open seconds, and its computed index is that one. |
| PresentationBuckets.BucketsPartition | src/presentation_measurement.rs:557-582 | The sixty counts add up to the number of all non-repeated presentations in the window. |
| PresentationBuckets.BucketCounts | src/presentation_measurement.rs:557-582 | The loop computes for each second the number of non-repeated in-window presentations in it; no counter saturates. |
| PresentationMeasurement.CaptureState.CheckCurrentOutput | src/presentation_measurement.rs:498-510 | Updates the state in place as the output check of the specification. |
| PresentationMeasurement.CaptureState.MarkLostRecord | src/presentation_measurement.rs:551-555 | Marks overflow, counts the loss up to the 64-bit limit and leaves the reason. |
| PresentationMeasurement.CaptureState.RecordOutputIdentity | src/presentation_measurement.rs:521-527 | Appends the output identity, or marks a lost record when sixteen are held. |
| PresentationMeasurement.CaptureState.PushButton | src/presentation_measurement.rs:535-541 | Appends the button event, or marks a lost record when 512 are held. |
| PresentationMeasurement.CaptureState.PushPresentation | src/presentation_measurement.rs:543-549 | Appends the presentation, or marks a lost record when 32768 are held. |
| PresentationMeasurement.CaptureState.FinishIfBothStreamsPassedWindowEnd | src/presentation_measurement.rs:512-519 | Completes a recording exactly when both streams have passed the window end. |
| PresentationMeasurement.CaptureState.BeginCapture | src/presentation_measurement.rs:219-251 | The state after the first press. |
| PresentationMeasurement.CaptureState.KeepButton | src/presentation_measurement.rs:270-309 | What every recorded button event does to the state. |
| PresentationMeasurement.CaptureState.AdmitPresentation | src/presentation_measurement.rs:356-421 | Repeated frame, new frame or one frame too many: the state after a checked presentation. |
| PresentationMeasurement.PresentationMeasurementCollector.TryCapture | src/presentation_measurement.rs:472-494 | A handler that meets a held lock counts a loss and leaves the state alone. |
| PresentationMeasurement.PresentationMeasurementCollector.SetActiveOutput | src/presentation_measurement.rs:183-197 | Keeps the state equal to what the history of deliveries makes of it. |
| PresentationMeasurement.PresentationMeasurementCollector.RecordButton | src/presentation_measurement.rs:201-310 | Keeps the state equal to what the history of deliveries makes of it. |
| PresentationMeasurement.PresentationMeasurementCollector.RecordInputDeviceRemoved | src/presentation_measurement.rs:314-323 | Keeps the state equal to what the history of deliveries makes of it. |
| PresentationMeasurement.PresentationMeasurementCollector.RecordPresentation | src/presentation_measurement.rs:327-422 | Keeps the state equal to what the history of deliveries makes of it. |
| PresentationMeasurement.PresentationMeasurementCollector.TakeSnapshot | src/presentation_measurement.rs:426-470 | The claim of integrity, the reasons, the shown records, the saturating loss sum and the bucket counts, in terms of the history of deliveries. |
| OutputPump.PumpStream | src/child_supervisor.rs:627-729 | For any script of chunks, interruptions and failures, and any journal: the attempted lines, the sent failures, the failure flag and the outcome are those of the whole stream cut at newlines, and the stream is drained. |
| OutputPump.PumpIsMapOverSplit | src/child_supervisor.rs:659-728 | With a journal that accepts every line, a stream that ends normally yields exactly one line per newline-separated record, in order. |
| OutputPump.FailureIsLast | src/child_supervisor.rs:786-811 | With any journal at most one failure is sent, exactly if a line is refused or the stream breaks; its line is the last one written and no record follows a refused line. |
| OutputPump.ChunkingIsInvisible | src/child_supervisor.rs:640-657 | Splitting a chunk and interrupting between the halves does not change the stream read. |
| OutputPump.PiecesJoin | src/child_supervisor.rs:659-682 | The records contain no newline and joined by newlines are the stream. |
| OutputPump.PiecesUnique | src/child_supervisor.rs:659-682 | There is no other such cut. |
| OutputPump.ConsumeByte | src/child_supervisor.rs:659-710 | One byte keeps the record buffer at most 16384 bytes, equal to the rest of the stream since the last newline unless that got too long, and the journal in step with the lines due. |
| OutputPump.ReportPumpFailure | src/child_supervisor.rs:786-811 | Only the first failure is reported, by one line and one message. |
| OutputPump.EmitRecordOrDiscard | src/child_supervisor.rs:731-761 | Attempts the sanitized line of a record, or the notice for one that is not UTF-8. |
| OutputPump.EmitDiscardedRecord | src/child_supervisor.rs:763-784 | Attempts the notice for a discarded record. |
| OutputPump.FlushRecord | src/child_supervisor.rs:713-728 | The end of the stream emits the last record unless it is empty, discarded or after a failure. |
| JournalLines.WrittenIsSafe | src/child_supervisor.rs:627-823 | Every line a pump writes, whatever the stream and the journal: the k-th line is that of the k-th record, the notice record_too_long above 16384 bytes, the notice invalid_utf8 if it is not UTF-8, and otherwise unit and stream followed by a safe body. The journal's first refusal ends the lines, and without one there is a line for every record, the unterminated last one only if it is too long or the stream ends normally; a failure line comes last and is safe. Safe means sanitized by the grammars, without any configured secret that can be removed, without a token behind "bearer", and with the marker for every password. |
| SanitizedRecord.SanitizeIsRead | src/child_supervisor.rs:813-823 | A sanitized record is what the grammars of secret replacement, assignments, bearer tokens and URIs say, one after the other, for the secrets from the longest to the shortest. |
| SanitizedRecord.NoTokenIsLeft | src/child_supervisor.rs:967-1022 | In a sanitized record no byte of a token follows the word "bearer" and blanks where no key goes on; the URI pass brings none back. |
| SanitizedRecord.NoPasswordIsLeft | src/child_supervisor.rs:996-1022 | Every reading of a sanitized record by the grammar of URIs finds the marker in place of each password. |
| Sanitizer.SanitizeRecord | src/child_supervisor.rs:813-823 | The sanitizer maps text to text: the result is the specified string and well-formed UTF-8. |
| SecretRemoval.NoSecretSurvives | src/child_supervisor.rs:813-823 | Whatever the record, no secret that cannot overlap the marker occurs in the sanitized record, unless it ends in a part of "Bearer ": it is such a part other than a lone space, or it ends in the first bytes of "Bearer " directly behind white space, an equals sign or a colon. |
| SecretRemoval.ApartExactly | src/child_supervisor.rs:813-823 | A secret without square brackets cannot overlap the marker if and only if it is no part of it. |
| SecretRemoval.AssignmentShowsExactly | src/child_supervisor.rs:860-965 | A string that cannot overlap the marker and is not in the record is in the output of the assignment pass if and only if it occurs in the output up to some "Bearer " that the pass writes. |
| SecretRemoval.PartComesBackExactly | src/child_supervisor.rs:937-946 | A part of "Bearer ", as a secret, occurs in some sanitized record if and only if it is not the lone space. |
| SecretRemoval.ComesBackExactly | src/child_supervisor.rs:813-823 | A secret without square brackets that does not end in a part of "Bearer " occurs in some sanitized record if and only if it is a part of the marker. |
| Sanitizer.ReplacementRemoves | src/child_supervisor.rs:813-819 | After the exact replacement no secret that cannot overlap the marker occurs, whatever the other secrets. |
| Sanitizer.ReplacedIsGone | src/child_supervisor.rs:817-819 | Replacing a secret removes it, also across markers. |
| Sanitizer.LaterPassesKeepItGone | src/child_supervisor.rs:967-1022 | The bearer and URI passes do not bring a secret back. |
| SecretRemoval.SchemeNameAppears | src/child_supervisor.rs:937-946 | A concrete record whose sanitized form shows the secret "Bearer", which the record does not contain. |
| Sanitizer.LongestFirstIsStable | src/child_supervisor.rs:815-816 | The secrets are tried by descending length, those of one length in the given order, without the empty ones. |
| Masking.MaskingRevealsNothing | src/child_supervisor.rs:813-1022 | A pass that keeps stretches and shows markers reveals no string that cannot overlap the markers. |
| Utf8.AutomatonIsGrammar | src/child_supervisor.rs:738-740 | The byte automaton used in the proofs accepts exactly the strings of section 4 of RFC 3629. |
| UnicodeText.ValidIsEncoded | src/child_supervisor.rs:738-740 | A record is well formed if and only if it encodes a string of Unicode scalar values. |
| UnicodeText.EncodingIsUnique | src/child_supervisor.rs:738-740 | That string is unique. |
| Utf8.CutBesideAscii | src/child_supervisor.rs:860-994 | A well-formed string can be cut next to an ASCII byte. |
| AssignmentRedaction.RedactSensitiveAssignments | src/child_supervisor.rs:860-906 | The index-driven scanner terminates, computes the specified pass and returns well-formed UTF-8, so its whole-record fallback is never taken. |
| AssignmentRedaction.SensitiveValueReplacement | src/child_supervisor.rs:908-965 | Where a value ends and what replaces it: marker, quoted, bearer, whole-rest and plain values. |
| AssignmentRedaction.FindSeparator | src/child_supervisor.rs:874-885 | The separator after a key: white space, at most one quote, white space, then an equals sign or colon. |
| AssignmentGrammar.AssignmentsAreMasked | src/child_supervisor.rs:842-965 | Every record has a reading by a grammar written without the scanner, and the pass shows what any reading shows: every maximal key run that contains one of the nine names in any case and is followed by blanks, at most one quote, blanks, an equals sign or colon, and blanks has its value replaced by the marker, up to the closing quote, the end of a bearer token, the end of the record for cookie and authorization, or the value boundary; all else is unchanged. |
| Text.ScanToken | src/child_supervisor.rs:1024-1029 | Scans the run of bearer bytes. |
| AssignmentRedaction.AssignCopiesTheRest | src/child_supervisor.rs:860-906 | Every byte outside the replaced values is copied unchanged and in order. |
| AssignmentRedaction.IdempotentExactlyWithoutBearer | src/child_supervisor.rs:860-965 | The pass is idempotent on a record if and only if it replaces no bearer token behind its scheme there. |
| SecretRemoval.SecondPassDiffers | src/child_supervisor.rs:937-946 | A concrete record on whose output a second assignment pass makes a change. |
| AssignmentRedaction.NoBearerText | src/child_supervisor.rs:937-946 | A record without "bearer " in any case has no such replacement, so the pass is idempotent on it. |
| AssignmentRedaction.IdentityWithoutSensitiveKey | src/child_supervisor.rs:864-903 | A record in which no maximal key run is sensitive comes through unchanged. |
| AssignmentRedaction.RedactAssignmentsKeepsUtf8 | src/child_supervisor.rs:905-906 | Well-formed UTF-8 stays well formed. |
| BearerRedaction.RedactBearerValues | src/child_supervisor.rs:967-994 | The scanner terminates, computes the specified pass and returns well-formed UTF-8. |
| BearerGrammar.TokensAreMasked | src/child_supervisor.rs:967-994 | The same for the bearer pass: the word in any case, its blanks, and the token behind them, which alone is replaced. |
| BearerRedaction.NoTokenIsLeft | src/child_supervisor.rs:967-994 | In the output no token follows the word "bearer" at a key boundary, anywhere; the pass is idempotent. |
| BearerRedaction.FixedExactlyWhenNothingExposed | src/child_supervisor.rs:967-994 | The pass leaves a record alone if and only if no such token is exposed in it. |
| BearerRedaction.BearerCopiesTheRest | src/child_supervisor.rs:967-994 | Every byte outside the tokens is copied unchanged and in order. |
| BearerRedaction.RedactBearerKeepsUtf8 | src/child_supervisor.rs:993-994 | Well-formed UTF-8 stays well formed. |
| UriRedaction.RedactUriPasswords | src/child_supervisor.rs:996-1022 | The loop that edits the string in place terminates by its unscanned suffix, computes the specified pass, cuts only at character boundaries and returns well-formed UTF-8. |
| UriGrammar.PasswordsAreMasked | src/child_supervisor.rs:996-1022 | The same for the URI pass: text up to the next "://", its authority, and the password between the first colon and the last at sign, which alone is replaced. |
| UriRedaction.RedactTwice | src/child_supervisor.rs:996-1022 | The pass is idempotent. |
| UriRedaction.FixedExactlyWhenMarked | src/child_supervisor.rs:1007-1016 | The pass leaves a record alone if and only if every password it visits is the marker already. |
| UriRedaction.VisitedIsSafe | src/child_supervisor.rs:999-1016 | In a record the pass leaves alone, every visited authority has no password or exactly the marker. |
| UriRedaction.PasswordsAreMasked | src/child_supervisor.rs:999-1020 | In the output the password after every "://" is the marker, unless that "://" starts with the last byte of an authority without password. |
| UriRedaction.AllMaskedExactly | src/child_supervisor.rs:999-1020 | The output leaves no password but the marker after any "://" if and only if the scan of the record skips no scheme with such a password: one that starts with the last byte of a visited authority without password. |
| UriRedaction.SkippedPasswordSurvives | src/child_supervisor.rs:1017-1020 | A concrete record with such a skipped authority, whose password survives. |
| UriRedaction.RedactUriKeepsUtf8 | src/child_supervisor.rs:996-1022 | Well-formed UTF-8 stays well formed. |
| UriRedaction.UriCopiesTheRest | src/child_supervisor.rs:996-1022 | Every byte outside the passwords is copied unchanged and in order. |
| UriRedaction.CutsAtBoundaries | src/child_supervisor.rs:999-1016 | The places where the string is cut are character boundaries. |
| SupervisorSession.FinishChild | src/child_supervisor.rs:499-612 | All frames in order: the first failure of each stream found up to the round of the exit, the exit with the code of the first conclusive wait and whether any failure came before, and the first failures of the other streams; an exit that had to be waited for comes last. |
| SupervisorSession.RunSupervisorSession | src/child_supervisor.rs:155-280 | No frame and status 125 without a readable request; one frame and status 125 for a foreign request, 127 for a failed start; otherwise the start, the frames of the supervision and the end, and the status is the exit code, or 1. |
| SupervisorSession.SessionProtocol | src/child_supervisor.rs:248-612 | Started first, one exit, at most one failure frame per stream, Finished last with the same code and the flag that some failure frame was attempted; every exit frame knows the failures before it. |
| ProcessWorker.WorkerStep | src/process_manager.rs:380-488 | A pass runs on exactly if it is not told to stop and every send is taken; then the command has done what it says, every child and open launch has been looked after and nothing else reported, log and tables agree, slots are distinct, each spawn got one reply in order, and starts and exits stay paired exactly if no reported pid is reused. |
| ProcessWorker.RunWorker | src/process_manager.rs:380-488 | Over every sequence of passes from empty tables, while the worker runs: the tables are those of the passes, log and tables agree, every spawn got one reply in order, and starts and exits alternate for every pid if and only if no pass reused the pid of a child whose exit was reported. Replies never overtake or repeat requests, also when the worker stops. |
| ProcessWorker.NoRestartAt | src/process_manager.rs:402-413 | That no pass did so is a condition on each pass and the tables before it. |
| ProcessWorker.AnswerSpawn | src/process_manager.rs:397-447 | The events sent for a spawn: the exit of a replaced pid first, then one reply, unless shut down. |
| ProcessWorker.ReportedTwice | src/process_manager.rs:402-413 | Three passes from empty tables, a launch, a read exit and a launch under the same pid, that report two exits of one child. |
| ProcessLog.SpawnAgrees | src/process_manager.rs:599-669 | Spawning keeps log and tables in agreement, also through pid reuse. |
| ProcessLog.SpawnPairedExactly | src/process_manager.rs:402-413 | Spawning keeps starts and exits alternating if and only if it does not reuse the pid of a child whose exit was reported. |
| ProcessLog.SpawnKeepsSlotsApart | src/process_manager.rs:536-546 | No two tracked children get names with the same slot. |
| ProcessLog.SpawnHasEffect | src/process_manager.rs:491-735 | Every spawn starts and tracks a child with an unoccupied slot, or records an unconfirmed launch, or changes nothing. |
| ProcessLog.ReapAgrees | src/process_manager.rs:807-1031 | Reaping keeps the agreement in whatever order the tables are visited, and reports only exits of live pids. |
| ProcessLog.TerminateAgrees | src/process_manager.rs:737-805 | Terminating keeps the agreement. |
| ProcessLog.TerminateWaitingAgrees | src/process_manager.rs:1033-1073 | Terminating an unconfirmed launch keeps the agreement. |
| ProcessTables.ReapReportsOnce | src/process_manager.rs:816-1000 | Each reap reports at most one exit, exactly one if the exit becomes known by it, and tracking ends only after the report. |
| ProcessTables.ExactlyOneExit | src/process_manager.rs:816-1000 | A child that is neither terminated nor replaced yields exactly one exit before it is dropped. |
| ProcessTables.ExitCarriesCode | src/process_manager.rs:849-971 | That exit carries the exit code of the application unless no event that knows it was read, however the events are spread over the reaps. |
| ProcessTables.SessionYieldsItsExit | src/process_manager.rs:849-971 | If the events read of a child are the frames of its session, however spread over the reaps and wherever tracking ends, exactly one exit is reported, with the code of the session. |
| ReapRules.UnitlessLife | src/process_manager.rs:816-848 | A child without a unit yields the code of its first observed exit, once, and is tracked up to then. |
| ReapRules.UnitDrops | src/process_manager.rs:849-1000 | Tracking of a unit child ends exactly once the end of its supervisor and the end of its event stream are both known. |
| ReapRules.UnitExit | src/process_manager.rs:849-1000 | Its exit is the first one the supervisor told; otherwise, when tracking ends, the last outcome told; otherwise an unknown code with what the launch observed. |
| ProcessManager.SystemdProcessManager.ReplaceStalePidTracking | src/process_manager.rs:228-239 | Replaces the entry of a pid and returns the unit name of the entry before, if there was one. |
| ProcessManager.SystemdProcessManager.StartUnitless | src/process_manager.rs:671-735 | The tables and result of a launch without a unit. |
| ProcessManager.SystemdProcessManager.SpawnUnit | src/process_manager.rs:544-667 | The slot search terminates by growth of the attempted set and settles on the first candidate that does not collide, or falls back to a launch without a unit. |
| ProcessManager.SystemdProcessManager.Spawn | src/process_manager.rs:491-735 | The tables and result of a spawn, by rules that read only the request and the tracked children: which slot settles it, and what each answer of the system comes to. |
| SpawnRules.SpawnFollowsRules | src/process_manager.rs:491-735 | A spawn settles on the first slot whose name fits, is free and does not collide; a unit is tracked under that name, an exec failure fails, any other failure falls back to a plain process, and so does the lack of a slot, under the name of the last slot that was tried. |
| SpawnRules.ResultExactly | src/process_manager.rs:601-667 | A spawn fails if and only if the settling attempt could not execute the application or the fallback cannot start; it is unconfirmed if and only if that attempt is. |
| ProcessManager.SystemdProcessManager.Terminate | src/process_manager.rs:737-805 | A tracked pid is no longer tracked, whatever systemd does; an unknown one is an error. |
| ProcessManager.SystemdProcessManager.TerminateUnconfirmed | src/process_manager.rs:1033-1073 | The same for unconfirmed launches. |
| ProcessManager.SystemdProcessManager.ReapUnitChild | src/process_manager.rs:849-995 | Reads the events of one unit child and decides whether tracking ends. |
| ProcessManager.SystemdProcessManager.ReapExited | src/process_manager.rs:807-1031 | The tables and the exits of a reap, for any visiting order: every child and open launch is looked after, kept or dropped, and nothing else is reported. |
| UnitNames.EscapeUnitComponent | src/process_manager.rs:1549-1559 | The loop computes the escape. |
| NameRules.EscapeIsBytewise | src/process_manager.rs:1549-1559 | An escaped component is its bytes in order, letters, digits, colon, underscore and dot as they are and all others as two hexadecimal digits. |
| UnitNames.UnescapeInvertsEscape | src/process_manager.rs:1549-1559 | Escaping has a left inverse over all byte strings. |
| UnitNames.EscapeIsInjective | src/process_manager.rs:1549-1559 | Escaping is injective. |
| UnitNames.ShortenUnitComponent | src/process_manager.rs:1561-1584 | The loop computes the shortened component. |
| UnitNames.ShortenKeepsLongestFit | src/process_manager.rs:1568-1584 | The shortened component is the escape of the longest basename prefix that fits plus the 17-byte suffix, and equals no unshortened component. |
| NameRules.ShortenUsesTheRoom | src/process_manager.rs:1568-1584 | A shortened name keeps the longest prefix with which the whole name has at most 255 bytes. |
| NameRules.SuffixIsDigest | src/process_manager.rs:1562-1567 | Its suffix is a hyphen and the digest in sixteen hexadecimal digits. |
| NameRules.DigestExamples | src/process_manager.rs:1562-1566 | The digest of nothing and of "a" are those of 64-bit FNV-1a. |
| UnitNames.Digest | src/process_manager.rs:1562-1566 | The digest loop computes the 64-bit digest with wrap-around. |
| UnitNames.MaxSlotIsLargestFitting | src/process_manager.rs:1586-1597 | A 32-bit slot is allowed if and only if its complete name fits 255 bytes. |
| UnitNames.SlotLimitExists | src/process_manager.rs:515-532 | A basename that needs no shortening always leaves room for a slot. |
| UnitNames.SpawnNamesFit | src/process_manager.rs:566-571 | Every name the spawn loop can build is at most 255 bytes long and parses back to its slot. |
| UnitNames.SlotRoundTrip | src/process_manager.rs:1599-1606 | A unit name parses back to the slot printed into it, whatever its component. |
| NameRules.SlotIsNamed | src/process_manager.rs:1599-1606 | A slot is read from exactly the names "surface", maybe a plus sign, digits of a 32-bit number, a hyphen, anything and ".service". |
| UnitNames.NextCandidateSlot | src/process_manager.rs:1608-1618 | Slot 0 only for the main application and while free; otherwise the least free slot; none exactly if all are taken. |
| ScreenCapture.PackXrgb8888 | src/screen_capture.rs:351-381 | The loop packs every row, flipped or not, and leaves zero where the scanout is too short. |
| ScreenCapture.PackedPixelIs | src/screen_capture.rs:351-381 | Pixel (x, y) of a packed frame is that of scanout row y, or of the y-th row from below if flipped, in plain numbers. |
| ScreenCapture.CropXrgb8888 | src/screen_capture.rs:307-329 | Fails exactly outside the scanout; otherwise the rows of the crop, from any buffer that holds its last row. |
| ScreenCapture.CropPixel | src/screen_capture.rs:322-328 | Pixel (u, v) of a crop at (x, y) is scanout pixel (x + u, y + v). |
| ScreenCapture.CroppedPixelIs | src/screen_capture.rs:322-328 | The same in plain numbers, for every byte and with the length of the crop. |
| ScreenCapture.TargetIsBijective | src/screen_capture.rs:426-440 | Every view pixel is the target of exactly one source pixel. |
| ScreenCapture.RotateXrgb8888 | src/screen_capture.rs:412-454 | The loop writes every view pixel once, from its origin. |
| ScreenCapture.RotateScanoutToView | src/screen_capture.rs:383-410 | The view of a scanout under an output rotation. |
| ScreenCapture.ViewPixelIs | src/screen_capture.rs:412-454 | Where each scanout pixel is seen under each rotation, in plain numbers, and zero where the scanout does not hold the whole pixel. |
| ScreenCapture.RotationsCompose | src/screen_capture.rs:412-454 | Rotating twice is rotating by the composed turn, for all sizes. |
| ScreenCapture.RotationInverses | src/screen_capture.rs:412-454 | Clockwise and counterclockwise are inverse, the half turn is an involution and two clockwise turns. |
| CaptureStore.StageIsolatesGeneration | src/screen_capture.rs:86-150 | While a stage is open it collects the last frame of its generation and other frames are published directly; committing publishes the staged frame, discarding leaves the published one. |
| CaptureStore.StepKeepsFrames | src/screen_capture.rs:59-150 | Published and staged frames are complete, and a staged frame belongs to the open stage. |
| CaptureStore.ScreenCaptureStore.UpdateRootScanout | src/screen_capture.rs:86-117 | Stages or publishes a root frame that shows the scanout upright, with the rotation of its geometry, its geometry and its panes; an empty scanout changes nothing. |
| CaptureStore.ScreenCaptureStore.UpdateFromScanout | src/screen_capture.rs:59-84 | Publishes a frame that shows the scanout upright with the rotation handed in, without geometry and panes. |
| CaptureStore.ScreenCaptureStore.BeginStage | src/screen_capture.rs:119-126 | Opens an empty stage. |
| CaptureStore.ScreenCaptureStore.CommitStage | src/screen_capture.rs:128-139 | Publishes the staged frame of the open stage and closes it. |
| CaptureStore.ScreenCaptureStore.DiscardStage | src/screen_capture.rs:141-150 | Closes the open stage and drops its frame. |
| CaptureStore.ScreenCaptureStore.StageHasFrame | src/screen_capture.rs:152-163 | True exactly if the stage is open and anything is staged. |
| CaptureStore.ScreenCaptureStore.CaptureRoot | src/screen_capture.rs:201-234 | Cropping a frame of the size of its geometry cannot fail; the pixels are those of the physical crop. |
| OutputRotation.PointsStayInView | src/output_rotation_model.rs:88-117 | A physical position is mapped into the view, two positions on the screen keep their distances along the axes, and one beside the screen comes no further from any of them. |
| CaptureStore.RotationTablesAgree | src/output_rotation_model.rs:71-109 | At scale 1 the capture rotation, the crop of a logical pixel and the input mapping name the same pixel, for all rotations and sizes. |
| CaptureStore.ViewPixelIsCroppedPixel | src/root_geometry.rs:506-541 | At scale 1 each view pixel equals the crop of its unit logical rectangle. |
| RootGeometry.NewSnapshotWellFormed | src/root_geometry.rs:423-459 | A new snapshot exists exactly for positive sizes, and its logical size times the factor is the oriented physical size. |
| RootGeometry.CoordinateMapsInvert | src/root_geometry.rs:585-594 | The logical-to-physical map and the unclamped part of its counterpart are mutual inverses. |
| RootGeometry.PhysicalToLogicalInRoot | src/root_geometry.rs:491-504 | Every physical point maps into the half-open logical root, to the nearest point of it, and back if it was not clamped. |
| RootGeometry.CropInsideScanout | src/root_geometry.rs:506-541 | Every crop lies inside the scanout. |
| RootGeometry.CropCoversImage | src/root_geometry.rs:506-541 | Every on-screen point of the image of a rectangle lies inside its crop. |
| RootGeometry.ImageIsPointwise | src/root_geometry.rs:585-594 | The image of a rectangle is exactly the set of the positions of its points. |
| RootGeometry.CropIsTight | src/root_geometry.rs:506-541 | The crop of a rectangle in the logical root exceeds its image by less than a pixel on each side. |
| RootGeometry.CropsOfCut | src/root_geometry.rs:506-541 | Cutting a rectangle in two gives crops whose union is the whole crop and whose overlap is at most one pixel line. |
| RootGeometry.NativeBufferCovers | src/root_geometry.rs:543-558 | On each axis the native buffer is the tight pixel cover of the scaled rectangle if and only if the rounded edges and the extent between them fit 32 bits. |
| RootGeometry.NativeWidthWraps | src/root_geometry.rs:551-552 | A concrete rectangle whose edges fit while the width overflows. |
| RootGeometry.RunCountsGenerations | src/root_geometry.rs:196-405 | Over every run of setters and prepare-and-commit pairs the generation is the number of successful commits, within its maximum, and all seven projections carry the committed snapshot. |
| RootGeometry.PrepareExactly | src/root_geometry.rs:208-315 | Exactly when a preparation succeeds, which fields it sets, and why it fails otherwise. |
| RootGeometry.RunShowsLast | src/root_geometry.rs:196-405 | Over every run of calls size, rotation and scale are those of the last successful call that sets them, and the scale else that of the start. |
| RootGeometry.FailureChangesNothing | src/root_geometry.rs:196-405 | A call fails exactly if it leaves the authority unchanged. |
| RootGeometry.SetIsPrepareAndCommit | src/root_geometry.rs:228-355 | A setter equals its preparation and commit if and only if it is not a mode set with positive size before initialization. |
| RootGeometry.CommitCountsExactly | src/root_geometry.rs:228-319 | Over every run of setters, preparations and commits of earlier preparations: a commit gives the generation after the one its preparation was made from, so it raises the generation by exactly one if and only if that one is still current, and repeats or lowers it exactly if a later one is. |
| RootGeometry.PendingOrigin | src/root_geometry.rs:228-319 | Every preparation that can be committed is the result of an earlier step, made from the value of that moment. |
| RootGeometry.RunCountsExactly | src/root_geometry.rs:196-405 | Over every such run each publication raises the generation by one if and only if every commit is of a preparation made from the current generation. |
| RootGeometry.StaleCommitRepeatsGeneration | src/root_geometry.rs:317-319 | The first commit of another preparation repeats the generation or lowers it. |
| RootGeometry.StaleCommitGoesBack | src/root_geometry.rs:317-319 | Committing a preparation that is two publications old lowers the generation. |
| RootGeometry.RootGeometryAuthority.InitializeGeometry | src/root_geometry.rs:196-226 | Succeeds exactly for a positive size before anything is published; shows its arguments and the startup scale. |
| RootGeometry.RootGeometryAuthority.Mutate | src/root_geometry.rs:357-372 | Builds, stages and publishes the next snapshot, or fails without change. |
| RootGeometry.RootGeometryAuthority.SetScaleFromSource | src/root_geometry.rs:232-248 | Succeeds exactly for a factor from 1 to 4 with a generation left; sets factor and source and keeps the rest. |
| RootGeometry.RootGeometryAuthority.SetScale | src/root_geometry.rs:228-230 | The same with the configuration as its source. |
| RootGeometry.RootGeometryAuthority.CommitPrepared | src/root_geometry.rs:317-319 | Publishes what was prepared. |
| RootGeometry.RootGeometryAuthority.SetRotation | src/root_geometry.rs:341-355 | Succeeds exactly if something is published and a generation is left; sets the rotation and keeps size, factor and source. |
| RootGeometry.RootGeometryAuthority.SetMode | src/root_geometry.rs:321-339 | Succeeds exactly for a positive size, with a generation left if something is published; sets the size and keeps the rest, or initializes unrotated. |
| LaunchCommand.SplitLaunchCommand | src/main.rs:1349-1386 | The loop computes the split; no returned part is empty. |
| LaunchCommand.CharacterClasses | src/main.rs:1358-1376 | Words are separated by the code points of White_Space, one by one, and quotes are the two quotation marks. |
| LaunchCommand.SplitMeaning | src/main.rs:1349-1386 | A rendering of atoms splits into exactly the words the atoms denote; an unclosed quote is an error. |
| LaunchCommand.SplitFailsExactlyOnOpenQuote | src/main.rs:1349-1386 | Splitting fails if and only if the string reads as complete atoms and a quote that is never closed. |
| LaunchCommand.ReadingIsUnique | src/main.rs:1349-1386 | Every string has exactly one reading as atoms and a tail. |
| LaunchCommand.SplitInvertsPrint | src/main.rs:1349-1386 | Splitting inverts printing: any list of non-empty strings, each quoted or escaped in any style and followed by a space, is split back. |
| LaunchCommand.SplitInvertsJoin | src/main.rs:1349-1386 | The same for words joined by single spaces. |

## Left out

- The JSON frames, sockets, systemd-run, systemctl, threads, sleeps and timeouts: their results are inputs of the model.
- Diagnostic records (`emit_compositor_diagnostic`, `emit_unit_record`) and the texts of reasons and warnings, except where they are output of the pump.
- Environment assembly, `sensitive_environment_values` and CLI parsing: they would only add easy members.
- PNG encoding, file paths, `write_root4_full_png` and the per-pane crops of `write_root4_pane_png`, which read the same crop from a list.
- Mutex poisoning: a poisoned lock is not modelled, neither in the measurement collector nor in the capture store.
- `f64` rounding and NaN: geometry is over exact reals, and `next_down` is any function strictly below its argument.
- RootGeometry.NativeBufferCovers: an extent that overflows wraps around, as without overflow checks; with them the source panics exactly there.
- Saturation of `usize` products in the pixel loops: sizes are unbounded naturals.
- The iteration order of hash maps is an input; the results hold for every order.
- Requests of `LocalProcessController` are numbered by its callers; the saturating request counter is not modelled.
- ProcessWorker.RunWorker: is given finitely many passes; after the worker stops, for shutdown or because the receiver is gone, only the replies are constrained.
- OutputPump.PumpStream: is given a finite script of reads, so a reader that is interrupted forever is not modelled; a refused line counts as attempted whether or not part of it was written.
- SupervisorSession.FinishChild: requires that the child is eventually reaped and its pumps end, which the source waits for without limit.
- SecretRemoval.NoSecretSurvives: its condition is sufficient; a longer secret that ends in a part of "Bearer ", or one with square brackets that can overlap the marker, comes back in some records only, depending on the text around it.
- Scene and output transforms, relative motion and readback row order in `src/output_rotation_model.rs`: finite case analysis without use in the modelled paths.
- Viewports and status conversions of `src/root_geometry.rs`, and `validate_factor_value`: no content of their own.
- `src/control.rs`, `src/sun_schedule.rs`, `src/overlay_role_policy.rs` and `src/model.rs`: not modelled.
