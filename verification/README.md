# Access gateway: a verified model

This project models the parts of the access gateway whose correctness is
hardest to see from the code, and proves what they promise for every input and
every run:

- **Session lifecycle** of the gateway agent (`Sessions`, `Persistence`,
  `Lifecycle*`, `ManagerObject`): an in-memory map and a state file that a failed save
  may leave old or new, controller calls outside the lock, compensation, reaping,
  tombstones, crashes and recovery. `Lifecycle` is a state machine whose steps
  are the locked regions and the returns of controller calls; `ManagerObject` is
  the object, each of whose regions is proved equal to its step.
- **Audit delivery** (`Audit`, `AuditObjects`): append, batch, idempotent insert,
  exact acknowledgement, truncate, with crashes and lost responses anywhere.
- **Native encryption guard** (`TlsHandshake`, `TlsGuard`, `TlsHello`,
  `SshGuard`): incremental readers against whole-stream specifications.
- **Provisioning and capacity** (`Provisioning`, `Capacity`, `SessionHistory`,
  `SessionTable`): every SQL update a conditional step on a row, claims in
  transactions under capacity locks.
- **Label selectors and the role resolver** (`Labels`, `Selectors`,
  `SelectorGrammar`, `SelectorParser`, `Resolver`): printer, parser, the language
  the parser reads exactly, and a compiled resolver against its plain meaning.
- **Direct runtime and realtime hub** (`Runtime`, `RuntimeObjects`, `Realtime`):
  connection draining and bounded fan-out.

`dafny verify dfyconfig.toml` checks everything.

Statements that are false of the code are given with a counterexample and the
condition under which they hold, which is exact wherever a lemma says if and only
if:

- A live session can be orphaned when its request is started again while another
  operation on its ID, whose record was pruned, is still in flight
  (`LifecycleRuns.CapPruningOrphans`). The condition is one on each start: no
  other operation on its ID in flight, or only a Get when the deadline has passed
  (`Lifecycle.Guarded`). `LifecycleStale.StartIsSafeExactlyWhenGuarded` shows it
  sufficient and necessary.
- A web-only record that is not terminal, or the record of a start accepted after
  its deadline, does not pass the agent's own recovery check
  (`LifecycleRecords.RecordsStayValid`, `LifecycleRuns.RecoveryAfterIntent`).
- A stop whose record was pruned writes one without an ID, and recovery then
  refuses the whole file (`LifecycleRuns.LostRecordSpoilsFile`,
  `LifecycleRecords.StopWritesValidExactlyWithRecord`).
- A request admitted after its deadline may start a second time: the deadline is
  checked before the lock is taken (`LifecycleReplay.LateReplayStartsTwice`).
- The handshake checker accepts, besides prefixes of allowed messages, a cut
  header whose length bytes are already too large
  (`TlsHandshake.AcceptsPrefixesOfMessages`,
  `TlsHandshake.HopelessHeaderIsAccepted`).
- A printed value list that ends in the empty string does not parse back
  (`Selectors.PrintParseRoundTrip`, `Selectors.RoundTripIsIdentity`,
  `Selectors.TrimmingKeepsMeaning`, `Selectors.TrimmingKeepsSelectorMeaning`).
- An audit event whose ID was used before is lost (`Audit.ReusedIdLosesEvent`).
- An append that failed after its line was written, tried again, leaves a file
  that is not loaded again (`Audit.RetriedAppendBlocksReload`,
  `Audit.AppendRepeatsExactlyUnlessNew`).
- A returned Shutdown does not mean that no worker starts any more, unless the
  session has left running (`Runtime.TerminalOpensAfterShutdown`,
  `Runtime.ShutdownIsFinalExactlyAwayFromRunning`).
- A caller that reads on after a refused handshake record may be given bytes that
  start no allowed message (`TlsGuard.ReadingOnForgetsMessages`); what it is given
  in any case is `TlsGuard.SurvivorsAreInPhase`.
- Claims without the capacity lock overfill a gateway
  (`Capacity.UnlockedRunOverfills`), and so can a claim without a gateway or a
  completion of a session never claimed (`Capacity.CountRisesOnlyByEntering`).

## Model

| member | source | states |
|---|---|---|
| Sessions.StartingRecordIsValid | internal/gatewayagent/manager.go:241-260 | The record Start persists for a validated request passes validateRecord if and only if the request is not web-only and its deadline, if any, is still ahead at acceptance |
| Sessions.RunningTimes | internal/gatewayagent/manager.go:705-738 | The times of a response that passes validateCreateResponse: the session has started before it ends, ends after completion and within the maximum TTL plus the 5-second skew of both start and completion, and at the requested deadline if there is one |
| Sessions.RunningRecordIsValid | internal/gatewayagent/manager.go:676-738 | Such a response turns a valid starting record into a valid running one |
| Sessions.ResponseIsAccepted | internal/gatewayagent/manager.go:705-738 | A controller's answer is accepted if and only if it names the session and a runtime with valid ports and exposure in the requested mode, and its times, or those put in their place, lie within 5 seconds of acceptance and completion, before a requested deadline, after completion and within the requested TTL |
| Sessions.StartedGoesOn | internal/gatewayagent/manager.go:206-226 | A session just started passes the checks recovery makes of a running one |
| Persistence.RecordsForPersistence | internal/gatewayagent/manager.go:615-645 | The kept and removed lists partition the session map; every record that is not closed, expired or failed is kept; behind them are the newest of the others by close time descending and ID ascending, at most maxTerminal and within the retention; a record left out is too old, or the list was full of records closed no earlier |
| Persistence.Classify | internal/gatewayagent/manager.go:616-630 | One pass in any order splits the map into active records, unexpired tombstones and IDs to remove, each listed once |
| Persistence.SortIsNewestFirst | internal/gatewayagent/manager.go:631-636 | Sorting lists the same records, newest close first, ties by ID |
| Persistence.RankIsPosition | internal/gatewayagent/manager.go:631-636 | In a sorted list the number of strictly newer tombstones of a record is its position |
| Persistence.CutKeepsSurvivors | internal/gatewayagent/manager.go:637-643 | Cutting the sorted list keeps exactly the tombstones with fewer than maxTerminal newer ones |
| Persistence.RemovedIsTheRest | internal/gatewayagent/manager.go:637-645 | The removed IDs are exactly those of the map that are not kept |
| Lifecycle.CommitKeepsActive | internal/gatewayagent/manager.go:604-613 | A save, whether it succeeds, fails before or fails after the rename, keeps every active record active in memory and on disk, unless a terminal record is written for that very session |
| Lifecycle.WritesHaveShape | internal/gatewayagent/manager.go:261-479 | What each locked region may write and when: starting only for an unknown ID, running only over starting, terminal only with a confirmed close, undone as the code undoes it |
| Lifecycle.WriteRespectsOwners | internal/gatewayagent/manager.go:303-325 | No locked region writes a terminal record for a live session or touches a session owned by another start in flight |
| Lifecycle.WriteKeepsInv | internal/gatewayagent/manager.go:261-613 | Every locked region with every save outcome keeps the invariant of live, starting and recovering sessions; a start only if no other operation on its ID is in flight, or only an idle Get |
| Lifecycle.StartReturnKeepsInv | internal/gatewayagent/manager.go:288-302 | A return of controller.Start (accepted, refused or failed while possibly started) keeps the invariant |
| Lifecycle.StopReturnKeepsInv | internal/gatewayagent/manager.go:383-396 | A return of controller.Stop or Status, confirmed or not, keeps the invariant |
| Lifecycle.ActivateConflictKeepsInv | internal/gatewayagent/manager.go:303-309 | A start that finds its record changed goes on to compensate and keeps the invariant |
| Lifecycle.LoadKeepsInv | internal/gatewayagent/manager.go:169-191 | Loading and compacting the state file after a crash keeps the invariant |
| Lifecycle.BeginGetKeepsInv | internal/gatewayagent/manager.go:416-438 | The unlocked status query keeps the invariant |
| Lifecycle.StepKeepsInv | internal/gatewayagent/manager.go:169-613 | Every step of the lifecycle keeps the invariant; an admitted start only under that guard |
| Lifecycle.OtherStepsAreCalm | internal/gatewayagent/manager.go:288-302 | A step that writes nothing changes neither copy and moves an operation only along its own path |
| Lifecycle.LiveSessionsAreNeverOrphaned | internal/gatewayagent/manager.go:241-613 | Over every run of starts, stops, gets, compensations, crashes and recoveries whose starts find their IDs free of other operations, whatever is pruned and with any save failing either way, a session live at the controller has a non-terminal record on disk, and in memory unless the agent is down |
| LifecycleCapacity.SessionsStayWithinMaximum | internal/gatewayagent/manager.go:241-613 | Over every run of starts, stops, gets, crashes and recoveries, whatever overlaps and whichever saves fail either way: at most max_sessions records are starting or running, in memory and on disk |
| LifecycleCapacity.AdmissionHasRoom | internal/gatewayagent/manager.go:261-279 | A start that is admitted found its ID free, and fewer than max_sessions records starting, running, stopping or revoke_failed |
| LifecycleCapacity.RoomMeansAdmission | internal/gatewayagent/manager.go:261-280 | With that room a valid request under a new ID is admitted |
| LifecycleStale.StartIsSafeExactlyWhenGuarded | internal/gatewayagent/manager.go:261-287 | The guard is exact: after any guarded run, a further start keeps all live sessions protected in every continuation without another start if and only if it is not admitted, or the only other operations in flight on its ID are Gets and its deadline has passed |
| LifecycleStale.RaceOrphans | internal/gatewayagent/manager.go:383-479 | For every kind of operation beside a start on the same ID, but the idle Get, some continuation orphans the live session |
| LifecycleStale.RetryingOrphans | internal/gatewayagent/manager.go:386-396 | Also beside a stop or compensation that was not confirmed: it writes revoke_failed over the starting record, and a second stop then closes the record around the start |
| LifecycleRuns.CapPruningOrphans | internal/gatewayagent/manager.go:615-645 | Such a start does happen: with a cap of one tombstone, cut for a newer one and not for its age, every startable request has a guarded run that one further start and no other continues to an orphan of its session |
| LifecycleRuns.LostRecordSpoilsFile | internal/gatewayagent/manager.go:397-409 | A guarded run in which a stop loses its record to the cap, fails at the controller and writes a record without an ID; after a crash recovery refuses the file |
| LifecycleRecords.SoundIsValid | internal/gatewayagent/manager.go:676-703 | What validateRecord says of a record the agent writes: it passes if and only if it is terminal, or neither web-only nor the record of a start accepted after its deadline |
| LifecycleRecords.RecordsStayValid | internal/gatewayagent/manager.go:169-191 | Over every guarded run in which no stop finishes after its record is gone, with web-only and late requests: every record in memory and on disk passes validateRecord if and only if it is as just said, a running one expires within the maximum TTL plus skew of its start, and recovery accepts the own state file if and only if all its active records are |
| LifecycleRecords.PlainRunsStayRecoverable | internal/gatewayagent/manager.go:169-191 | So without web-only or late requests recovery never refuses the own state file |
| LifecycleRuns.RecoveryAfterIntent | internal/gatewayagent/manager.go:261-287 | For every request and time of acceptance a run that crashes right after the intent is saved; recovery accepts its file if and only if the request is not web-only and its deadline had not passed |
| LifecycleRecords.StopWritesValidExactlyWithRecord | internal/gatewayagent/manager.go:386-409 | What a stop writes at its end is valid if and only if its record is still in the map and is closed or not web-only |
| LifecycleRecords.LostStopSpoilsFile | internal/gatewayagent/manager.go:386-396 | From any state: an unconfirmed stop that has lost its record saves a file that the next recovery refuses |
| LifecycleRecords.StatusChangeIsSound | internal/gatewayagent/manager.go:676-703 | Stopping, revoke_failed and closed versions keep what a record needs |
| LifecycleRecords.ActivationIsSound | internal/gatewayagent/manager.go:303-320 | The running record a start writes has what it needs, within the expiry bound |
| LifecycleRecords.AdmissionIsSound | internal/gatewayagent/manager.go:241-287 | So has the starting record of every validated request |
| LifecycleRecords.WriteIsSound | internal/gatewayagent/manager.go:241-613 | And whatever a locked region writes, or puts back after a failed save, if no stop finishes without its record |
| LifecycleOnce.DeadlinedRequestStartsAtMostOnce | internal/gatewayagent/manager.go:262-287 | Over every run with restarts, whatever operations overlap, no two calls of controller.Start carry the same session ID and deadline, given deadlines ahead at admission, no close recorded with a time before the acceptance of a call of its ID, and a tombstone cap that is not hit |
| LifecycleOnce.GuardedRunsAreHonest | internal/gatewayagent/manager.go:386-409 | The second of these holds in every guarded run in which the controller reports no close time before acceptance |
| LifecycleOnce.TombstoneSurvives | internal/gatewayagent/manager.go:615-643 | Below the cap an unexpired tombstone is kept |
| LifecycleOnce.PendingSurvives | internal/gatewayagent/manager.go:604-645 | A record of a request whose deadline is ahead is never pruned, nor its tombstone if closed no earlier than acceptance, because retention is at least the maximum TTL |
| LifecycleOnce.AdmissionIsTimed | internal/gatewayagent/manager.go:651-674 | An admitted deadline is at most the maximum TTL after acceptance |
| LifecycleReplay.LateReplayStartsTwice | internal/gatewayagent/manager.go:661-674 | The condition on deadlines is needed: every request with a deadline has a run that starts it twice, in which a replay validated in time is admitted after the deadline, when its tombstone has expired |
| ManagerObject.Index | internal/gatewayagent/manager.go:174-183 | Indexing the loaded records succeeds if and only if every one is accepted and no ID repeats; the map then holds exactly them |
| ManagerObject.Manager.SaveLocked | internal/gatewayagent/manager.go:604-613 | The file and the map after a save, for each of its three outcomes |
| ManagerObject.Manager.DeleteAll | internal/gatewayagent/manager.go:609-611 | Deletes exactly the removed IDs |
| ManagerObject.Manager.WriteLocked | internal/gatewayagent/manager.go:261-286 | A record set and saved, put back or deleted if the save fails, as the lifecycle step; no other active session is touched |
| ManagerObject.Manager.BeginStart | internal/gatewayagent/manager.go:261-286 | Admission by Admit, and the map and file the lifecycle step gives |
| ManagerObject.Manager.Activate | internal/gatewayagent/manager.go:303-325 | Conflict exactly when the record is gone or not starting; otherwise the lifecycle step |
| ManagerObject.Manager.FinishFailedStart | internal/gatewayagent/manager.go:541-560 | The compensation write and its undo, as the lifecycle step |
| ManagerObject.Manager.OpenStart | internal/gatewayagent/manager.go:241-287 | Up to the controller call: a session found running with the same parameters, unchanged; a refusal with the map as before, which needs an invalid request, another session under the ID, a full house or a fault; or a saved intent with the parameters of the request |
| ManagerObject.Manager.CompleteStart | internal/gatewayagent/manager.go:288-327 | From the controller call on: one call, then running in map and file as requested and as answered, or compensated because the answer was unacceptable or for a fault |
| ManagerObject.Manager.CompensateStart | internal/gatewayagent/manager.go:534-568 | A failed start is marked failed only with the controller's confirmation, and otherwise stays as revoke_failed |
| ManagerObject.Manager.Start | internal/gatewayagent/manager.go:241-327 | A response means that the session runs in map and file with the parameters of the request, the exposure and the times the controller answered, not expired when the call was complete, after exactly one call; or that it ran before with these parameters and nothing changed. An error means no call, an unchanged map and a request that could be refused, or a call that was compensated because its answer was unacceptable; or a fault |
| ManagerObject.Manager.BeginStop | internal/gatewayagent/manager.go:347-381 | The stop decision and the lifecycle step; touches no other active session |
| ManagerObject.Manager.FinishStop | internal/gatewayagent/manager.go:397-409 | The terminal or revoke_failed record and its undo, as the lifecycle step |
| ManagerObject.Manager.Reconcile | internal/gatewayagent/manager.go:462-478 | Writes the terminal status only over a running record, as the lifecycle step |
| ManagerObject.Manager.Get | internal/gatewayagent/manager.go:416-479 | Running is reported only on the controller's word just given, of an unchanged record that has not lapsed; an end as the controller reported it, or as expired when the record has lapsed, once saved; any other record as it stands; not found exactly of an unknown ID; an error only for a fault or a word that is neither, and it loses no active record |
| ManagerObject.Manager.SaveEnd | internal/gatewayagent/manager.go:462-478 | The end the controller reported is saved with its status and time, or the record is still active |
| ManagerObject.Manager.PrepareRecoveredRetry | internal/gatewayagent/manager.go:585-592 | Afterwards Stop may be called on the session whatever its status was, and keeps the given reason unless it is told that the session has expired; nothing else changes |
| ManagerObject.Manager.OpenStop | internal/gatewayagent/manager.go:345-381 | Up to the controller call: reports a terminal record unchanged, or saves the intent under the reason kept or requested; nothing but a fault or another stop or start in flight keeps it from that |
| ManagerObject.Manager.CompleteStop | internal/gatewayagent/manager.go:383-409 | From the controller call on: a close counts only if it is confirmed and saved, and fails to only for a fault; the record then has the status of its reason and the confirmed time |
| ManagerObject.Manager.Stop | internal/gatewayagent/manager.go:340-414 | A reported close of an active session was confirmed by the controller in this very call and saved: expired if the request or the reason kept says so and closed otherwise, at the confirmed time, nothing else of the record changed. A terminal record is reported unchanged. Without a report the ID is none, the session is being started or stopped, or there was a fault, and an active session stays active |
| ManagerObject.Manager.ReapExpired | internal/gatewayagent/manager.go:481-514 | Exactly the revoke_failed sessions and the running ones past their expiry are due, and no other is touched or stopped. Without an error each was stopped at the controller by this pass and is now expired, or closed if it had not lapsed and was not being stopped for that; an error needs a fault or an ID that is none |
| ManagerObject.Manager.Adopt | internal/gatewayagent/manager.go:169-191 | Recovery adopts a file if and only if its records are valid, no ID repeats and the save succeeds; every active record is then adopted unchanged |
| ManagerObject.Manager.Judge | internal/gatewayagent/manager.go:195-226 | One loaded record must be stopped if and only if it is active and does not go on: it goes on when it is running, has not reached its expiry, is within policy and, with a restorer, was restored with the same exposure; it is asked for a restore exactly when the rest holds. The reason says expired exactly when it ran out of time or was being stopped for that |
| ManagerObject.Manager.RecoverOne | internal/gatewayagent/manager.go:195-234 | One record: one that goes on is left as it is and is not stopped; any other active one, without a failure, was stopped at the controller and has the status its record calls for; nothing else is touched; a failure needs a fault or a changed exposure |
| ManagerObject.Manager.Recover | internal/gatewayagent/manager.go:169-239 | Refused only for an invalid or repeated record or a fault. Every loaded session that goes on, running, unexpired at the recovery instant, within policy and restored with the same exposure, is kept unchanged and not stopped, also by an incomplete recovery. A complete one stopped every other active session, expired where it ran out of time and closed otherwise, left no other active, and wrote the map to the file; incomplete needs a fault or a changed exposure |
| TlsHandshake.FeedIsFragmentationIndependent | internal/gatewayagent/native_encryption.go:486-519 | Feeding a then b accepts exactly when feeding a + b does, with the same final state |
| TlsHandshake.BytesInTurn | internal/gatewayagent/native_encryption.go:491-518 | The byte loop composes over concatenation |
| TlsHandshake.OneMessage | internal/gatewayagent/native_encryption.go:491-518 | From a message boundary: header check, then body skipped, then the rest from a boundary |
| TlsHandshake.AcceptsWhatParses | internal/gatewayagent/native_encryption.go:486-519 | The checker accepts exactly what parses as messages, the last one possibly cut |
| TlsHandshake.AcceptsPrefixesOfMessages | internal/gatewayagent/native_encryption.go:486-519 | Up to 2^20 bytes it accepts exactly the prefixes of sequences of allowed messages, except for bytes ending in a cut header whose length is already too large |
| TlsHandshake.KindsInTheClear | internal/gatewayagent/native_encryption.go:501-509 | The kinds of message that may start: 11, 15 and 16 from a client, 4, 11, 12, 13, 14 and 22 from a server |
| TlsHandshake.HopelessHeaderIsAccepted | internal/gatewayagent/native_encryption.go:510-514 | The exception exists: a cut header 11, 255 is accepted though no message starts so |
| TlsHandshake.ParsedIsPrefix | internal/gatewayagent/native_encryption.go:491-518 | Bytes that parse and are not hopeless extend to whole messages |
| TlsHandshake.PrefixParses | internal/gatewayagent/native_encryption.go:491-518 | Every prefix of allowed messages parses and is not hopeless |
| TlsHandshake.BoundaryMeansWholeMessages | internal/gatewayagent/native_encryption.go:510-516 | When the checker is at a boundary the bytes are the encoding of whole allowed messages |
| TlsGuard.TakeRecord | internal/gatewayagent/native_encryption.go:275-287 | A record is taken only whole and with its header in range, and the input is that record and the rest |
| TlsGuard.RecordIsTaken | internal/gatewayagent/native_encryption.go:275-287 | Every well-formed record that starts the input is taken, and the rest is left |
| TlsGuard.AdmittedAreAccepted | internal/gatewayagent/native_encryption.go:521-575 | The records the guard lets through are accepted in turn and start the input, and no acceptable record follows them |
| TlsGuard.PlainRecordsFeed | internal/gatewayagent/native_encryption.go:546-563 | Before the switch TLS 1.2 admits only plaintext handshake and alert records, and the checker has been fed their handshake bytes |
| TlsGuard.SealedAfterSwitch | internal/gatewayagent/native_encryption.go:550-563 | After the switch only records long enough to be sealed |
| TlsGuard.BeforeSwitch | internal/gatewayagent/native_encryption.go:533-563 | An admitted stream up to its first ChangeCipherSpec: plaintext records, checker in step, the rest admitted from there |
| TlsGuard.WholeAtSwitch | internal/gatewayagent/native_encryption.go:534-541 | At the ChangeCipherSpec the handshake bytes, with those behind the hello, are whole messages |
| TlsGuard.Tls12StreamShape | internal/gatewayagent/native_encryption.go:521-575 | Whole TLS 1.2 streams: plaintext handshake and alerts, at most one ChangeCipherSpec on a message boundary, then only sealed records; no application data before the switch |
| TlsGuard.Tls13StreamShape | internal/gatewayagent/native_encryption.go:542-563 | Whole TLS 1.3 streams: application data with room for a tag and at most one ChangeCipherSpec; no plaintext handshake or alert |
| TlsGuard.Tls12AcceptsExactly | internal/gatewayagent/native_encryption.go:521-575 | A TLS 1.2 stream is accepted if and only if it is plaintext handshake and two-byte alert records whose handshake bytes pass the checker, then nothing or one ChangeCipherSpec [1] between two messages and only sealed records |
| TlsGuard.Tls13AcceptsExactly | internal/gatewayagent/native_encryption.go:542-563 | Between two messages a TLS 1.3 stream is accepted if and only if it is application data with room for a tag and at most one ChangeCipherSpec [1] |
| TlsGuard.AcceptedAreAdmitted | internal/gatewayagent/native_encryption.go:521-575 | Records accepted in turn are admitted whole when they arrive as one stream |
| TlsGuard.SecuredExactly | internal/gatewayagent/native_encryption.go:564-569 | The deadline is lifted by application data or a handshake record after the cipher switch, and by nothing else |
| TlsGuard.TlsReader.Handshake | internal/gatewayagent/native_encryption.go:486-519 | The in-place checker computes Feed, and the state it leaves after a refusal |
| TlsGuard.TlsReader.Check | internal/gatewayagent/native_encryption.go:533-569 | The record switch computes Accept, whose streams are exactly those of `TlsGuard.Tls12AcceptsExactly` and `TlsGuard.Tls13AcceptsExactly`, and the state it leaves after a refusal |
| TlsGuard.TlsReader.AwaitedIsDeliverable | internal/gatewayagent/native_encryption.go:521-575 | Every stream of either shape is deliverable to the last byte |
| TlsGuard.TlsReader.Fill | internal/gatewayagent/native_encryption.go:525-571 | Fetching a record keeps what is deliverable, or shows that nothing is |
| TlsGuard.TlsReader.Read | internal/gatewayagent/native_encryption.go:521-575 | A read of any size releases the next bytes of the admitted records, and fails exactly when none are left, so never within a stream of an admissible shape (`TlsGuard.TlsReader.AwaitedIsDeliverable`); failed or not, it keeps what a caller that reads on will be given |
| TlsGuard.TlsReader.Copy | internal/gatewayagent/native_encryption.go:521-575 | Any sequence of reads with any sizes releases, in order, a prefix of the admitted records, and all of them once a read fails; a stream of an admissible shape comes out whole |
| TlsGuard.TlsReader.ReadOn | internal/gatewayagent/native_encryption.go:521-575 | Any sequence of reads that goes on after refusals releases, in order, a prefix of the surviving records, and leaves the rest of them |
| TlsGuard.SurvivorsAreInPhase | internal/gatewayagent/native_encryption.go:521-575 | The records that survive refusals are whole records from the input, in order, each in its phase: plaintext before a ChangeCipherSpec and sealed after it, or tagged application data |
| TlsGuard.PhaseShape | internal/gatewayagent/native_encryption.go:533-563 | In phase means: plaintext handshake and alerts, at most one ChangeCipherSpec, then only sealed records; under TLS 1.3 tagged application data but for one ChangeCipherSpec |
| TlsGuard.AdmittedSurvive | internal/gatewayagent/native_encryption.go:521-575 | The records released before the first refusal come first |
| TlsGuard.ReadingOnForgetsMessages | internal/gatewayagent/native_encryption.go:500-508 | Reading on after a refused handshake record loses the guarantee on messages: its header fragment stays, and the next record completes it, though it starts no allowed message |
| TlsHello.ReadPart | internal/gatewayagent/native_encryption.go:290-323 | One record joins the hello, is skipped, completes it, or shows that there is no hello |
| TlsHello.ReadHello | internal/gatewayagent/native_encryption.go:289-326 | Succeeds if and only if the input starts with the records of one hello within the limits; wire is what was consumed (less than 128 KiB plus one record), and header, hello and extra are the handshake payloads |
| TlsHello.Gather | internal/gatewayagent/native_encryption.go:290-323 | One more record: the only way on for any hello the input may have |
| TlsHello.CompletedHello | internal/gatewayagent/native_encryption.go:313-322 | When the announced length is reached, the parts are as returned |
| TlsHello.HelloIsFragmentationIndependent | internal/gatewayagent/native_encryption.go:289-326 | Two cuts of the same handshake bytes into records yield the same hello, and of the extra bytes one is a prefix of the other |
| TlsHello.VerdictIsFragmentationIndependent | internal/gatewayagent/native_encryption.go:289-326 | Whether a hello is read depends only on the handshake bytes: for every cut of them into records, below the wire limit, it is read if and only if they start with a whole one |
| TlsHello.CutHasHello | internal/gatewayagent/native_encryption.go:289-326 | A cut that holds a whole hello is read whatever follows it |
| TlsHello.HelloIsUnique | internal/gatewayagent/native_encryption.go:289-326 | An input starts with one hello at most, with one way to read it |
| TlsHello.ReadRound | internal/gatewayagent/native_encryption.go:416-454 | Goes on if and only if both sides start with a hello that passes: a checked ClientHello with nothing behind it, a ServerHello whose extra bytes pass the checker, and no retry in a second round; a ClientHello is sent on only if it passed |
| TlsHello.NextRound | internal/gatewayagent/native_encryption.go:416-461 | A round that goes on decides the rest: finished without a retry, at most one more round after one |
| TlsHello.RefusalLeaves | internal/gatewayagent/native_encryption.go:416-461 | What a refusal leaves forwarded: the rounds that passed, and at most the next ClientHello if it passed |
| TlsHello.Negotiate | internal/gatewayagent/native_encryption.go:415-463 | Succeeds if and only if the inputs start with one good round, or one that asks for a retry and one more that does not; bytes forwarded are exactly the bytes consumed; the reader starts with the checker fed the bytes behind the last ServerHello; refused, it has forwarded only rounds and a ClientHello that passed |
| SshGuard.TakePacket | internal/gatewayagent/native_encryption.go:584-597 | A packet is taken only whole and with sizes in range, and the input is that packet and the rest |
| SshGuard.PacketIsTaken | internal/gatewayagent/native_encryption.go:584-597 | Every well-formed packet that starts the input is taken, and nothing more |
| SshGuard.Payload | internal/gatewayagent/native_encryption.go:589-597 | The packet arithmetic leaves a non-empty payload within bounds |
| SshGuard.ThroughShape | internal/gatewayagent/native_encryption.go:695-731 | What passes is whole key-exchange packets, at most 32 up to and including a one-byte NEWKEYS, and after it all the rest; without a NEWKEYS, nothing that follows them could have passed |
| SshGuard.KeyExchangePasses | internal/gatewayagent/native_encryption.go:709-731 | Fewer than 32 packets numbered 30 to 49, a NEWKEYS and whatever follows pass whole |
| SshGuard.SshReader.Fill | internal/gatewayagent/native_encryption.go:703-727 | Fetching a packet keeps what is deliverable, or shows that nothing is; the payload is never empty |
| SshGuard.SshReader.Read | internal/gatewayagent/native_encryption.go:703-731 | A read of any size releases the next deliverable bytes, and fails exactly when none are left; failed or not, it keeps what a caller that reads on will be given |
| SshGuard.SshReader.Copy | internal/gatewayagent/native_encryption.go:703-731 | Any sequence of reads releases, in order and unchanged, a prefix of what may pass, and all of it once a read fails |
| SshGuard.SshReader.ReadOn | internal/gatewayagent/native_encryption.go:703-731 | Any sequence of reads that goes on after refusals releases, in order, a prefix of what survives them, and leaves the rest |
| SshGuard.SurvivingShape | internal/gatewayagent/native_encryption.go:709-727 | What survives refusals is whole key-exchange packets from the input, in order, at most 32, and after a NEWKEYS the rest of the input |
| SshGuard.ThroughSurvives | internal/gatewayagent/native_encryption.go:703-731 | What passes before the first refusal comes first |
| Labels.ValidKeyIsIdent | internal/label/label.go:182-267 | A valid key is non-empty and made of identifier characters, so the parser reads it as one token |
| Labels.ValidValueIsIdent | internal/label/label.go:269-279 | A valid value is made of identifier characters |
| Labels.PartsAreIdent | internal/label/label.go:214-235 | Splitting at dots and joining keeps the character class |
| Selectors.ItemsRoundTrip | internal/label/selector.go:387-432 | Parsing a printed value list returns it with one trailing empty value dropped |
| Selectors.OperatorsMean | internal/label/selector.go:21-41 | Equals asks for the value, in for one of the values, exists for any; the other three hold exactly where these do not, so also of a missing label |
| Selectors.RequirementRoundTrip | internal/label/selector.go:43-60 | Parsing a printed requirement, followed by nothing or a comma, returns it with its list trimmed |
| Selectors.RequirementsRoundTrip | internal/label/selector.go:251-292 | The same for every list of requirements within the limit |
| Selectors.PrintParseRoundTrip | internal/label/selector.go:167-232 | For every valid selector: parsing its printed form fails exactly when some set lists only the empty value, and otherwise returns it with one trailing empty value dropped from every list |
| Selectors.RoundTripIsIdentity | internal/label/selector.go:156-232 | The round trip is the identity if and only if no in or notin list ends in the empty string |
| Selectors.TrimmingKeepsMeaning | internal/label/selector.go:21-41 | Dropping the value keeps what a requirement matches, for all labels, if and only if the list did not end in the empty string or holds it twice |
| Selectors.TrimmingChangesVerdict | internal/label/selector.go:21-41 | For every selector and all labels: dropping the values changes the verdict if and only if the requirements it does not touch hold and those it touches are all of one kind, in or notin |
| Selectors.TrimmingKeepsSelectorMeaning | internal/label/selector.go:156-232 | A valid selector with distinct keys matches the same labels after the round trip if and only if no in or notin list ends in its only empty string |
| Selectors.TrimmedIsValid | internal/label/selector.go:63-92 | A trimmed requirement is valid unless its list held only the empty value |
| SelectorGrammar.WrittenIsRead | internal/label/selector.go:217-464 | Completeness: every text written by the grammar, with blanks before and after keys, signs, operators, values, parentheses and commas, parses to what it means if that is valid, and to nothing otherwise |
| SelectorGrammar.ReadWasWritten | internal/label/selector.go:217-464 | Soundness: every text that parses is blank or written by the grammar, and the result is what it means |
| SelectorGrammar.ClausesAreRead | internal/label/selector.go:251-292 | Up to 32 written requirements are read as what they mean, and more are refused |
| SelectorGrammar.FormIsRead | internal/label/selector.go:294-432 | One written requirement, of each form, is read as what it means |
| SelectorGrammar.RequirementWasWritten | internal/label/selector.go:294-432 | Whatever is read as a requirement was written in one of the forms |
| SelectorGrammar.ItemsAreRead | internal/label/selector.go:396-432 | A written value list, with empty values and a trailing comma, is read as its values |
| SelectorGrammar.ItemsWereWritten | internal/label/selector.go:396-432 | Whatever is read as a value list was written so |
| SelectorGrammar.SameMeaningReadsAlike | internal/label/selector.go:217-464 | Two writings of one selector parse alike, whatever their blanks and equals signs |
| SelectorGrammar.SignsAreRead | internal/label/selector.go:325-346 | For every valid key and value = and == give the one requirement that the label equals the value, and != that it does not |
| SelectorGrammar.BlankIsRead | internal/label/selector.go:254-258 | Blank text is the empty selector |
| SelectorGrammar.TooManyAreRefused | internal/label/selector.go:261-263 | More than 32 requirements are refused, however they are written |
| SelectorGrammar.TrailingCommaIsRefused | internal/label/selector.go:279-289 | Any text that ends in a comma, but for blanks, is refused |
| SelectorGrammar.OpenListIsRefused | internal/label/selector.go:396-432 | Any text with an opening parenthesis and no closing one behind it is refused |
| SelectorGrammar.OtherWordsAreRefused | internal/label/selector.go:361-394 | A word after a key that is neither in nor notin is refused, and so is an operator without an opening parenthesis |
| SelectorParser.Parser.SkipSpace | internal/label/selector.go:460-464 | Skips exactly the leading blanks |
| SelectorParser.Parser.ParseValueToken | internal/label/selector.go:451-458 | Takes the longest run of identifier characters |
| SelectorParser.Parser.ParseIdentifier | internal/label/selector.go:435-448 | As the grammar, failing on an empty token |
| SelectorParser.Parser.NextItem | internal/label/selector.go:398-429 | One turn of the value list |
| SelectorParser.Parser.ParseItems | internal/label/selector.go:396-432 | The value list as the grammar, by position |
| SelectorParser.Parser.ParseValueSet | internal/label/selector.go:387-432 | The parenthesised list as the grammar |
| SelectorParser.Parser.ParseSetOperator | internal/label/selector.go:361-384 | in and notin as the grammar |
| SelectorParser.Parser.ParseSingleValue | internal/label/selector.go:352-358 | The compared value as the grammar |
| SelectorParser.Parser.ParseCondition | internal/label/selector.go:318-349 | What follows a key, as the grammar, whose texts and their meaning are those of `SelectorGrammar` |
| SelectorParser.Parser.ParseRequirement | internal/label/selector.go:294-349 | One requirement as the grammar |
| SelectorParser.Parser.NextRequirement | internal/label/selector.go:260-289 | One turn of the requirement list |
| SelectorParser.Parser.ParseRequirements | internal/label/selector.go:251-292 | The requirement list as the grammar |
| SelectorParser.Parser.ParseSelector | internal/label/selector.go:251-292 | The whole selector as the grammar |
| SelectorParser.Parse | internal/label/selector.go:217-232 | The position-advancing parser terminates on every input and returns what the text means if it is the writing of a valid selector, and nothing otherwise; whatever it returns has such a writing |
| Resolver.NewResolver | internal/iam/resolve.go:38-69 | The compiled form: enabled roles in order, names to their last index, one entry per enabled valid binding that matches a role |
| Resolver.CompileBinding | internal/iam/resolve.go:46-66 | Compiles a binding as CompileOne |
| Resolver.CompileBindings | internal/iam/resolve.go:46-67 | Compiles all bindings in order |
| Resolver.MatchRoles | internal/iam/resolve.go:59-63 | The indices of the roles a selector matches, ascending |
| Resolver.ParseBindingSelector | internal/label/binding.go:10-22 | The selector of a binding: read if and only if it is not blank, at most 1024 long, and parses to a selector that is not match-all; then it is the parsed one |
| Resolver.CompilingKeepsSources | internal/iam/resolve.go:46-87 | The compiled bindings give every role the same sources, in order, as the bindings themselves |
| Resolver.VisitNames | internal/iam/resolve.go:72-79 | The baseline and direct grants go to the named roles |
| Resolver.VisitBinding | internal/iam/resolve.go:80-86 | A matching binding grants each of its roles once |
| Resolver.Visit | internal/iam/resolve.go:71-87 | The grant calls give every role exactly its sources: baseline, direct assignments, bindings, in that order |
| Resolver.Resolve | internal/iam/resolve.go:89-103 | Resolve returns, in directory order, exactly the granted roles of those enabled |
| Resolver.Explain | internal/iam/resolve.go:105-115 | Explain returns every role that has a source, with all its sources, in directory order |
| Resolver.SourcesMeanGranted | internal/iam/resolve.go:71-103 | A role has a source if and only if it is granted |
| Resolver.SourcesAreTrue | internal/iam/resolve.go:71-115 | A source explains a role if and only if it is the baseline for the role named user, a direct assignment of its name, or a binding that grants it, shown with that binding's ID, name, revision and selectors |
| Resolver.EnabledRolesExactly | internal/iam/resolve.go:38-45 | The directory the resolver keeps is exactly the enabled roles |
| Resolver.ExplainListsTheGranted | internal/iam/resolve.go:89-115 | Explain lists exactly the roles Resolve returns |
| Resolver.DistinctNamesGrant | internal/iam/resolve.go:71-103 | With distinct names a role is granted if and only if it is the baseline, directly assigned, or matched with the subject by an enabled valid binding |
| Audit.RemainingMembers | internal/gatewayagent/audit_spool.go:147-153 | Ack keeps exactly the events that are not acknowledged |
| Audit.AppendKeepsInv | internal/gatewayagent/audit_spool.go:49-110 | Append, with a write that fails before or after the line is in the file, keeps the delivery invariant |
| Audit.InsertKeepsRows | internal/repository/access_evidence.go:19-41 | The insert is idempotent by event ID and loses no row |
| Audit.RecordKeepsInv | internal/httpapi/server.go:1886-1891 | Recording the next event of a batch keeps the invariant |
| Audit.AcknowledgedIsRecorded | internal/gatewayagent/audit_reporter.go:149-158 | An event named by an acknowledgement is recorded, itself and not another of its ID |
| Audit.ResponseKeepsInv | internal/gatewayagent/audit_reporter.go:149-161 | Checking an acknowledgement and truncating, with a replacement that fails either way, keeps the invariant |
| Audit.AcceptedEventsAreNeverLost | internal/gatewayagent/audit_spool.go:49-212 | Over every run with crashes, reloads, partly recorded batches and lost responses: every event whose Append succeeded is in the spool file or recorded at the control plane, which holds every event ID at most once |
| Audit.ReusedIdLosesEvent | internal/repository/access_evidence.go:18-26 | The condition is needed: if two events share an ID, some run accepts the second and loses it |
| Audit.ReloadFindsNoDuplicate | internal/gatewayagent/audit_spool.go:168-212 | If no append repeats an ID that a failed append left in the file, a reload refuses the file only for its length |
| Audit.AppendRepeatsExactlyUnlessNew | internal/gatewayagent/audit_spool.go:49-110 | A successful append leaves an ID twice in the file if and only if a failed append had left it there |
| Audit.RetriedAppendBlocksReload | internal/gatewayagent/audit_spool.go:89-110 | The condition is needed: an append that fails after its line is in the file, retried with success, makes the file refused after a crash |
| AuditObjects.ControlPlane.RecordBatch | internal/httpapi/server.go:1843-1896 | An unacceptable batch changes nothing and is not acknowledged; otherwise a prefix of it is inserted in order, the whole of it exactly if it is acknowledged, which only a fault prevents, by its trimmed IDs in the order sent, none empty or repeated. Each row added has the trimmed ID, gateway and session and the details of one event of the batch, and carries the gateway and session of the credential; each event of an acknowledged batch has its row, the event itself if nothing was to be trimmed, unless its ID was taken |
| AuditObjects.ControlPlane.RecordEach | internal/httpapi/server.go:1886-1891 | Inserts a prefix of the batch, in order, and says how much |
| AuditObjects.RecordedExactly | internal/repository/access_evidence.go:19-41 | If every ID names one event, an ID recorded is the event recorded: its trimmed identifiers and its details, the event itself if nothing was to be trimmed |
| AuditObjects.PlainIsStoredAsItself | internal/repository/access_evidence.go:19-41 | An event without blanks around its identifiers is stored exactly when it is itself a row |
| AuditObjects.AddedSpeakFor | internal/httpapi/server.go:1854-1876 | Rows added from an acceptable batch carry the gateway and the session of the credential |
| AuditObjects.CheckBatch | internal/httpapi/server.go:1854-1885 | The batch fits if and only if session and gateway agree and no trimmed ID is empty or repeated; then the IDs to acknowledge |
| AuditObjects.FileEventSpool.Append | internal/gatewayagent/audit_spool.go:49-110 | Append is the protocol step, and succeeds exactly when the protocol counts the event as accepted; without a fault exactly when the event is valid and known or within the limit |
| AuditObjects.FileEventSpool.Pending | internal/gatewayagent/audit_spool.go:112-122 | A prefix of the spool of the normalised batch size |
| AuditObjects.FileEventSpool.Filter | internal/gatewayagent/audit_spool.go:147-153 | The filtering loop computes what remains |
| AuditObjects.FileEventSpool.Ack | internal/gatewayagent/audit_spool.go:130-166 | On success the acknowledged events are gone from spool and file; on failure the spool is unchanged and the file is the old or the new one; without a fault it succeeds exactly if every ID is a UUID |
| AuditObjects.FileEventSpool.Load | internal/gatewayagent/audit_spool.go:168-212 | Loads if and only if every event is valid, no ID repeats and the limit holds; then spool and file agree |
| AuditObjects.RemainingIsTheRest | internal/gatewayagent/audit_spool.go:147-153 | Acknowledging the first n events leaves exactly the others, in order |
| AuditObjects.CheckAcknowledgement | internal/gatewayagent/audit_reporter.go:190-198 | Accepts exactly the IDs sent, in order |
| AuditObjects.AuditReporter.constructor | internal/gatewayagent/audit_reporter.go:96-105 | The batch size is the given one between 1 and 500, and 100 otherwise |
| AuditObjects.AuditReporter.Flush | internal/gatewayagent/audit_reporter.go:110-162 | Success removes exactly the next batch from the spool, all of it recorded and of the reporter's gateway and session, so a spool that holds anything shrinks; failure loses nothing; without a fault it succeeds if every event is the reporter's own under a trimmed ID |
| AuditObjects.AuditReporter.DeliversExactly | internal/gatewayagent/audit_reporter.go:110-162 | What a flush has removed from the spool is recorded as itself if every ID names one event |
| AuditObjects.AuditReporter.DeliverableIsAcceptable | internal/httpapi/server.go:1854-1885 | Distinct events of the reporter's own, under trimmed IDs, are a batch the control plane accepts and acknowledges as sent |
| AuditObjects.AuditReporter.FlushAvailable | internal/gatewayagent/audit_reporter.go:218-231 | The loop terminates on the pending count and has removed only a recorded prefix; without a fault a spool of deliverable events is emptied |
| AuditObjects.SessionAuditSink.FlushLocked | internal/gatewayagent/session_agent.go:44-51 | Terminates; success means the spool is empty and everything it held is recorded, as itself if every ID names one event; without a fault a spool of deliverable events is flushed |
| AuditObjects.SessionAuditSink.Append | internal/gatewayagent/session_agent.go:29-36 | Success means the event and everything spooled before it is recorded at the control plane: trimmed identifiers and details, the event itself if nothing was to be trimmed, if every ID names one event; without a fault a valid, deliverable event is recorded |
| AuditObjects.SessionAgent.Close | internal/gatewayagent/session_agent.go:263-279 | Success means the runtime was stopped, once, and every spooled event is recorded, as itself if every ID names one event |
| Provisioning.UpdateAdvances | internal/repository/sessions.go:81-315 | Every update that matches raises the version by one, a renewal keeps it; none leads back to provisioning or out of a terminal status; closed_at is set with a terminal status |
| Provisioning.WriteKeepsFencing | internal/repository/sessions.go:81-315 | An applied update keeps the log a history of the rows in which nothing goes back |
| Provisioning.CommitKeepsFencing | internal/repository/sessions.go:101-148 | So does the commit of a claim evaluated earlier in its transaction |
| Provisioning.ProvisioningIsFenced | internal/repository/sessions.go:81-315 | Over any interleaving: the version rises on every update but a renewal, at most one completion succeeds per session, an update naming the version of a lease taken over changes nothing, nothing follows closed, expired or failed, closed_at is set exactly there, and a lease is taken over only when last claimed or renewed by the stale boundary |
| SessionHistory.LogIsExplicit | internal/repository/sessions.go:81-315 | Over every run: each update found its row in a status open to it, at the version it named, and each column of the row afterwards is the argument of the update, the time of its transaction, or what it was |
| SessionHistory.RowsTellTheirHistory | internal/repository/sessions.go:81-315 | Over every run: a row that has started shows the start and expiry of the one update that started it, a closed one is as the update that closed it left it, with its time, and a row claimed on a gateway is on the gateway of its last such claim |
| SessionHistory.UpdatedTells | internal/repository/sessions.go:81-315 | An update leaves its row telling of itself and of what it kept |
| Provisioning.FencedShutsOutStaleWorkers | internal/repository/sessions.go:78-163 | Once a later claim has succeeded, no update with the earlier claim's version succeeds |
| Provisioning.LeasesAreKeptInv | internal/repository/sessions.go:150-163 | A claim of a claimed session succeeds only if its last update is not after staleBefore |
| Capacity.CountRisesOnlyByEntering | internal/repository/sessions.go:104-148 | For every update that matches: a gateway's count rises if and only if the session newly enters it, by a claim or by a completion of a session never claimed |
| Capacity.ClaimStaysWithinMaximum | internal/repository/sessions.go:126-134 | Right after a claim the gateway carries at most max_sessions |
| Capacity.CommitKeepsCapacity | internal/repository/sessions.go:101-135 | The commit fills the place its evaluation found, although other transactions committed in between |
| Capacity.StepKeepsCapacity | internal/repository/gateways.go:316-325 | Every step that keeps to the lock discipline keeps the bound |
| Capacity.GatewaysAreNeverOverfilled | internal/repository/sessions.go:101-148 | Over every run in which claims hold the gateway's capacity lock, a gateway never carries more sessions than the largest max_sessions it has had |
| Capacity.MaximumHoldsWhileNotLowered | internal/repository/gateways.go:281-325 | While max_sessions is not lowered, that is the current max_sessions |
| Capacity.UnlockedClaimsOverfill | internal/repository/sessions.go:101-103 | The lock is needed: any run that leaves one place on a gateway goes on to two claims that, evaluated without it, both commit beyond the maximum |
| Capacity.UnlockedRunOverfills | internal/repository/sessions.go:101-148 | From empty tables a run overfills a gateway beyond the largest maximum it has had |
| SessionTable.Repository.CountActive | internal/repository/gateways.go:287-296 | Counts exactly the other sessions on the gateway that are not over and, if still being provisioned, have been claimed |
| SessionTable.RoomIsRoutable | internal/repository/gateways.go:281-301 | The claim guard accepts exactly the gateways bound to the asset, in its region, with binding, asset and gateway enabled, heard from in time and with a free place |
| SessionTable.Repository.OfferOf | internal/repository/sessions.go:112-135 | The join over binding, asset and gateway offers the gateway exactly when the claim guard accepts it |
| SessionTable.Repository.ListAvailableForAsset | internal/repository/gateways.go:281-314 | Lists exactly those gateways, each once: lower priority numbers first, then the less loaded, then the one heard from last with those never heard from behind, then by ID |
| SessionTable.Repository.Create | internal/repository/sessions.go:27-46 | A new session is inserted unless the ID is taken, as provisioning at version 0 on the given gateway with no times but the expiry, and can be claimed |
| SessionTable.Place | internal/repository/gateways.go:303-304 | Inserting an offer at its place keeps the order |
| SessionTable.Repository.ClaimProvisioning | internal/repository/sessions.go:81-99 | Succeeds exactly on a row provisioning at the expected version that was never claimed or is stale; raises version and time and nothing else; afterwards no update naming the expected version goes through, the next version may renew and complete, and no claim takes the lease before its stale boundary reaches this one; the history stays fenced |
| SessionTable.Repository.ClaimProvisioningOnGateway | internal/repository/sessions.go:104-148 | The same on a gateway the session may be routed to, which becomes the gateway of the row; afterwards the gateway is within its maximum |
| SessionTable.Repository.MayClaimOn | internal/repository/sessions.go:108-135 | The WHERE clause: a claimable row and a routable gateway |
| SessionTable.Repository.RenewProvisioningLease | internal/repository/sessions.go:153-163 | Succeeds exactly at the expected version and moves only the time; afterwards the same version may still renew and complete, and no claim takes the lease before its stale boundary reaches this renewal |
| SessionTable.Repository.MarkRunning | internal/repository/sessions.go:165-205 | Succeeds exactly on a row provisioning at the expected version; it is then running with the given start and expiry, the next version and the time, all else as before; no update of any worker goes through, and the session can be revoked |
| SessionTable.Repository.MarkProvisionFailed | internal/repository/sessions.go:207-217 | Succeeds exactly on a row provisioning at the expected version; it is then failed with the given reason, closed now, all else as before; no update goes through at all |
| SessionTable.Repository.MarkProvisionRevokeFailed | internal/repository/sessions.go:223-233 | Succeeds exactly on a row provisioning at the expected version; it is then revoke_failed with the given reason and not closed, all else as before; no update of any worker goes through, and the session can be revoked |
| SessionTable.Repository.MarkRuntimeTerminated | internal/repository/sessions.go:235-256 | Succeeds exactly on a running row and for expired or failed; the row then has that status and the given reason, closed now, all else as before; no update goes through at all |
| SessionTable.Repository.BeginRevoke | internal/repository/sessions.go:258-275 | Succeeds exactly on a running, revoke_failed or manual_intervention row, and changes its status to revoking and nothing else but version and time; the revocation can be closed and cannot begin again |
| SessionTable.Repository.MarkClosed | internal/repository/sessions.go:277-290 | Succeeds exactly on a revoking row and for closed or expired; the row then has that status, closed now, all else as before; no update goes through at all |
| SessionTable.Repository.MarkRevokeFailed | internal/repository/sessions.go:292-302 | Succeeds exactly on a revoking row; it is then revoke_failed with the given reason, all else as before; the session is closed only by beginning the revocation again |
| SessionTable.Repository.MarkManualIntervention | internal/repository/sessions.go:304-315 | Succeeds exactly on a revoking or revoke_failed row; it then has that status and the given reason, all else as before; beginning the revocation is the only update that goes through |
| Runtime.StopMeansDrained | internal/gatewayagent/direct_controller.go:561-615 | Over any interleaving: away from running every registered connection is closed; once a Stop has returned closed or expired, no connection worker is active and nothing is registered |
| Runtime.LeavingRunningIsFinal | internal/gatewayagent/direct_controller.go:262-332 | A runtime that has left running never returns, every connection it has registered is closed, and none is registered later |
| Runtime.NoWorkerStartsAfterStop | internal/gatewayagent/web_terminal.go:41-68 | After a Stop has returned, no TCP, web-terminal or extra terminal worker starts, whatever comes next |
| Runtime.ExpiryIsTheTimers | internal/gatewayagent/direct_controller.go:271-282 | Over any interleaving: a session is expired, or a Stop reports it so, only if its timer has fired |
| Runtime.RevocationFailsByTheExposure | internal/gatewayagent/direct_controller.go:596-601 | Over any interleaving: a revocation has failed only if an exposure could not be removed |
| Runtime.ShutdownMeansDrained | internal/gatewayagent/direct_controller.go:638-667 | Over any interleaving: a Shutdown that returned after it saw the last worker go with the session away from running leaves no worker and nothing registered |
| Runtime.ShutdownIsFinalExactlyAwayFromRunning | internal/gatewayagent/direct_controller.go:656-667 | Where Shutdown stops waiting, no worker starts in any continuation if and only if the session has left running |
| Runtime.TerminalOpensAfterShutdown | internal/gatewayagent/web_terminal.go:41-68 | The condition is needed: Shutdown leaves the status alone, and a run opens a web terminal after it returned |
| Runtime.StepKeepsStatus | internal/gatewayagent/direct_controller.go:696-710 | Away from running, no step registers a connection or reopens one |
| Runtime.ClosingStepKeepsInv | internal/gatewayagent/direct_controller.go:527-549 | Expiry, audit failure, shutdown and Stop close all registered connections in the section that changes the status |
| Runtime.StopStepKeepsInv | internal/gatewayagent/direct_controller.go:588-614 | The waits of Stop establish and keep that all workers are gone |
| Runtime.ShutdownStepKeepsInv | internal/gatewayagent/direct_controller.go:656-667 | The waits of Shutdown keep the invariant |
| RuntimeObjects.DirectRuntime.AddConnection | internal/gatewayagent/direct_controller.go:696-704 | Registers a connection if and only if the runtime is running, in addition to those registered; the next closing section closes it; away from running everything registered stays closed |
| RuntimeObjects.DirectRuntime.RemoveConnection | internal/gatewayagent/direct_controller.go:706-710 | Forgets exactly the connections of one worker; away from running everything registered stays closed |
| RuntimeObjects.DirectRuntime.Close | internal/gatewayagent/direct_controller.go:581-586 | The nested loops close exactly the registered connections, and the listener |
| RuntimeObjects.DirectRuntime.Expire | internal/gatewayagent/direct_controller.go:271-282 | The timer's critical section: a running session is expired, any other status stays; the listener and exactly what is registered is closed |
| RuntimeObjects.DirectRuntime.FailAudit | internal/gatewayagent/direct_controller.go:535-549 | The audit failure's critical section: the first one sets the status to stopping and closes the listener and exactly what is registered; a later one changes nothing |
| RuntimeObjects.DirectRuntime.BeginStop | internal/gatewayagent/direct_controller.go:575-587 | Stop's critical section: an expired session stays expired and any other is stopping; the listener and exactly what is registered is closed |
| RuntimeObjects.PortPool.Listen | internal/gatewayagent/direct_controller.go:244-259 | The port returned is the first that can be bound from the last one on, round the pool; none only if no port of the pool can be, unless cancelled; the next search starts behind it |
| Realtime.Subscription.Send | internal/realtime/hub.go:60-61 | A wanted change sent to an open channel with room brings the subscriber up to date with the changes published |
| Realtime.Subscription.Close | internal/realtime/hub.go:43 | A closed subscriber's history is final: it stays exact whatever is published later |
| Realtime.Subscription.Receive | internal/realtime/hub.go:36-38 | The subscriber takes the oldest queued change; received plus queue stays the same |
| Realtime.Hub.Subscribe | internal/realtime/hub.go:30-46 | A new subscriber starts with nothing received and an empty queue, unless the hub is unavailable |
| Realtime.Hub.Unsubscribe | internal/realtime/hub.go:38-45 | Unregisters and closes, and does nothing the second time |
| Realtime.Hub.Deliver | internal/realtime/hub.go:57-67 | One subscriber: skipped, sent to, or dropped exactly when it wants the change and has no room |
| Realtime.Hub.Publish | internal/realtime/hub.go:48-69 | Afterwards, for every subscriber ever made, received plus queue is exactly the filtered sequence of changes published while it was registered; a channel is closed exactly when its subscriber is unregistered; exactly those without room for a wanted change are dropped |
| Realtime.Hub.SetAvailable | internal/realtime/hub.go:71-81 | Becoming unavailable unregisters and closes every subscriber |
| Realtime.Subscription.UpToDate | internal/realtime/hub.go:56-61 | A change that is filtered out, or queued, keeps the subscriber's history exact |
| Realtime.FilteredExactly | internal/realtime/hub.go:56-58 | What is meant for a user is what names that user or nobody |
| Realtime.Hub.SubscriberGetsItsOwn | internal/realtime/hub.go:48-69 | Whatever a subscriber has or will have received was published for its user or for everybody, and while registered it misses nothing of that |

## Left out

- Lifecycle.LiveSessionsAreNeverOrphaned: requires the guard on starts, which is exact; the clock is monotone, a terminal status or an accepted close reply from the controller means the session is gone, and recovery runs before requests are served.
- LifecycleStale.StartIsSafeExactlyWhenGuarded: the continuations contain no further start; those with guarded ones are covered by `Lifecycle.LiveSessionsAreNeverOrphaned`.
- LifecycleOnce.DeadlinedRequestStartsAtMostOnce: requires deadlines still ahead when a request is admitted (`LifecycleReplay.LateReplayStartsTwice`), closes recorded no earlier than acceptance (`LifecycleOnce.GuardedRunsAreHonest`), and a tombstone cap that is not hit.
- Lifecycle.Commit: prunes by map key, where the code deletes by the session ID of the record. The two differ for the record without an ID that a lost stop writes: once terminal it stays in the code's map and blocks a start of its key, which the model admits.
- Lifecycle.AfterStop: takes the clock reading that follows a controller call of start, stop or compensation together with its return; a Get reads the clock at any later time.
- LifecycleRecords.RecordsStayValid: requires that no stop finishes after its record is gone; `LifecycleRuns.LostRecordSpoilsFile` is a run without that.
- Selectors.TrimmingKeepsSelectorMeaning: requires distinct keys; `Selectors.TrimmingChangesVerdict` is the law for every selector.
- Capacity.GatewaysAreNeverOverfilled: requires that every claim holds its gateway's lock, that no session is claimed without a gateway, and that a completion which keeps the session's place names a claimed version (as the service does, internal/service/access.go:897-913 and 1270-1277); the bound is the largest max_sessions so far, because heartbeats may lower it.
- ManagerObject.Manager.FinishStop: requires the record to be there; the case in which it is not, where the code writes a record without an ID, is that of `LifecycleRecords.StopWritesValidExactlyWithRecord`.
- ManagerObject.Manager.Start: run without interference; interleavings are the lifecycle machine's.
- ManagerObject.Manager.Get: run without interference, likewise.
- ManagerObject.Manager.PrepareRecoveredRetry: requires the record to be there, as it is after recovery has adopted the file.
- ManagerObject.Manager.ReapExpired: run without interference and in any order, where the code sorts by ID; interleavings are the lifecycle machine's.
- ManagerObject.Manager.Recover: run without interference, as the agent runs it before serving; an agent that cannot load its file stays down.
- SessionTable.Repository.Create: inserts a session as provisioning at version 0, which is what its callers pass (internal/service/session_runtime.go:29), where the statement inserts any status and version.
- Runtime.TerminalOpensAfterShutdown: does not model that the cancelled context closes such a terminal soon after.
- TlsHello.Negotiate: reads the two directions one after the other; the checks on hello bodies and cipher suites are given predicates.
- AuditObjects.AuditReporter.Flush: sequential; appends between the pending list and the acknowledgement are steps of `Audit`. The byte limit of the spool is one of the ways an append fails, and torn lines are not modelled.
- AuditObjects.SessionAgent.Close: leaves out the flush of the operation log.
- Realtime.Subscription.Receive: one subscriber's receive; that channel operations are atomic is taken from Go.
- Text is a sequence of code units: `strings.TrimSpace` is modelled for Latin-1 spaces, and string order by code unit. UUID syntax, IP parsing, the target catalogue, event validation and terminal protocols are predicates given as parameters.
- Times are integers in nanoseconds; durations and sums do not overflow.
- Error texts, logging, metrics, contexts and deadlines: a cancelled context is a nondeterministic failure. A save, a file write, a query, a controller call or an answer that fails counts as a fault, and contracts say what happens without one.
- File permissions, JSON encoding and the state file's size limit: a save is an atomic replacement that may fail with the old or the new contents.
- Database transactions other than claims are single steps at their commit; NOW() is any time. Rows are compared by string IDs, without the case folding of PostgreSQL UUIDs.
- SSH algorithm selection, the MySQL and PostgreSQL preambles and SSH banners: each looks at one message before the guards above take over, and keeps no state for them.
- The connection semaphore, the session proxy, WebSocket upgrade and dialling: the runtime keeps only the locked state changes and the order of events.
- Approval, notification, catalogue, identity, cloud and web front-end code.
