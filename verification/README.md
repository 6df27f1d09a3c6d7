# Verified model of the messaging store, file rules, exact edit and policy evaluator

This project models, in Dafny, the parts of the system in which many processes race or in which text is translated, and proves what
those parts promise for every input, every interleaving and every reachable state. `dafny verify dfyconfig.toml` checks all of it.

* **The control record of a computer** (`Computers`, `RecordFields`, `StoreRuns`, `MessagingStores`). Starters, supervisors, the
  Front Door and old owners race on compare-and-swap steps over one record per organization and over the live-file requests.
  `Attempt` and `FileAttempt` are the meaning of one step; `Next` is one step of the whole store; a `Trace` is a run of
  arbitrarily interleaved steps. `MessagingStore` is the class whose maps are updated in place, each method proved to be one
  step of the run that the object carries as a ghost history. On runs, these modules prove: what the record holds, field by
  field (`RecordFields`), stopping an owner against giving it work (`StopAgainstWork`), fencing by start generation
  (`Fencing`) up to erasing stale steps from a whole run (`StaleSteps`), claims, dispatch marks, bootstrap, disk writer and snapshot (`HostStarts`),
  credential renewal (`Renewals`), one fate per file request (`FileFates`), the monotone registers (`Registers`) and the rate
  counters (`RateLimits`).
* **Workspace file rules** (`Utf8`, `TextBoundaries`, `Utf16`, `ByteOrder`, `StableSort`, `TreeHash`, `LivePaths`): cutting and
  sniffing UTF-8, the byte order, the canonical and injective serialisation of a directory tree, and path normalisation.
* **Exact edit** (`Substrings`, `LineEndings`, `ExactEdits`): replacing one occurrence through a line-ending-normalised form.
* **Policy evaluator** (`Globs`, `PolicyVariables`, `Policies`): the glob compiler with the regular expression text it writes, and
  the evaluation of Allow and Deny statements against a declarative meaning.
* **Delay queues** (`DelayQueues`): the queue recorder on its fake clock.

Strings that are looked into are sequences of 16-bit code units, as in JavaScript; identifiers that are only compared are Dafny
strings. Times are whole milliseconds. Integer division rounds down, as the source's `Math.floor` does.

Nine properties one might expect do not hold as stated; for each the model has an input that breaks it and the exact condition:

* A process of a passed generation can still be handed a file request that waited for it (`StaleDeliveryStillWins`,
  `ClaimLeavesRequests`, `StaleDeliveryWinsIff`).
* An owner whose stop was approved can still be handed a file request (`ApprovedOwnerStillHandedRequest`,
  `ApprovedOwnerIsHandedWhatWaited`).
* A former host can still claim the disk writer and publish a snapshot (`FormerHostTakesWriter`,
  `FormerHostReplacesSnapshot`, `WriterClaimWinsIff`, `PublishWinsIff`).
* A stop can be approved after work was given when ids are used twice (`ReusedIdHidesWork`, `RequeuedIdHidesWork`,
  `StopApprovedIffNoWorkSinceRead`).
* Distinct paths do not make the tree hash input canonical: two paths with unpaired surrogates are encoded alike
  (`UnpairedSurrogatesCollideInTrees`, `CanonicalIff`).
* An old text that "occurs once" can stand at two overlapping places (`BorderedCountsOverlapOnce`,
  `CountedOnceIsUniqueIffUnbordered`).
* An edit of a file of mixed line endings can rewrite endings outside the edit, although the edit is documented to keep the
  file's style (`MixedFileIsRewritten`, `EditKeepsOutsideIff`).
* Editing back does not restore every file (`UndoLosesStyle`, `UndoRestoresIff`).
* A policy variable does not always confine a resource to the tag value, because the value is read as a glob
  (`StarTagMatchesEverything`, `VariableConfinesIff`).

## Model

| member | source | states |
|---|---|---|
| `Computers.AttemptKeepsConsistent` | conversation/features-support/in-memory-messaging-store.ts:291-576 | Every step that wins keeps the record consistent: the dispatched generation never exceeds the start generation, the last owner generation does not either, and a live owner is always an owner of the current generation. |
| `Computers.WholeSecondContains` | conversation/features-support/in-memory-messaging-store.ts:453-454 | A moment is stored as the whole second it lies in: a multiple of 1000 ms, not after it and less than a second before it. |
| `RecordFields.WinsIff` | conversation/features-support/in-memory-messaging-store.ts:291-576 | For every record and step: the step wins if and only if the record meets everything the step asks (expected start generation, owner and owner generation, no approved stop, expected dispatch and file operation, compared stamps, a dirty disk or a writer for a settle, no required hydration for a publish, a free or own writer, a lower or equal dispatch mark, an unused bootstrap generation). |
| `RecordFields.StepSetsReadiness` | conversation/features-support/in-memory-messaging-store.ts:291-381 | What each winning step makes of each readiness gate, field by field. |
| `RecordFields.StepSetsHost` | conversation/features-support/in-memory-messaging-store.ts:338-442 | What each winning step makes of the start generation, the dispatch mark, the lease and the recorded loss. |
| `RecordFields.StepSetsDisk` | conversation/features-support/in-memory-messaging-store.ts:291-422 | What each winning step makes of the snapshot, the dirty flag, the required hydration, the intended host and the live writer. |
| `RecordFields.StepSetsOwner` | conversation/features-support/in-memory-messaging-store.ts:291-576 | What each winning step makes of each owner field: all go with the owner, a new owner starts without them, and each is set by its own step to that step's argument. |
| `RecordFields.StepSetsDispatch` | conversation/features-support/in-memory-messaging-store.ts:444-548 | The same for the dispatch fields; a new dispatch starts without a renewal stamp. |
| `RecordFields.RecordIsItsHistory` | conversation/features-support/in-memory-messaging-store.ts:291-576 | Over every run the whole record is determined by its history: every field is what the last winning step that sets it said, the snapshot generation counts the publishes, the identity never changes. |
| `RecordFields.CreatedRecordIsItsHistory` | conversation/src/domain/computers.ts:48-63 | The same from the creation of the record on, with the values the control plane puts in a new record. |
| `RecordFields.SettleWinsIff` | conversation/features-support/in-memory-messaging-store.ts:359-381 | Since any earlier state, a settle wins if and only if its generation is the one last claimed and either the last step that spoke of the live disk left it dirty or a writer claim stands uncleared. |
| `RecordFields.SettledRecord` | conversation/features-support/in-memory-messaging-store.ts:359-381 | A settled record is stopped, not ready, clean, without writer and owner, and holds the time and generation of the loss. |
| `StoreRuns.RecordAfter` | conversation/features-support/in-memory-messaging-store.ts:284-645 | Every store step moves the record of every organization by exactly its effect on that organization, and removes no record. |
| `StopAgainstWork.StopApprovedIffNoWorkSinceRead` | conversation/features-support/in-memory-messaging-store.ts:499-576 | Over every interleaving: a stop approved with the dispatch id and file operation id read in an earlier state is granted if and only if the steps in between left those ids (the owner was kept and the last offer and the last queued request, if any, carry the ids that were read, or the same owner id came back and was given exactly those ids); and when ids are fresh, if and only if in between nobody replaced the owner, no dispatch was offered and no file request was queued. |
| `StopAgainstWork.ReusedIdHidesWork` | conversation/features-support/in-memory-messaging-store.ts:499-527 | Without fresh ids work can be hidden: an owner offered another dispatch and then the old id again is approved to stop although it was given work. |
| `StopAgainstWork.RequeuedIdHidesWork` | conversation/features-support/in-memory-messaging-store.ts:515-576 | The same for file requests: a request that is deleted and queued again under its id leaves the stop approvable. |
| `StopAgainstWork.ApprovedOwnerGetsNothingNew` | conversation/features-support/in-memory-messaging-store.ts:499-576 | After a stop is approved, every later offer, file request, credential renewal and window touch that names this owner is refused, in every later state of the run, also after the owner is replaced. |
| `StopAgainstWork.ApprovedOwnerStillHandedRequest` | conversation/features-support/in-memory-messaging-store.ts:515-612 | An approval does not withdraw what was queued: a request is queued, the stop is approved with the ids read after that, and the request is still delivered to the owner. |
| `StopAgainstWork.ApprovedOwnerIsHandedWhatWaited` | conversation/features-support/in-memory-messaging-store.ts:515-612 | After an approval, while the owner id is not brought back, a delivery to that owner wins if and only if the request waited for it when the approval was granted, no step since then moved or deleted it, and it has not expired. |
| `StopAgainstWork.NoWorkUntilOwnerReplaced` | conversation/features-support/in-memory-messaging-store.ts:499-576 | Until a claim, stop, settle or bootstrap replaces the approved owner, no offer, file request, renewal or window touch wins on the record at all, whoever it names. |
| `Fencing.PassedGenerationIsFenced` | conversation/features-support/in-memory-messaging-store.ts:291-576 | Once the start generation has passed g, in every later state of every run each step on the record that carries a generation up to g is refused; the one exception among them, the release of a dispatch mark, changes only a mark below the current generation. |
| `StaleSteps.StaleStepsAreInvisible` | conversation/features-support/in-memory-messaging-store.ts:291-645 | Erasing from any run every step that carries a generation up to g, deliveries included, and every step that names a former owner who is not started again ends in a store with the same request keys that agrees on everything but a stale dispatch mark and what became of the organization's requests for generations up to g; afterwards every step on the record except a dispatch release, and every file step on any other request, is accepted in the one store if and only if in the other. |
| `Fencing.StaleDeliveryStillWins` | conversation/features-support/in-memory-messaging-store.ts:594-612 | Deliveries are not fenced by the record: the owner of a passed generation is still handed a pending, unexpired request of its own. |
| `Fencing.ClaimLeavesRequests` | conversation/features-support/in-memory-messaging-store.ts:338-347 | Such requests arise: whatever request a live owner has pending when the next generation is claimed can still be delivered to it. |
| `Fencing.StaleDeliveryWinsIff` | conversation/features-support/in-memory-messaging-store.ts:594-612 | A delivery of a passed generation wins if and only if the request was already stored and pending for that owner and generation when the generation was passed, no step since then moved or deleted it, and it has not expired. |
| `Fencing.NothingQueuedForPassedGeneration` | conversation/features-support/in-memory-messaging-store.ts:557-576 | After the pass every request that is queued is of a later generation. |
| `Fencing.FormerOwnerIsRefused` | conversation/features-support/in-memory-messaging-store.ts:488-576 | Once the generation of an earlier state has been passed, every step that names an owner of that time is refused while its id is not brought back, also offers, presence updates and stop approvals, which carry no generation. |
| `Fencing.FormerHostTakesWriter` | conversation/features-support/in-memory-messaging-store.ts:415-422 | Hosts are not fenced: right after a new generation is claimed a host of a former one can claim the disk writer, and then the claims of every other host are refused. |
| `Fencing.FormerHostReplacesSnapshot` | conversation/features-support/in-memory-messaging-store.ts:383-395 | Nor are publishes: after the pass a publish of anyone replaces the snapshot unless a hydration is required. |
| `Fencing.GenerationNeverFalls` | conversation/features-support/in-memory-messaging-store.ts:338-347 | Over every run the start generation of a record never falls. |
| `Fencing.EveryReachableRecordIsConsistent` | conversation/src/domain/computers.ts:48-63 | From the empty store, with records created as the control plane creates them, every record in every state of every run is consistent (dispatched generation and owner generation at most the start generation, a live owner is of the current one). |
| `HostStarts.GenerationWonOnce` | conversation/features-support/in-memory-messaging-store.ts:338-347 | Each generation is won by at most one claimant: of two winning claims the later one expected a strictly later generation. |
| `HostStarts.ReleaseBetweenMarks` | conversation/features-support/in-memory-messaging-store.ts:424-442 | Between two successful dispatch marks of one generation there is a release of that generation that took effect. |
| `HostStarts.BootstrapExchangedOnce` | conversation/features-support/in-memory-messaging-store.ts:444-458 | Of two bootstrap exchanges of one organization the later one is for a strictly later generation, whatever stops, settles and claims lie in between. |
| `HostStarts.SingleDiskWriter` | conversation/features-support/in-memory-messaging-store.ts:415-422 | Between the steps that clear the writer (claim and settle) all successful writer claims are by one host. |
| `HostStarts.WriterClaimWinsIff` | conversation/features-support/in-memory-messaging-store.ts:415-422 | A writer claim wins, whatever generation its host was started for, if and only if since any state after which nothing cleared the writer the writer was free or the host's own and no other host's claim won. |
| `HostStarts.SnapshotProtectedUntilHydrated` | conversation/features-support/in-memory-messaging-store.ts:359-404 | After a settle that requires hydration the published snapshot stays the one before the settle and every publish is refused, until a hydrate or a settle that drops the requirement. |
| `HostStarts.SnapshotCountsPublishes` | conversation/features-support/in-memory-messaging-store.ts:383-395 | Over any part of a run the snapshot generation rises by exactly the number of publishes that took effect, and URI and checksum are those of the last of them. |
| `HostStarts.PublishWinsIff` | conversation/features-support/in-memory-messaging-store.ts:359-404 | A publish wins, whoever makes it, if and only if the last settle or hydrate since any earlier state, or that state if there was none, does not require a hydration. |
| `Renewals.SupervisorRenewalIsCompareAndSwap` | conversation/features-support/in-memory-messaging-store.ts:529-548 | Of two winning supervisor renewals of one owner the later one saw a strictly later whole second, so of any number of renewals that saw the same stamp at most one wins (each winning renewal of that owner is stamped later than what it saw; other renewals are free). |
| `Renewals.SecondRenewalWinsIffStampStoodStill` | conversation/features-support/in-memory-messaging-store.ts:529-548 | The stamp condition is exact: right after a winning renewal another one that saw the same stamp wins if and only if the first was stamped with the very second it saw. |
| `Renewals.TurnRenewalIsCompareAndSwap` | conversation/features-support/in-memory-messaging-store.ts:529-548 | The same for the turn renewals of one dispatch, whichever owners they name and whatever owners come and go; only the renewals of that dispatch must be stamped forward. |
| `Renewals.TurnRenewalLandsOnItsDispatch` | conversation/features-support/in-memory-messaging-store.ts:529-548 | A winning turn renewal finds the dispatch, owner and generation it named, and changes nothing but that dispatch's stamp. |
| `FileFates.StatusOnlyMovesForward` | conversation/features-support/in-memory-messaging-store.ts:557-645 | Each step of every run moves a request from pending to delivered or abandoned, from delivered to done, or not at all; so its status only moves forward. Its owner, generation, kind and expiry never move, and a deleted request does not come back. |
| `FileFates.FileStepWinsIff` | conversation/features-support/in-memory-messaging-store.ts:594-641 | Each file step wins if and only if the request has the status it expects, and for a delivery or completion the owner, generation and time fit. |
| `FileFates.FileStepSets` | conversation/features-support/in-memory-messaging-store.ts:594-641 | What each winning file step makes of every field of the request: delivery time and sequence, outcome, the dropped request text, the waiter. |
| `FileFates.StatusIsItsHistory` | conversation/features-support/in-memory-messaging-store.ts:557-645 | Over every run a stored request has exactly the status its history says, and is otherwise as it was queued, with a whole-second expiry. |
| `FileFates.OutcomeStays` | conversation/features-support/in-memory-messaging-store.ts:626-633 | From its one completion on, for as long as it is stored, a request is done and holds the outcome that completion carried. |
| `FileFates.DeliveryStays` | conversation/features-support/in-memory-messaging-store.ts:594-612 | From its one delivery on, for as long as it is stored, a request holds the time and sequence of that delivery. |
| `FileFates.CompletionWinsIff` | conversation/features-support/in-memory-messaging-store.ts:626-633 | A completion wins if and only if the request is still stored, a delivery won since it was queued, no completion did, and its whole-second expiry has not come. |
| `FileFates.AbandonAnswersIff` | conversation/features-support/in-memory-messaging-store.ts:614-624 | What an abandon answers, exactly: "abandoned" for a pending request even after its expiry, otherwise the status while unexpired, and "absent" for a missing or expired one. |
| `FileFates.DeliveredAtMostOnce` | conversation/features-support/in-memory-messaging-store.ts:594-612 | Two deliveries of one request in one run are the same delivery. |
| `FileFates.CompletedAtMostOnce` | conversation/features-support/in-memory-messaging-store.ts:626-633 | Two completions of one request in one run are the same completion. |
| `FileFates.DeliveredOnlyToItsOwner` | conversation/features-support/in-memory-messaging-store.ts:557-612 | Whoever is handed a request is the owner and generation it was queued for, which was live with no approved stop when it was queued, and gets it before its whole-second expiry. |
| `FileFates.CompletedWasDeliveredExactlyOnce` | conversation/features-support/in-memory-messaging-store.ts:557-633 | A completed request that was queued as pending was delivered exactly once between its queueing and its completion. |
| `FileFates.AbandonedIsNeverDelivered` | conversation/features-support/in-memory-messaging-store.ts:594-624 | When an abandon answers "abandoned", no step since the request was queued has delivered it and no later step does. |
| `Registers.WorkerHoldsNewestPoll` | conversation/features-support/in-memory-messaging-store.ts:480-486 | After any sequence of polls of any workers a worker holds the largest sequence of its initial one and all presented ones, with the heartbeat, state and pace of the last poll that presented it; otherwise it is unchanged because every poll was older. |
| `Registers.PollSequenceIsMaximum` | conversation/features-support/in-memory-messaging-store.ts:480-486 | The stored poll sequence is the maximum of the initial value and all presented values, accepted or refused. |
| `Registers.PollOrderDoesNotMatter` | conversation/features-support/in-memory-messaging-store.ts:480-486 | Two arrival orders of the same polls leave the same poll sequence. |
| `Registers.LastSeenIsMaximum` | conversation/features-support/in-memory-messaging-store.ts:460-474 | From one opening on, the last-seen time of a run is the maximum of its start and all its extensions in whatever order, and its start does not move. |
| `RateLimits.CreationWindowSeconds` | conversation/features-support/in-memory-messaging-store.ts:100-102 | The window organization creation is counted by is one second for anything shorter than a second, and otherwise the given window rounded down to seconds. |
| `RateLimits.AnswerCountsEarlierCalls` | conversation/features-support/in-memory-messaging-store.ts:104-109 | The answer of a call is one more than the number of earlier calls in the same user, name and window bucket. |
| `RateLimits.AtMostLimitPerBucket` | conversation/features-support/in-memory-messaging-store.ts:104-109 | At most L calls of one bucket are answered with a count up to L. |
| `RateLimits.AtMostTwiceTheLimitInAnyWindow` | conversation/features-support/in-memory-messaging-store.ts:104-109 | In any time span shorter than the window, at most 2L calls of one user, name and (nonzero) window are answered with a count up to L. |
| `RateLimits.TwiceTheLimitIsReached` | conversation/features-support/in-memory-messaging-store.ts:104-109 | That bound is exact: for every limit and window there are 2L calls within two milliseconds that are all answered with a count up to L. |
| `RateLimits.ZeroWindowNeverRolls` | conversation/features-support/in-memory-messaging-store.ts:104-109 | A window of zero seconds never rolls over: of all calls after the first second of the epoch at most L are answered with a count up to L. |
| `MessagingStores.MessagingStore.IncrementRateCounter` | conversation/features-support/in-memory-messaging-store.ts:104-109 | For every window, also zero and negative ones: records the call, answers what the counting model answers for it, stores exactly that answer and leaves every other bucket alone. |
| `MessagingStores.MessagingStore.IncrementOrganizationCreationAttempts` | conversation/features-support/in-memory-messaging-store.ts:100-102 | The same for the counter of organization creation, with the window rounded to whole seconds. |
| `MessagingStores.MessagingStore.CreateComputerIfAbsent` | conversation/features-support/in-memory-messaging-store.ts:284-289 | Stores the record only when the organization has none, and answers the record that is then stored. |
| `MessagingStores.MessagingStore.MarkComputerStopped` | conversation/features-support/in-memory-messaging-store.ts:291-305 | The new maps are the `MarkStopped` step of the run model; answers the new record exactly when the step took effect. |
| `MessagingStores.MessagingStore.MarkComputerRunning` | conversation/features-support/in-memory-messaging-store.ts:307-314 | The new maps are the `MarkRunning` step; answers the new record exactly when there is one. |
| `MessagingStores.MessagingStore.RecordComputerCapabilityReady` | conversation/features-support/in-memory-messaging-store.ts:316-328 | The new maps are the `CapabilityReady` step; answers the new record exactly when there is one. |
| `MessagingStores.MessagingStore.RecordComputerBrowserUnavailable` | conversation/features-support/in-memory-messaging-store.ts:330-336 | The new maps are the `BrowserUnavailable` step; answers the new record exactly when there is one. |
| `MessagingStores.MessagingStore.ClaimHostStartGeneration` | conversation/features-support/in-memory-messaging-store.ts:338-347 | The new maps are the `ClaimGeneration` step; answers the new record exactly to the winner. |
| `MessagingStores.MessagingStore.ReleaseHostStartLease` | conversation/features-support/in-memory-messaging-store.ts:349-357 | The new maps are the `ReleaseLease` step; answers true exactly when it took effect. |
| `MessagingStores.MessagingStore.SettleLostComputerHost` | conversation/features-support/in-memory-messaging-store.ts:359-381 | The new maps are the `SettleLost` step; answers the new record exactly when it took effect. |
| `MessagingStores.MessagingStore.RecordComputerSnapshotPublished` | conversation/features-support/in-memory-messaging-store.ts:383-395 | The new maps are the `PublishSnapshot` step; answers the new record exactly when it took effect. |
| `MessagingStores.MessagingStore.RecordComputerHydrated` | conversation/features-support/in-memory-messaging-store.ts:397-404 | The new maps are the `Hydrated` step; answers the new record exactly when there is one. |
| `MessagingStores.MessagingStore.MarkComputerDiskDirty` | conversation/features-support/in-memory-messaging-store.ts:406-413 | The new maps are the `DiskDirty` step; answers true exactly when there is a record. |
| `MessagingStores.MessagingStore.ClaimComputerDiskWriter` | conversation/features-support/in-memory-messaging-store.ts:415-422 | The new maps are the `ClaimWriter` step; answers true exactly when it took effect. |
| `MessagingStores.MessagingStore.MarkHostStartDispatched` | conversation/features-support/in-memory-messaging-store.ts:424-435 | The new maps are the `MarkDispatched` step; answers true exactly when it took effect. |
| `MessagingStores.MessagingStore.ReleaseHostStartDispatch` | conversation/features-support/in-memory-messaging-store.ts:437-442 | The new maps are the `ReleaseDispatch` step. |
| `MessagingStores.MessagingStore.ConsumeOwnerBootstrap` | conversation/features-support/in-memory-messaging-store.ts:444-458 | The new maps are the `ConsumeBootstrap` step; answers the new record exactly when it took effect. |
| `MessagingStores.MessagingStore.UpdateOwnerPresence` | conversation/features-support/in-memory-messaging-store.ts:488-497 | The new maps are the `UpdatePresence` step; answers true exactly when it took effect. |
| `MessagingStores.MessagingStore.OfferOwnerDispatch` | conversation/features-support/in-memory-messaging-store.ts:499-513 | The new maps are the `OfferDispatch` step; answers true exactly when it took effect. |
| `MessagingStores.MessagingStore.ApproveOwnerStop` | conversation/features-support/in-memory-messaging-store.ts:515-527 | The new maps are the `ApproveStop` step; answers true exactly when it took effect. |
| `MessagingStores.MessagingStore.RenewOwnerCredentials` | conversation/features-support/in-memory-messaging-store.ts:529-548 | The new maps are the `RenewSupervisor` step; answers true exactly when it took effect. |
| `MessagingStores.MessagingStore.RenewTurnCredentials` | conversation/features-support/in-memory-messaging-store.ts:529-548 | The new maps are the `RenewTurn` step; answers true exactly when it took effect. |
| `MessagingStores.MessagingStore.TouchInteractiveWindow` | conversation/features-support/in-memory-messaging-store.ts:550-555 | The new maps are the `TouchWindow` step; answers true exactly when it took effect. |
| `MessagingStores.MessagingStore.QueueLiveFileOperation` | conversation/features-support/in-memory-messaging-store.ts:557-576 | Record and request change in one `QueueOperation` step, both or neither; answers true exactly when it took effect. |
| `MessagingStores.MessagingStore.DeliverLiveFileOperation` | conversation/features-support/in-memory-messaging-store.ts:594-612 | The new maps are the `Deliver` step; answers true exactly when it took effect. |
| `MessagingStores.MessagingStore.AbandonLiveFileOperation` | conversation/features-support/in-memory-messaging-store.ts:614-624 | The new maps are the `Abandon` step; answers "abandoned" for a request that was pending, otherwise its status, or "absent" when it is missing or expired. |
| `MessagingStores.MessagingStore.CompleteLiveFileOperation` | conversation/features-support/in-memory-messaging-store.ts:626-633 | The new maps are the `Complete` step; answers the stored request exactly when it took effect. |
| `MessagingStores.MessagingStore.MarkLiveFileOperationWaiterGone` | conversation/features-support/in-memory-messaging-store.ts:635-641 | The new maps are the `WaiterGone` step; answers true exactly when it took effect. |
| `MessagingStores.MessagingStore.DeleteLiveFileOperation` | conversation/features-support/in-memory-messaging-store.ts:643-645 | The new maps are the `DeleteOperation` step. |
| `MessagingStores.MessagingStore.OpenComputerRuntimeSegment` | conversation/features-support/in-memory-messaging-store.ts:460-467 | The new segments are the `Open` step of the register model. |
| `MessagingStores.MessagingStore.ExtendComputerRuntimeSegment` | conversation/features-support/in-memory-messaging-store.ts:469-474 | The new segments are the `Extend` step of the register model. |
| `MessagingStores.MessagingStore.PutWorker` | conversation/features-support/in-memory-messaging-store.ts:243-245 | Overwrites the worker and starts a new poll history from there. |
| `MessagingStores.MessagingStore.RecordOwnerPoll` | conversation/features-support/in-memory-messaging-store.ts:480-486 | The workers are the run of all polls since the last overwrite; answers true exactly when the poll was recorded. |
| `MessagingStores.StoredRecordsAreConsistent` | conversation/features-support/in-memory-messaging-store.ts:284-576 | Every record a store object holds is consistent, when records were created as the control plane creates them. |
| `MessagingStores.StoredStopIsJudgedByItsHistory` | conversation/features-support/in-memory-messaging-store.ts:515-527 | What the object will answer a stop approval with ids read in one of its earlier states, in terms of its own history. |
| `MessagingStores.StoreFencesPassedGenerations` | conversation/features-support/in-memory-messaging-store.ts:291-576 | The object refuses every store step, queueing a file request included, that attempts on a record something carrying a generation passed in one of its earlier states (dispatch releases aside). |
| `MessagingStores.StoredAnswerCountsCalls` | conversation/features-support/in-memory-messaging-store.ts:104-109 | Every answer the object gave for a rate counter counts the earlier calls of its bucket and is at most the stored count. |
| `MessagingStores.StoredPollIsNewest` | conversation/features-support/in-memory-messaging-store.ts:480-486 | The poll sequence the object holds is the maximum of what the worker was put with and all polls presented since. |
| `Utf8.DecodesWholeIffValid` | host-protocol/src/live-file-rules.ts:72-81 | The byte-by-byte fatal decoder accepts a whole text if and only if it is well-formed UTF-8 as section 4 of RFC 3629 defines it. |
| `Utf8.DecodesStreamIffCutText` | host-protocol/src/live-file-rules.ts:72-81 | The streaming decoder accepts exactly the byte strings that some continuation makes well-formed. |
| `Utf8.DecodeEncode` | host-protocol/src/live-file-rules.ts:97-99 | Every encoded text is well-formed and decodes to itself. |
| `Utf8.EncodeDecode` | host-protocol/src/live-file-rules.ts:97-99 | Every well-formed byte string is the encoding of the text it decodes to. |
| `TextBoundaries.TrimToCharacterBoundary` | host-protocol/src/live-file-rules.ts:84-94 | The loop cuts the bytes at the trim point that the next row is about. |
| `TextBoundaries.TrimIsLongestWholePrefix` | host-protocol/src/live-file-rules.ts:84-94 | For every well-formed byte string and every cut point, trimming the cut prefix gives exactly the longest prefix of whole characters, and drops at most three bytes. |
| `TextBoundaries.PassesAsTextIff` | host-protocol/src/live-file-rules.ts:72-81 | A file passes as text if and only if its first 8192 bytes hold no NUL and are well-formed UTF-8 or, for a longer file, the beginning of well-formed UTF-8. |
| `TextBoundaries.TextIsNeverBinary` | host-protocol/src/live-file-rules.ts:72-81 | NUL-free well-formed text of any length is never called binary, wherever the 8 KiB boundary cuts a character. |
| `Utf16.FromToScalars` | host-protocol/src/live-file-rules.ts:134-143 | A string without unpaired surrogates is determined by the scalar values the encoder reads from it. |
| `ByteOrder.CompareUtf8Bytes` | host-protocol/src/live-file-rules.ts:120-127 | The loop computes the comparison that the following rows are about. |
| `ByteOrder.CompareIsZeroIffEqual` | host-protocol/src/live-file-rules.ts:120-127 | Zero exactly for equal byte strings. |
| `ByteOrder.CompareIsAntisymmetric` | host-protocol/src/live-file-rules.ts:120-127 | Swapping the sides negates the answer. |
| `ByteOrder.CompareIsTransitive` | host-protocol/src/live-file-rules.ts:120-127 | The order is transitive, so sorting by it is well defined. |
| `ByteOrder.ByteOrderIsCodePointOrder` | host-protocol/src/live-file-rules.ts:120-127 | Comparing the UTF-8 bytes of two texts is comparing their code points, although the texts are stored as 16-bit units. |
| `StableSort.SortIsSorted` | host-protocol/src/live-file-rules.ts:137 | The sorted descendants are in order. |
| `StableSort.SortIsPermutation` | host-protocol/src/live-file-rules.ts:137 | The sorted descendants are the given ones, each as often. |
| `StableSort.SortIsStable` | host-protocol/src/live-file-rules.ts:137 | All elements that the comparison does not tell apart from any given one stand in the result in the order of the input. |
| `TreeHash.TreeHashInputIsCanonical` | host-protocol/src/live-file-rules.ts:134-143 | The bytes do not depend on the order of the descendants when descendants with equal path bytes have equal lines. |
| `TreeHash.CanonicalIff` | host-protocol/src/live-file-rules.ts:134-143 | For NUL-free descendants that condition is exact: the bytes are the same for every order of the input if and only if it holds. |
| `TreeHash.ParseSerialize` | host-protocol/src/live-file-rules.ts:134-143 | A decoder, which ends a value at the last line feed before the next NUL, undoes the serialisation of every NUL-free list of lines, also when paths and values hold line feeds. |
| `TreeHash.SameBytesIffSameEntries` | host-protocol/src/live-file-rules.ts:134-143 | For NUL-free descendants the bytes are equal if and only if the sorted lines are equal. |
| `TreeHash.SameBytesIffSameLines` | host-protocol/src/live-file-rules.ts:134-143 | For NUL-free descendants whose paths identify them, two trees give the same bytes if and only if they have the same lines, read as scalar values, in whatever order. |
| `TreeHash.TreeHashInputDeterminesTree` | host-protocol/src/live-file-rules.ts:134-143 | Without unpaired surrogates: two trees give the same bytes if and only if they have the same descendants. |
| `TreeHash.DistinctPathsIdentify` | host-protocol/src/live-file-rules.ts:134-143 | Distinct paths without unpaired surrogates meet the condition of the canonical form. |
| `TreeHash.UnpairedSurrogatesCollideInTrees` | host-protocol/src/live-file-rules.ts:134-143 | With unpaired surrogates both laws fail: two different trees have the same bytes, and a tree with distinct paths has bytes that depend on the input order. |
| `TreeHash.NulInTargetImitatesTree` | host-protocol/src/live-file-rules.ts:134-143 | A link whose target goes on with the lines of descendants that sort after it has the hash input of the tree in which those descendants exist, so the NUL condition is needed. |
| `TreeHash.NulInTargetImitatesDirectory` | host-protocol/src/live-file-rules.ts:134-143 | For example a link "a" alone and a link "a" beside a directory "b". |
| `TreeHash.KindNames` | host-protocol/src/live-file-rules.ts:134-143 | The kinds are written "file", "symlink" and "dir". |
| `LivePaths.AcceptedIff` | host-protocol/src/live-file-rules.ts:38-47 | A path is accepted if and only if it is absolute, at most 1024 code units, without NUL and without a ".." segment, and its first segment that is neither empty nor "." is "workspace". |
| `LivePaths.ProblemsExactly` | host-protocol/src/live-file-rules.ts:38-47 | Each of the six reasons, and acceptance, is answered if and only if its condition holds and no earlier reason applies; a path is outside exactly when, with no "..", the place it leads to is not at or under the workspace. |
| `LivePaths.Constants` | host-protocol/src/live-file-rules.ts:2-5 | The workspace root and the separators are spelled as the source spells them. |
| `LivePaths.UnderWorkspaceIffFirstSegment` | host-protocol/src/live-file-rules.ts:45-46 | The textual prefix comparison holds exactly when the first kept segment is "workspace" (so "/workspace2" is outside). |
| `LivePaths.NormalFormIsSound` | host-protocol/src/live-file-rules.ts:29-52 | The normal form of an accepted path is accepted, not longer, its own normal form, at or under /workspace, and has no empty, "." or ".." segment. |
| `LivePaths.NormalFormIsCanonical` | host-protocol/src/live-file-rules.ts:29-52 | Normalising is idempotent, and two paths normalise equally if and only if their kept segments are equal. |
| `LivePaths.SplitJoin` | host-protocol/src/live-file-rules.ts:29-31 | Splitting at slashes undoes joining slash-free segments. |
| `LivePaths.JoinSplit` | host-protocol/src/live-file-rules.ts:29-31 | Joining the parts of a path gives the path back. |
| `LivePaths.NormalizeKeepsLocation` | host-protocol/src/live-file-rules.ts:50-52 | The normal form of every path, accepted or not, names the same place as the path when both are walked segment by segment. |
| `LivePaths.AcceptedStaysInWorkspace` | host-protocol/src/live-file-rules.ts:38-52 | An accepted path, walked segment by segment, ends at or under the workspace, and its normal form spells out that place. |
| `LivePaths.DotDotWouldLeave` | host-protocol/src/live-file-rules.ts:43-46 | The ".." check is needed: without it "/workspace/../name" passes the prefix comparison and leads outside. |
| `Substrings.IndexOfIsLeftmost` | host-protocol/src/workspace-edit.ts:49 | The index found is a match and no match is further left; -1 exactly when there is none. |
| `Substrings.OccurrencesIsMostDisjoint` | host-protocol/src/workspace-edit.ts:36 | The count of the split is the largest number of places where the text stands without overlapping: some choice reaches it, none exceeds it. |
| `Substrings.NoOccurrenceIffNoMatch` | host-protocol/src/workspace-edit.ts:36-42 | The count is zero exactly when the text stands nowhere. |
| `Substrings.OccursOnceIffAllMatchesOverlap` | host-protocol/src/workspace-edit.ts:36-49 | The count is one if and only if there is a leftmost match and every match overlaps it. |
| `Substrings.OccursOftenIffDisjointMatches` | host-protocol/src/workspace-edit.ts:43-48 | The count exceeds one if and only if two matches do not overlap. |
| `Substrings.CountedOnceIsUniqueIffUnbordered` | host-protocol/src/workspace-edit.ts:36-49 | "Counted once" means "stands at one place only" in every file if and only if the old text has no border. |
| `Substrings.BorderedCountsOverlapOnce` | host-protocol/src/workspace-edit.ts:36-49 | For every old text with a border there is a file in which it is counted once and stands at two places. |
| `LineEndings.DetectsFirstLineFeed` | host-protocol/src/workspace-edit.ts:4-9 | The style is CR LF if and only if the first line feed follows a carriage return. |
| `LineEndings.RoundTripIffUniform` | host-protocol/src/workspace-edit.ts:4-57 | Normalising a text and writing it back in the detected style restores it if and only if it is uniformly LF or uniformly CR LF. |
| `ExactEdits.AnswersExactly` | host-protocol/src/workspace-edit.ts:26-58 | Each answer is given if and only if its condition on the places of the old text holds; the number in a refusal is the largest number of places that do not overlap. |
| `ExactEdits.EditedPlaceIsUnique` | host-protocol/src/workspace-edit.ts:36-50 | On success the replaced match is the leftmost, every other match overlaps it, and an old text without a border stands nowhere else. |
| `ExactEdits.EditReplacesOneRegion` | host-protocol/src/workspace-edit.ts:26-58 | For any file: the byte order mark is kept and the normalised result is the normalised text with that one region replaced. |
| `ExactEdits.EditPreservesOutside` | host-protocol/src/workspace-edit.ts:26-58 | For a uniform file: content = bom + P + old + S and result = bom + P + new + S with P and S unchanged code unit for code unit. |
| `ExactEdits.EditedRegion` | host-protocol/src/workspace-edit.ts:26-58 | Every successful edit, also of a file of mixed styles, replaces one region of the file itself: the file is bom + before + matched + after, and matched normalises to the old text. |
| `ExactEdits.EditKeepsOutsideIff` | host-protocol/src/workspace-edit.ts:26-58 | For every successful edit: the text before and after that region is kept code unit for code unit if and only if both are in the line ending style detected in the file. |
| `ExactEdits.MixedFileIsRewritten` | host-protocol/src/workspace-edit.ts:26-58 | A file of mixed styles in which replacing the first letter also rewrites the line ending at the end. |
| `ExactEdits.EditedFileIsUniform` | host-protocol/src/workspace-edit.ts:57 | Every edited file has one line ending style afterwards, whatever it had before. |
| `ExactEdits.EditKeepsMark` | host-protocol/src/workspace-edit.ts:27-28 | A byte order mark (U+FEFF) in front is no part of the searched text and stays in front. |
| `ExactEdits.UnmarkedFileIsSearchedWhole` | host-protocol/src/workspace-edit.ts:27-28 | Without a mark the whole file is searched. |
| `ExactEdits.UndoRestoresIff` | host-protocol/src/workspace-edit.ts:26-58 | For every successful edit: editing back restores the file if and only if the file had one line ending style, the new text is found once and at the edited place, and the edit put no byte order mark in front and did not take the last line ending out of a CR LF file. |
| `ExactEdits.UndoLosesStyle` | host-protocol/src/workspace-edit.ts:26-58 | A CR LF file whose only line ending is replaced and put back ends with a plain line feed. |
| `Globs.CompiledGlobParses` | conversation/features-support/iam-policy-evaluator.ts:87-90 | The compiled text is a well-formed regular expression: both anchors around one term per glob character, with every syntax character taken literally. |
| `Globs.CompilerPreservesMeaning` | conversation/features-support/iam-policy-evaluator.ts:87-90 | For every glob, value and case folding, the compiled regular expression decides as the glob means: `*` any text, `?` one code unit, everything else itself. |
| `Globs.PlainGlobMeansItself` | conversation/features-support/iam-policy-evaluator.ts:87-90 | A glob without wildcards matches itself and nothing else, whatever regular expression syntax it holds. |
| `Globs.Constants` | conversation/features-support/iam-policy-evaluator.ts:88 | The wildcards and the characters the compiler writes are spelled as the source spells them. |
| `Globs.JoinedGlobSplits` | conversation/features-support/iam-policy-evaluator.ts:87-90 | A value that two globs one after the other mean splits into a part for each. |
| `Globs.SplitsJoined` | conversation/features-support/iam-policy-evaluator.ts:87-90 | And parts that two globs mean are meant, one after the other, by the globs one after the other. |
| `PolicyVariables.SubstitutionSucceedsIff` | conversation/features-support/iam-policy-evaluator.ts:77-85 | The substitution succeeds if and only if the session carries every tag the text names; otherwise the error names a missing one. |
| `PolicyVariables.VariableReadBack` | conversation/features-support/iam-policy-evaluator.ts:77-85 | A variable written with any valid key is recognised with exactly that key, whatever text follows it. |
| `PolicyVariables.KeyUnits` | conversation/features-support/iam-policy-evaluator.ts:77 | A tag key may hold exactly letters, digits and _ . : / = + @ -. |
| `PolicyVariables.KeyUnitsAreCharacters` | conversation/features-support/iam-policy-evaluator.ts:77 | No other code unit, such as a surrogate, may stand in a key. |
| `PolicyVariables.Constants` | conversation/features-support/iam-policy-evaluator.ts:77 | A variable starts and ends as the source spells it. |
| `PolicyVariables.SubstitutionFillsTemplate` | conversation/features-support/iam-policy-evaluator.ts:77-85 | In a text of variables and parts in which no variable starts (dollar signs may), every variable is replaced by its value and the rest is kept; a value that looks like a variable is not read again. |
| `PolicyVariables.PartsOfText` | conversation/features-support/iam-policy-evaluator.ts:77-85 | Every text is made of such parts, and their variables are tags the text names. |
| `PolicyVariables.SubstitutionMeans` | conversation/features-support/iam-policy-evaluator.ts:77-85 | So the substitution of every text whose tags are carried is the text with its variables filled in. |
| `Policies.ConditionHolds` | conversation/features-support/iam-policy-evaluator.ts:107-123 | The nested loops with their early exits and errors compute the in-order outcome of the conditions. |
| `Policies.ParseOperatorIff` | conversation/features-support/iam-policy-evaluator.ts:94-101 | A name is read as an operator if and only if it is that operator's name: "StringEquals" or "StringLike", with or without "ForAllValues:" in front. |
| `Policies.ParsedIsMeant` | conversation/features-support/iam-policy-evaluator.ts:94-101 | Every other name is refused with an error that names it. |
| `Policies.OneCondition` | conversation/features-support/iam-policy-evaluator.ts:103-123 | One condition by the name the policy writes: "StringEquals" asks that some value equals some allowed text, "StringLike" that some value is meant by some allowed glob; with "ForAllValues:" every value must be, and a request without the key satisfies it. |
| `Policies.ConditionsOutcomeMeans` | conversation/features-support/iam-policy-evaluator.ts:94-123 | That outcome is true exactly when every condition is understood and true; when it is false some understood condition fails. |
| `Policies.StatementOutcomeMeans` | conversation/features-support/iam-policy-evaluator.ts:139-145 | A statement evaluates to true only when it names the action and the resource and all its conditions are understood and true, and to false only for a reason that was understood. |
| `Policies.StatementThrowsIff` | conversation/features-support/iam-policy-evaluator.ts:79-145 | The evaluation of a statement throws if and only if it names the action and either a resource names a missing tag before any resource matches, or a resource matches and, with every earlier condition true, a condition has an unsupported operator or names a missing tag. |
| `Policies.AnswersAreRight` | conversation/features-support/iam-policy-evaluator.ts:139-148 | Whenever the evaluator answers, it allows if and only if some Allow statement applies and no Deny statement applies, where to apply means that every condition is understood and true. |
| `Policies.PolicyThrowsIff` | conversation/features-support/iam-policy-evaluator.ts:139-148 | There is no answer if and only if some statement, wherever it stands, stops the evaluation with an error. |
| `Policies.UnderstoodPolicyIsAnswered` | conversation/features-support/iam-policy-evaluator.ts:139-148 | When every named tag is carried and every operator supported, the evaluator answers, with the meaning of the policy. |
| `Policies.OnlyTheSetMatters` | conversation/features-support/iam-policy-evaluator.ts:139-148 | For every policy: whether there is an answer, and which, depends only on the set of statements, not on order or repetition. |
| `Policies.AddingStatements` | conversation/features-support/iam-policy-evaluator.ts:139-148 | For every policy: adding a statement anywhere leaves an answer exactly when there was one and the statement does not throw; then an Allow never removes an allowed request and a Deny never admits one. |
| `Policies.ReadReveals` | conversation/features-support/iam-policy-evaluator.ts:167-177 | For every answered read, whatever the policy holds: an existing object is returned exactly to callers that may get it; a missing key is named NoSuchKey exactly to callers that may get and list; existing and missing keys are answered alike exactly when the caller may not get the object. |
| `Policies.ActionNames` | conversation/features-support/iam-policy-evaluator.ts:174-176 | The two actions are spelled as the source spells them. |
| `Policies.DenyOnlyHides` | conversation/features-support/iam-policy-evaluator.ts:167-177 | Adding a Deny statement anywhere changes the answer of a read, if there still is one, only to AccessDenied. |
| `Policies.VariableConfinesIff` | conversation/features-support/iam-policy-evaluator.ts:79-148 | A variable in a resource confines it to ARNs in which the tag value stands literally if and only if the value holds no star and no question mark. |
| `Policies.StarTagMatchesEverything` | conversation/features-support/iam-policy-evaluator.ts:79-148 | A session whose tag value is a star is matched by a resource that is that variable with every ARN. |
| `DelayQueues.FakeClock.constructor` | conversation/features-support/clock.ts:15-17 | The clock starts at the given time, or at 2026-08-31T06:00:00Z. |
| `DelayQueues.FakeClock.AdvanceSeconds` | conversation/features-support/clock.ts:23-25 | Moves the clock as the `Advance` step of the run model. |
| `DelayQueues.QueueRecorder.Send` | conversation/features-support/queues.ts:31-40 | The new queues are the `SendTo` step at the clock's time. |
| `DelayQueues.QueueRecorder.Take` | conversation/features-support/queues.ts:64-71 | The new queues are the `TakeFrom` step; answers the taken message, or none when no body is accepted. |
| `DelayQueues.QueueRecorder.TakeDue` | conversation/features-support/queues.ts:80-88 | The new queues are the `TakeDueFrom` step at the clock's time; answers the taken message, or none when none is due. |
| `DelayQueues.QueueRecorder.Drain` | conversation/features-support/queues.ts:97-103 | With any handler, whatever it sends, takes or advances while it is awaited: hands out the first message as long as there is one, one call after the other, and is finished exactly when the queue is empty. |
| `DelayQueues.IdleHandlerGetsPending` | conversation/features-support/queues.ts:97-103 | A handler that leaves the recorder alone is given exactly the pending messages in order, and no other queue changes. |
| `DelayQueues.DrainConserves` | conversation/features-support/queues.ts:97-103 | Whatever the handler does meanwhile, a drain loses no message and duplicates none, in any queue. |
| `DelayQueues.MessagesAreConserved` | conversation/features-support/queues.ts:31-88 | Over every run, per queue and as multisets: initially pending plus sent equals taken plus still pending. |
| `DelayQueues.PendingKeepsSendOrder` | conversation/features-support/queues.ts:31-88 | Over every run the pending messages of a queue are a subsequence of the messages in the order they were sent. |
| `DelayQueues.NeverDeliveredEarly` | conversation/features-support/queues.ts:80-88 | A message a due-take returns was enqueued at least its delay (1000 ms per second) before the clock, the delay of no message before it in the queue has passed, and unless it was there from the start it was sent by an earlier step since which the clock was advanced by at least its delay in seconds. |
| `DelayQueues.ReturnedIffDelayHasPassed` | conversation/features-support/queues.ts:80-88 | None is held back: a sent message that no message whose delay has passed precedes is what a due-take returns if and only if the clock was advanced by at least its delay in seconds since it was sent. |
| `DelayQueues.ClockFollows` | conversation/features-support/clock.ts:23-25 | Over every run the clock moves by 1000 ms for every second it is advanced, and by nothing else. |
| `DelayQueues.DueTakesDeliverExactlyTheDue` | conversation/features-support/queues.ts:80-88 | Repeating the due-take at a fixed clock returns exactly the due messages one by one in order; afterwards the queue holds exactly those not due, and further takes return nothing. |

## Left out

- Fractional rate windows: a window is a whole number of seconds here.
- FileFates.DeliveredAtMostOnce: assumes that an operation id is not queued again after its request was deleted; the store refuses a second request only while the first is stored.
- Globs.CompilerPreservesMeaning: the regular expression grammar is the fragment without groups, classes, alternatives and counted quantifiers, which `CompiledGlobParses` shows to be all that compiled globs use; the case folding of the ignore-case flag is a parameter.
- TreeHash.TreeHashInputIsCanonical: sorting is modelled as a stable insertion sort on values, so the update of the array in place and the engine's own algorithm are not captured; file sizes are natural numbers written in decimal, without the exponent form of very large floating-point numbers.
- Promises and storage latency: each store method is one atomic step, as in the in-memory store; deep copies returned to callers are values.
- Map keys that the source joins with a NUL character are tuples here, so the collisions that identifiers with a NUL in them could cause are not modelled.
- The blind overwrite of a computer, and the plain get, put, list and count methods of the store, including file audits: map lookups and overwrites.
- The record's fields are grouped into nested datatypes; fields that no modelled step reads or writes keep their value by construction.
- The message texts of edit refusals and errors, and the path named in them; the reasons and the occurrence count are modelled.
- The text a successful decode yields, including the removal of a byte order mark: sniffing uses only whether the decode fails.
- Keys of JavaScript's object prototype looked up in session tags or context keys, and statement identifiers.
- Fractions of a second in delays and clock advances, and fractional milliseconds.
- The sequential id source, secret file names, the .git segment rule, the symlink hash input and SHA-256 itself: one reading settles them.
- The DynamoDB store, HTTP servers, the supervisor loop, infrastructure definitions, policy files and the web client: input and output, or declarations.
