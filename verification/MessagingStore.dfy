/**
  The in-memory messaging store: maps that the methods update in place. Every method is one atomic step; its contract
  ties the new maps and the answer to the step functions that the run theorems are about. A ghost history ties the
  object to the run it has been through, so that the run theorems speak about the object itself.
 */
module MessagingStores {
  import opened Options
  import opened Computers
  import opened StoreRuns
  import opened FileFates
  import Fencing
  import StopAgainstWork
  import R = Registers
  import L = RateLimits

  class MessagingStore {
    var rateCounters: map<L.Bucket, nat>
    var computers: map<string, Computer>
    var workers: map<R.WorkerKey, R.Worker>
    var computerRuntimeSegments: map<R.SegmentKey, R.Segment>
    var liveFileOperations: map<Key, LiveFileOperation>

    /**
      What happened so far: the protocol steps, the rate counter calls, the polls since a worker was last put, the
      sightings.
     */
    ghost var run: Trace
    ghost var calls: seq<L.Call>
    ghost var registered: map<R.WorkerKey, R.Worker>
    ghost var polls: seq<(R.WorkerKey, R.Poll)>
    ghost var sightings: seq<R.SegmentStep>

    /** The maps are what the history makes of an empty store. */
    ghost predicate Valid()
      reads this
    {
      && run.Valid() && run.states[0] == Store(map[], map[]) && run.Last() == State()
      && rateCounters == L.Counters(calls)
      && workers == R.PollRun(registered, polls)
      && computerRuntimeSegments == R.SegmentRun(map[], sightings)
    }

    /** The protocol step `step`, and no other, took place since the run was `before`. */
    ghost predicate Performed(before: Trace, step: Step)
      requires before.Valid()
      reads this
    {
      Valid() && run == before.Extended(step) && State() == Next(before.Last(), step)
    }

    ghost method Record(step: Step)
      requires run.Valid()
      modifies this`run
      ensures run == old(run).Extended(step) && run.Valid() && run.states[0] == old(run).states[0]
      ensures run.Last() == Next(old(run).Last(), step)
    {
      ExtendedIsValid(run, step);
      run := run.Extended(step);
    }

    constructor ()
      ensures Valid() && State() == Store(map[], map[]) && run.steps == []
      ensures rateCounters == map[] && workers == map[] && computerRuntimeSegments == map[]
      ensures calls == [] && polls == [] && sightings == []
    {
      rateCounters, computers, workers, computerRuntimeSegments, liveFileOperations :=
          map[], map[], map[], map[], map[];
      run, calls, registered, polls, sightings := Trace([Store(map[], map[])], []), [], map[], [], [];
    }

    /** The maps the protocol steps work on, as a value. */
    ghost function State(): Store
      reads this
    {
      Store(computers, liveFileOperations)
    }

    // ----- Rate counters -----

    method IncrementRateCounter(userId: string, name: string, now: Time, windowSeconds: int) returns (count: nat)
      requires Valid()
      modifies this`rateCounters, this`calls
      ensures Valid() && calls == old(calls) + [L.Call(userId, name, now, windowSeconds)]
      ensures count == L.AnswerAt(calls, |old(calls)|)
      ensures rateCounters == old(rateCounters)[L.BucketOf(L.Call(userId, name, now, windowSeconds)) := count]
    {
      var key := (userId, name, L.WindowOf(now / 1000, windowSeconds));
      ghost var before := calls;
      calls := calls + [L.Call(userId, name, now, windowSeconds)];
      assert calls[..|calls| - 1] == before;
      count := 1;
      if key in rateCounters {
        count := rateCounters[key] + 1;
      }
      rateCounters := rateCounters[key := count];
    }

    method IncrementOrganizationCreationAttempts(userId: string, now: Time, windowMilliseconds: int)
      returns (count: nat)
      requires Valid()
      modifies this`rateCounters, this`calls
      ensures var call := L.Call(userId, "org_create_rate", now, L.CreationWindowSeconds(windowMilliseconds));
              && Valid() && calls == old(calls) + [call]
              && count == L.AnswerAt(calls, |old(calls)|)
              && rateCounters == old(rateCounters)[L.BucketOf(call) := count]
    {
      count := IncrementRateCounter(userId, "org_create_rate", now, L.CreationWindowSeconds(windowMilliseconds));
    }

    // ----- The computer record -----

    method CreateComputerIfAbsent(computer: Computer) returns (r: Computer)
      requires Valid()
      modifies this`run, this`computers
      ensures Performed(old(run), CreateIfAbsent(computer))
      ensures computer.tenantId in computers && r == computers[computer.tenantId]
    {
      Record(CreateIfAbsent(computer));
      if computer.tenantId in computers {
        return computers[computer.tenantId];
      }
      computers := computers[computer.tenantId := computer];
      r := computer;
    }

    method MarkComputerStopped(tenantId: string, diskMatchesPublished: bool, expected: Option<int>)
      returns (r: Option<Computer>)
      requires Valid()
      modifies this`run, this`computers
      ensures var step := OnRecord(tenantId, MarkStopped(diskMatchesPublished, expected));
              Performed(old(run), step) && r.Some? == Effect(old(State()), step, tenantId).Some?
      ensures r.Some? ==> tenantId in computers && r.value == computers[tenantId]
    {
      Record(OnRecord(tenantId, MarkStopped(diskMatchesPublished, expected)));
      if tenantId !in computers {
        return None;
      }
      var computer := computers[tenantId];
      if expected.Some? && computer.host.generation != expected.value {
        return None;
      }
      var stopped := WithoutOwner(computer).(
        readiness := computer.readiness.(stopped := true, model := false, workspace := false, browser := false),
        disk := computer.disk.(dirty := if diskMatchesPublished then false else computer.disk.dirty));
      computers := computers[tenantId := stopped];
      r := Some(stopped);
    }

    method MarkComputerRunning(tenantId: string) returns (r: Option<Computer>)
      requires Valid()
      modifies this`run, this`computers
      ensures Performed(old(run), OnRecord(tenantId, MarkRunning))
      ensures r.Some? == Effect(old(State()), OnRecord(tenantId, MarkRunning), tenantId).Some?
      ensures r.Some? ==> tenantId in computers && r.value == computers[tenantId]
    {
      Record(OnRecord(tenantId, MarkRunning));
      if tenantId !in computers {
        return None;
      }
      var computer := computers[tenantId];
      var running := computer.(readiness := computer.readiness.(browserUnavailable := None, stopped := false));
      computers := computers[tenantId := running];
      r := Some(running);
    }

    method RecordComputerCapabilityReady(tenantId: string, capability: Capability) returns (r: Option<Computer>)
      requires Valid()
      modifies this`run, this`computers
      ensures Performed(old(run), OnRecord(tenantId, CapabilityReady(capability)))
      ensures r.Some? == Effect(old(State()), OnRecord(tenantId, CapabilityReady(capability)), tenantId).Some?
      ensures r.Some? ==> tenantId in computers && r.value == computers[tenantId]
    {
      Record(OnRecord(tenantId, CapabilityReady(capability)));
      if tenantId !in computers {
        return None;
      }
      var readiness := computers[tenantId].readiness;
      match capability {
        case Model => readiness := readiness.(model := true);
        case Workspace => readiness := readiness.(workspace := true);
        case Browser => readiness := readiness.(browserUnavailable := None, browser := true);
      }
      var next := computers[tenantId].(readiness := readiness);
      computers := computers[tenantId := next];
      r := Some(next);
    }

    method RecordComputerBrowserUnavailable(tenantId: string) returns (r: Option<Computer>)
      requires Valid()
      modifies this`run, this`computers
      ensures Performed(old(run), OnRecord(tenantId, BrowserUnavailable))
      ensures r.Some? == Effect(old(State()), OnRecord(tenantId, BrowserUnavailable), tenantId).Some?
      ensures r.Some? ==> tenantId in computers && r.value == computers[tenantId]
    {
      Record(OnRecord(tenantId, BrowserUnavailable));
      if tenantId !in computers {
        return None;
      }
      var computer := computers[tenantId];
      var next := computer.(readiness := computer.readiness.(browser := false, browserUnavailable := Some(true)));
      computers := computers[tenantId := next];
      r := Some(next);
    }

    method ClaimHostStartGeneration(tenantId: string, expectedGeneration: int, leaseExpiresAt: Time)
      returns (r: Option<Computer>)
      requires Valid()
      modifies this`run, this`computers
      ensures var step := OnRecord(tenantId, ClaimGeneration(expectedGeneration, leaseExpiresAt));
              Performed(old(run), step) && r.Some? == Effect(old(State()), step, tenantId).Some?
      ensures r.Some? ==> tenantId in computers && r.value == computers[tenantId]
    {
      Record(OnRecord(tenantId, ClaimGeneration(expectedGeneration, leaseExpiresAt)));
      if tenantId !in computers || computers[tenantId].host.generation != expectedGeneration {
        return None;
      }
      var kept := WithoutOwner(computers[tenantId]);
      var next := kept.(disk := kept.disk.(liveWriterHostId := None),
                        host := kept.host.(generation := expectedGeneration + 1,
                                           leaseExpiresAt := Some(leaseExpiresAt)));
      computers := computers[tenantId := next];
      r := Some(next);
    }

    method ReleaseHostStartLease(tenantId: string, generation: int) returns (released: bool)
      requires Valid()
      modifies this`run, this`computers
      ensures var step := OnRecord(tenantId, ReleaseLease(generation));
              Performed(old(run), step) && released == Effect(old(State()), step, tenantId).Some?
    {
      Record(OnRecord(tenantId, ReleaseLease(generation)));
      if tenantId !in computers || computers[tenantId].host.generation != generation {
        return false;
      }
      var computer := computers[tenantId];
      computers := computers[tenantId := computer.(host := computer.host.(leaseExpiresAt := None))];
      released := true;
    }

    method SettleLostComputerHost(tenantId: string, expectedGeneration: int, lostAt: Time, hydrateRequired: bool)
      returns (r: Option<Computer>)
      requires Valid()
      modifies this`run, this`computers
      ensures var step := OnRecord(tenantId, SettleLost(expectedGeneration, lostAt, hydrateRequired));
              Performed(old(run), step) && r.Some? == Effect(old(State()), step, tenantId).Some?
      ensures r.Some? ==> tenantId in computers && r.value == computers[tenantId]
    {
      Record(OnRecord(tenantId, SettleLost(expectedGeneration, lostAt, hydrateRequired)));
      if tenantId !in computers || computers[tenantId].host.generation != expectedGeneration {
        return None;
      }
      var computer := computers[tenantId];
      if !computer.disk.dirty && computer.disk.liveWriterHostId == None {
        return None;
      }
      var settled := WithoutOwner(computer).(
        readiness := computer.readiness.(stopped := true, model := false, workspace := false, browser := false),
        disk := computer.disk.(liveWriterHostId := None, dirty := false, hydrateRequired := hydrateRequired),
        host := computer.host.(lostAt := Some(lostAt), lostGeneration := Some(expectedGeneration)));
      computers := computers[tenantId := settled];
      r := Some(settled);
    }

    method RecordComputerSnapshotPublished(tenantId: string, uri: string, checksum: string)
      returns (r: Option<Computer>)
      requires Valid()
      modifies this`run, this`computers
      ensures var step := OnRecord(tenantId, PublishSnapshot(uri, checksum));
              Performed(old(run), step) && r.Some? == Effect(old(State()), step, tenantId).Some?
      ensures r.Some? ==> tenantId in computers && r.value == computers[tenantId]
    {
      Record(OnRecord(tenantId, PublishSnapshot(uri, checksum)));
      if tenantId !in computers || computers[tenantId].disk.hydrateRequired {
        return None;
      }
      var computer := computers[tenantId];
      var next := computer.(disk := computer.disk.(snapshotUri := Some(uri), snapshotChecksum := Some(checksum),
                                                   snapshotGeneration := computer.disk.snapshotGeneration + 1,
                                                   dirty := false));
      computers := computers[tenantId := next];
      r := Some(next);
    }

    method RecordComputerHydrated(tenantId: string) returns (r: Option<Computer>)
      requires Valid()
      modifies this`run, this`computers
      ensures Performed(old(run), OnRecord(tenantId, Hydrated))
      ensures r.Some? == Effect(old(State()), OnRecord(tenantId, Hydrated), tenantId).Some?
      ensures r.Some? ==> tenantId in computers && r.value == computers[tenantId]
    {
      Record(OnRecord(tenantId, Hydrated));
      if tenantId !in computers {
        return None;
      }
      var computer := computers[tenantId];
      var next := computer.(disk := computer.disk.(intendedHostWorkerId := None, hydrateRequired := false,
                                                   dirty := false));
      computers := computers[tenantId := next];
      r := Some(next);
    }

    method MarkComputerDiskDirty(tenantId: string) returns (marked: bool)
      requires Valid()
      modifies this`run, this`computers
      ensures Performed(old(run), OnRecord(tenantId, DiskDirty))
      ensures marked == Effect(old(State()), OnRecord(tenantId, DiskDirty), tenantId).Some?
    {
      Record(OnRecord(tenantId, DiskDirty));
      if tenantId !in computers {
        return false;
      }
      var computer := computers[tenantId];
      computers := computers[tenantId := computer.(disk := computer.disk.(dirty := true))];
      marked := true;
    }

    method ClaimComputerDiskWriter(tenantId: string, hostId: string) returns (granted: bool)
      requires Valid()
      modifies this`run, this`computers
      ensures var step := OnRecord(tenantId, ClaimWriter(hostId));
              Performed(old(run), step) && granted == Effect(old(State()), step, tenantId).Some?
    {
      Record(OnRecord(tenantId, ClaimWriter(hostId)));
      if tenantId !in computers {
        return false;
      }
      var computer := computers[tenantId];
      if computer.disk.liveWriterHostId != None && computer.disk.liveWriterHostId != Some(hostId) {
        return false;
      }
      computers := computers[tenantId := computer.(disk := computer.disk.(liveWriterHostId := Some(hostId)))];
      granted := true;
    }

    method MarkHostStartDispatched(tenantId: string, generation: int) returns (marked: bool)
      requires Valid()
      modifies this`run, this`computers
      ensures var step := OnRecord(tenantId, MarkDispatched(generation));
              Performed(old(run), step) && marked == Effect(old(State()), step, tenantId).Some?
    {
      Record(OnRecord(tenantId, MarkDispatched(generation)));
      if tenantId !in computers || computers[tenantId].host.generation != generation
         || computers[tenantId].host.dispatched >= generation {
        return false;
      }
      var computer := computers[tenantId];
      computers := computers[tenantId := computer.(host := computer.host.(dispatched := generation))];
      marked := true;
    }

    method ReleaseHostStartDispatch(tenantId: string, generation: int)
      requires Valid()
      modifies this`run, this`computers
      ensures Performed(old(run), OnRecord(tenantId, ReleaseDispatch(generation)))
    {
      Record(OnRecord(tenantId, ReleaseDispatch(generation)));
      if tenantId in computers && computers[tenantId].host.dispatched == generation {
        var computer := computers[tenantId];
        computers := computers[tenantId := computer.(host := computer.host.(dispatched := generation - 1))];
      }
    }

    method ConsumeOwnerBootstrap(tenantId: string, ownerId: string, generation: int, protocolVersion: int,
                                 startedAt: Time, credentialsExpireAt: Time)
      returns (r: Option<Computer>)
      requires Valid()
      modifies this`run, this`computers
      ensures var step := OnRecord(tenantId, ConsumeBootstrap(ownerId, generation, protocolVersion, startedAt,
                                                              credentialsExpireAt));
              Performed(old(run), step) && r.Some? == Effect(old(State()), step, tenantId).Some?
      ensures r.Some? ==> tenantId in computers && r.value == computers[tenantId]
    {
      Record(OnRecord(tenantId, ConsumeBootstrap(ownerId, generation, protocolVersion, startedAt,
                                                 credentialsExpireAt)));
      if tenantId !in computers || computers[tenantId].host.generation != generation {
        return None;
      }
      var computer := computers[tenantId];
      if computer.ownerGeneration.Some? && computer.ownerGeneration.value >= generation {
        return None;
      }
      var cleared := WithoutOwner(computer);
      var consumed := cleared.(
        ownerGeneration := Some(generation),
        owner := cleared.owner.(id := Some(ownerId), protocolVersion := Some(protocolVersion),
                                startedAt := Some(WholeSecond(startedAt)),
                                credentialsExpireAt := Some(WholeSecond(credentialsExpireAt))));
      computers := computers[tenantId := consumed];
      r := Some(consumed);
    }

    method UpdateOwnerPresence(tenantId: string, ownerId: string, protocolVersion: Option<int>, idle: IdleChange)
      returns (updated: bool)
      requires Valid()
      modifies this`run, this`computers
      ensures var step := OnRecord(tenantId, UpdatePresence(ownerId, protocolVersion, idle));
              Performed(old(run), step) && updated == Effect(old(State()), step, tenantId).Some?
    {
      Record(OnRecord(tenantId, UpdatePresence(ownerId, protocolVersion, idle)));
      if tenantId !in computers || computers[tenantId].owner.id != Some(ownerId) {
        return false;
      }
      var owner := computers[tenantId].owner;
      if protocolVersion.Some? {
        owner := owner.(protocolVersion := protocolVersion);
      }
      match idle {
        case SetIdle(since) => owner := owner.(idleSinceAt := Some(WholeSecond(since)));
        case ClearIdle => owner := owner.(idleSinceAt := None);
        case KeepIdle =>
      }
      computers := computers[tenantId := computers[tenantId].(owner := owner)];
      updated := true;
    }

    method OfferOwnerDispatch(tenantId: string, ownerId: string, expectedDispatchId: Option<string>, dispatch: Dispatch)
      returns (offered: bool)
      requires Valid()
      modifies this`run, this`computers
      ensures var step := OnRecord(tenantId, OfferDispatch(ownerId, expectedDispatchId, dispatch));
              Performed(old(run), step) && offered == Effect(old(State()), step, tenantId).Some?
    {
      Record(OnRecord(tenantId, OfferDispatch(ownerId, expectedDispatchId, dispatch)));
      if tenantId !in computers || computers[tenantId].owner.id != Some(ownerId)
         || computers[tenantId].owner.stopApprovedAt.Some? {
        return false;
      }
      var computer := computers[tenantId];
      if computer.owner.dispatch.id != expectedDispatchId {
        return false;
      }
      var offer := DispatchFields(Some(dispatch.dispatchId), Some(dispatch.turnId), Some(dispatch.actionId),
                                  Some(dispatch.attempt), Some(WholeSecond(dispatch.leaseExpiresAt)), None);
      computers := computers[tenantId := computer.(owner := computer.owner.(dispatch := offer))];
      offered := true;
    }

    method ApproveOwnerStop(tenantId: string, ownerId: string, expectedDispatchId: Option<string>,
                            expectedFileOperationId: Option<string>, approvedAt: Time)
      returns (approved: bool)
      requires Valid()
      modifies this`run, this`computers
      ensures var step := OnRecord(tenantId, ApproveStop(ownerId, expectedDispatchId, expectedFileOperationId,
                                                         approvedAt));
              Performed(old(run), step) && approved == Effect(old(State()), step, tenantId).Some?
    {
      Record(OnRecord(tenantId, ApproveStop(ownerId, expectedDispatchId, expectedFileOperationId, approvedAt)));
      if tenantId !in computers || computers[tenantId].owner.id != Some(ownerId)
         || computers[tenantId].owner.dispatch.id != expectedDispatchId {
        return false;
      }
      var computer := computers[tenantId];
      if computer.owner.fileOperationId != expectedFileOperationId {
        return false;
      }
      var owner := computer.owner.(stopApprovedAt := Some(WholeSecond(approvedAt)));
      computers := computers[tenantId := computer.(owner := owner)];
      approved := true;
    }

    /** The renewal of the supervisor's credentials. */
    method RenewOwnerCredentials(tenantId: string, ownerId: string, generation: int, seenRenewedAt: Option<Time>,
                                 renewedAt: Time, credentialsExpireAt: Time)
      returns (renewed: bool)
      requires Valid()
      modifies this`run, this`computers
      ensures var step := OnRecord(tenantId, RenewSupervisor(ownerId, generation, seenRenewedAt, renewedAt,
                                                             credentialsExpireAt));
              Performed(old(run), step) && renewed == Effect(old(State()), step, tenantId).Some?
    {
      Record(OnRecord(tenantId, RenewSupervisor(ownerId, generation, seenRenewedAt, renewedAt, credentialsExpireAt)));
      if tenantId !in computers || !LiveOwner(computers[tenantId], ownerId, generation) {
        return false;
      }
      var computer := computers[tenantId];
      if StampSecond(computer.owner.credentialsRenewedAt) != StampSecond(seenRenewedAt) {
        return false;
      }
      var owner := computer.owner.(credentialsRenewedAt := Some(WholeSecond(renewedAt)),
                                   credentialsExpireAt := Some(WholeSecond(credentialsExpireAt)));
      computers := computers[tenantId := computer.(owner := owner)];
      renewed := true;
    }

    /** The renewal of the credentials of the dispatched turn. */
    method RenewTurnCredentials(tenantId: string, ownerId: string, generation: int, dispatchId: string,
                                seenRenewedAt: Option<Time>, renewedAt: Time)
      returns (renewed: bool)
      requires Valid()
      modifies this`run, this`computers
      ensures var step := OnRecord(tenantId, RenewTurn(ownerId, generation, dispatchId, seenRenewedAt, renewedAt));
              Performed(old(run), step) && renewed == Effect(old(State()), step, tenantId).Some?
    {
      Record(OnRecord(tenantId, RenewTurn(ownerId, generation, dispatchId, seenRenewedAt, renewedAt)));
      if tenantId !in computers || !LiveOwner(computers[tenantId], ownerId, generation) {
        return false;
      }
      var computer := computers[tenantId];
      var dispatch := computer.owner.dispatch;
      if StampSecond(dispatch.credentialsRenewedAt) != StampSecond(seenRenewedAt) || dispatch.id != Some(dispatchId) {
        return false;
      }
      dispatch := dispatch.(credentialsRenewedAt := Some(WholeSecond(renewedAt)));
      computers := computers[tenantId := computer.(owner := computer.owner.(dispatch := dispatch))];
      renewed := true;
    }

    method TouchInteractiveWindow(tenantId: string, ownerId: string, generation: int, until: Time)
      returns (touched: bool)
      requires Valid()
      modifies this`run, this`computers
      ensures var step := OnRecord(tenantId, TouchWindow(ownerId, generation, until));
              Performed(old(run), step) && touched == Effect(old(State()), step, tenantId).Some?
    {
      Record(OnRecord(tenantId, TouchWindow(ownerId, generation, until)));
      if tenantId !in computers || !LiveOwner(computers[tenantId], ownerId, generation) {
        return false;
      }
      var computer := computers[tenantId];
      var owner := computer.owner.(interactiveUntilAt := Some(WholeSecond(until)));
      computers := computers[tenantId := computer.(owner := owner)];
      touched := true;
    }

    // ----- Live-file operations -----

    method QueueLiveFileOperation(operation: LiveFileOperation, interactiveUntilAt: Time) returns (queued: bool)
      requires Valid()
      modifies this`run, this`computers, this`liveFileOperations
      ensures var step := QueueOperation(operation, interactiveUntilAt);
              Performed(old(run), step) && queued == Effect(old(State()), step, operation.tenantId).Some?
    {
      Record(QueueOperation(operation, interactiveUntilAt));
      QueueNext(State(), operation, interactiveUntilAt);
      var tenantId := operation.tenantId;
      if tenantId !in computers || !LiveOwner(computers[tenantId], operation.ownerId, operation.generation) {
        return false;
      }
      var key := (operation.tenantId, operation.operationId);
      if key in liveFileOperations {
        return false;
      }
      var computer := computers[tenantId];
      computers := computers[tenantId := computer.(owner := computer.owner.(
                                           interactiveUntilAt := Some(WholeSecond(interactiveUntilAt)),
                                           fileOperationId := Some(operation.operationId)))];
      liveFileOperations := liveFileOperations[key := WholeSecondExpiry(operation)];
      queued := true;
    }

    method DeliverLiveFileOperation(tenantId: string, operationId: string, ownerId: string, generation: int,
                                    sequence: int, at: Time)
      returns (delivered: bool)
      requires Valid()
      modifies this`run, this`liveFileOperations
      ensures var step := OnOperation((tenantId, operationId), Deliver(ownerId, generation, sequence, at));
              && Performed(old(run), step)
              && delivered == FileEffect(old(State()), step, (tenantId, operationId)).Some?
    {
      Record(OnOperation((tenantId, operationId), Deliver(ownerId, generation, sequence, at)));
      var key := (tenantId, operationId);
      if key !in liveFileOperations {
        return false;
      }
      var operation := liveFileOperations[key];
      if operation.status != Pending || operation.ownerId != ownerId || operation.generation != generation
         || IsExpired(operation, at) {
        return false;
      }
      liveFileOperations := liveFileOperations[key := operation.(status := Delivered, deliveredAt := Some(at),
                                                                 deliveredSequence := Some(sequence))];
      delivered := true;
    }

    /** `None` stands for the answer "absent". */
    method AbandonLiveFileOperation(tenantId: string, operationId: string, now: Time)
      returns (r: Option<OperationStatus>)
      requires Valid()
      modifies this`run, this`liveFileOperations
      ensures Performed(old(run), OnOperation((tenantId, operationId), Abandon(now)))
      ensures r == AbandonAnswer(old(State()), (tenantId, operationId), now)
    {
      Record(OnOperation((tenantId, operationId), Abandon(now)));
      var key := (tenantId, operationId);
      if key !in liveFileOperations {
        return None;
      }
      var operation := liveFileOperations[key];
      if operation.status == Pending {
        var abandoned := operation.(request := None, outcome := None, status := Abandoned);
        liveFileOperations := liveFileOperations[key := abandoned];
        return Some(Abandoned);
      }
      r := if IsExpired(operation, now) then None else Some(operation.status);
    }

    method CompleteLiveFileOperation(tenantId: string, operationId: string, outcome: string, now: Time)
      returns (r: Option<LiveFileOperation>)
      requires Valid()
      modifies this`run, this`liveFileOperations
      ensures var step := OnOperation((tenantId, operationId), Complete(outcome, now));
              && Performed(old(run), step)
              && r.Some? == FileEffect(old(State()), step, (tenantId, operationId)).Some?
      ensures r.Some? ==> Lookup(State(), (tenantId, operationId)) == r
    {
      Record(OnOperation((tenantId, operationId), Complete(outcome, now)));
      var key := (tenantId, operationId);
      if key !in liveFileOperations {
        return None;
      }
      var operation := liveFileOperations[key];
      if operation.status != Delivered || IsExpired(operation, now) {
        return None;
      }
      var done := operation.(status := Done, outcome := Some(outcome));
      liveFileOperations := liveFileOperations[key := done];
      r := Some(done);
    }

    method MarkLiveFileOperationWaiterGone(tenantId: string, operationId: string) returns (marked: bool)
      requires Valid()
      modifies this`run, this`liveFileOperations
      ensures var step := OnOperation((tenantId, operationId), FileStep.WaiterGone);
              && Performed(old(run), step)
              && marked == FileEffect(old(State()), step, (tenantId, operationId)).Some?
    {
      Record(OnOperation((tenantId, operationId), FileStep.WaiterGone));
      var key := (tenantId, operationId);
      if key !in liveFileOperations || liveFileOperations[key].status != Delivered {
        return false;
      }
      liveFileOperations := liveFileOperations[key := liveFileOperations[key].(waiterGone := Some(true))];
      marked := true;
    }

    method DeleteLiveFileOperation(tenantId: string, operationId: string)
      requires Valid()
      modifies this`run, this`liveFileOperations
      ensures Performed(old(run), DeleteOperation((tenantId, operationId)))
    {
      Record(DeleteOperation((tenantId, operationId)));
      liveFileOperations := liveFileOperations - {(tenantId, operationId)};
    }

    // ----- Monotone registers -----

    /** A blind overwrite: the polls before it are forgotten. */
    method PutWorker(worker: R.Worker)
      requires Valid()
      modifies this`workers, this`registered, this`polls
      ensures Valid() && polls == []
      ensures workers == registered == old(workers)[(worker.tenantId, worker.workerId) := worker]
    {
      workers := workers[(worker.tenantId, worker.workerId) := worker];
      registered, polls := workers, [];
    }

    method RecordOwnerPoll(tenantId: string, workerId: string, poll: R.Poll) returns (recorded: bool)
      requires Valid()
      modifies this`workers, this`polls
      ensures Valid() && polls == old(polls) + [((tenantId, workerId), poll)]
      ensures var next := R.RecordPoll(old(workers), (tenantId, workerId), poll);
              recorded == next.Some? && workers == if recorded then next.value else old(workers)
    {
      var key := (tenantId, workerId);
      ghost var before := polls;
      polls := polls + [(key, poll)];
      assert polls[..|polls| - 1] == before;
      if key !in workers {
        return false;
      }
      var worker := workers[key];
      if worker.pollSequence.Some? && worker.pollSequence.value > poll.sequence {
        return false;
      }
      workers := workers[key := worker.(lastHeartbeatAt := poll.at, pollSequence := Some(poll.sequence),
                                        pollState := Some(poll.state),
                                        pollPaceMilliseconds := Some(poll.paceMilliseconds))];
      recorded := true;
    }

    method OpenComputerRuntimeSegment(tenantId: string, ownerGeneration: int, startedAt: Time)
      requires Valid()
      modifies this`computerRuntimeSegments, this`sightings
      ensures Valid() && sightings == old(sightings) + [R.Open(tenantId, ownerGeneration, startedAt)]
      ensures computerRuntimeSegments
                == R.SegmentNext(old(computerRuntimeSegments), R.Open(tenantId, ownerGeneration, startedAt))
    {
      ghost var before := sightings;
      sightings := sightings + [R.Open(tenantId, ownerGeneration, startedAt)];
      assert sightings[..|sightings| - 1] == before;
      var segment := R.Segment(tenantId, ownerGeneration, startedAt, startedAt);
      computerRuntimeSegments := computerRuntimeSegments[(tenantId, ownerGeneration) := segment];
    }

    method ExtendComputerRuntimeSegment(tenantId: string, ownerGeneration: int, seenAt: Time)
      requires Valid()
      modifies this`computerRuntimeSegments, this`sightings
      ensures Valid() && sightings == old(sightings) + [R.Extend(tenantId, ownerGeneration, seenAt)]
      ensures computerRuntimeSegments
                == R.SegmentNext(old(computerRuntimeSegments), R.Extend(tenantId, ownerGeneration, seenAt))
    {
      ghost var before := sightings;
      sightings := sightings + [R.Extend(tenantId, ownerGeneration, seenAt)];
      assert sightings[..|sightings| - 1] == before;
      var key := (tenantId, ownerGeneration);
      if key !in computerRuntimeSegments || computerRuntimeSegments[key].lastSeenAt >= seenAt {
        return;
      }
      computerRuntimeSegments := computerRuntimeSegments[key := computerRuntimeSegments[key].(lastSeenAt := seenAt)];
    }
  }

  // -------------------------------------------------------------------------------------------------------------------
  // The run theorems, on a store as it stands
  // -------------------------------------------------------------------------------------------------------------------

  /** Every record the store holds is consistent, when records were created as the control plane creates them. */
  lemma StoredRecordsAreConsistent(store: MessagingStore, t: string)
    requires store.Valid() && t in store.computers && Fencing.CreatesNewRecords(store.run)
    ensures Consistent(store.computers[t])
  {
    Fencing.EveryReachableRecordIsConsistent(store.run, t, |store.run.steps|);
  }

  /** What `ApproveOwnerStop` will answer a caller that read the record in an earlier state of this store. */
  lemma StoredStopIsJudgedByItsHistory(store: MessagingStore, t: string, r: nat, ownerId: string, approvedAt: Time)
    requires store.Valid() && store.run.Has(t, r) && store.run.Rec(t, r).owner.id == Some(ownerId)
    ensures var read := store.run.Rec(t, r).owner;
            var step := OnRecord(t, ApproveStop(ownerId, read.dispatch.id, read.fileOperationId, approvedAt));
            Effect(store.State(), step, t).Some? <==>
              StopAgainstWork.IdsAsRead(store.run, t, r, |store.run.steps|, ownerId)
  {
    StopAgainstWork.StopApprovedIffNoWorkSinceRead(store.run, t, r, |store.run.steps|, ownerId, approvedAt);
  }

  /**
    The store refuses every step that attempts, on the record of `t`, something that carries a generation passed in an
    earlier state of this store. Queueing a file request is such a step.
   */
  lemma StoreFencesPassedGenerations(store: MessagingStore, t: string, i: nat, g: int, step: Step)
    requires store.Valid() && Fencing.CreatesNewRecords(store.run) && store.run.Has(t, i)
    requires g < store.run.Rec(t, i).host.generation
    requires var e := Attempted(step, t); e.Some? && Fencing.StaleStep(e.value, g) && !e.value.ReleaseDispatch?
    ensures Effect(store.State(), step, t).None?
  {
    Fencing.EveryReachableRecordIsConsistent(store.run, t, i);
    Fencing.PassedGenerationIsFenced(store.run, t, i, |store.run.steps|, g, Attempted(step, t).value);
  }

  /** The answer of every rate counter call counts the earlier calls of its bucket. */
  lemma StoredAnswerCountsCalls(store: MessagingStore, i: nat)
    requires store.Valid() && i < |store.calls|
    ensures L.AnswerAt(store.calls, i) == 1 + |L.Earlier(store.calls, i, L.BucketOf(store.calls[i]))|
    ensures L.BucketOf(store.calls[i]) in store.rateCounters
    ensures L.AnswerAt(store.calls, i) <= store.rateCounters[L.BucketOf(store.calls[i])]
  {
    var bucket := L.BucketOf(store.calls[i]);
    var n := |store.calls|;
    L.AnswerCountsEarlierCalls(store.calls, i);
    L.CountersCount(store.calls, n, bucket);
    assert store.calls[..n] == store.calls;
    L.SubsetIsSmaller(L.Earlier(store.calls, i, bucket) + {i}, L.Earlier(store.calls, n, bucket));
  }

  /** The store's poll sequence of a worker is the maximum of what it was put with and all polls presented since. */
  lemma StoredPollIsNewest(store: MessagingStore, key: R.WorkerKey)
    requires store.Valid() && key in store.registered
    ensures key in store.workers
    ensures R.IsMaximum(store.workers[key].pollSequence, store.registered[key].pollSequence, store.polls, key)
  {
    R.PollSequenceIsMaximum(store.registered, store.polls, key);
  }
}
