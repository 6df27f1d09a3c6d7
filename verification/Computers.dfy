/**
  The control record of one organization's computer, and what each atomic step of the messaging store does to it.

  A record is changed only by compare-and-swap steps. `Attempt` is the meaning of one step on one record:
  `None` when the step's condition fails and the record stays as it was, `Some(next)` when the step wins.
 */
module Computers {
  import opened Options

  /** Milliseconds since the epoch. */
  type Time = int

  /** The whole second a moment lies in, in milliseconds. Division rounds down, also before the epoch. */
  function WholeSecond(t: Time): Time {
    t / 1000 * 1000
  }

  lemma WholeSecondContains(t: Time)
    ensures WholeSecond(t) % 1000 == 0 && WholeSecond(t) <= t < WholeSecond(t) + 1000
  {
  }

  /** The readiness gates. */
  datatype Readiness = Readiness(
    stopped: bool,
    model: bool,
    workspace: bool,
    browser: bool,
    browserUnavailable: Option<bool>)

  /** The host start protocol: who may start a host, and whether the start was handed to the driver. */
  datatype HostStart = HostStart(
    generation: int,
    dispatched: int,
    leaseExpiresAt: Option<Time>,
    lostAt: Option<Time>,
    lostGeneration: Option<int>)

  /** The live disk and its published snapshot. */
  datatype Disk = Disk(
    snapshotGeneration: int,
    snapshotUri: Option<string>,
    snapshotChecksum: Option<string>,
    dirty: bool,
    hydrateRequired: bool,
    intendedHostWorkerId: Option<string>,
    liveWriterHostId: Option<string>)

  /** The dispatch last offered to the owner, and when the credentials of its turn were last renewed. */
  datatype DispatchFields = DispatchFields(
    id: Option<string>,
    turnId: Option<string>,
    actionId: Option<string>,
    attempt: Option<int>,
    leaseExpiresAt: Option<Time>,
    credentialsRenewedAt: Option<Time>)

  /** The fields an owner brings and that leave the record together. */
  datatype OwnerFields = OwnerFields(
    id: Option<string>,
    protocolVersion: Option<int>,
    startedAt: Option<Time>,
    credentialsExpireAt: Option<Time>,
    credentialsRenewedAt: Option<Time>,
    idleSinceAt: Option<Time>,
    stopApprovedAt: Option<Time>,
    interactiveUntilAt: Option<Time>,
    fileOperationId: Option<string>,
    dispatch: DispatchFields)

  const NO_DISPATCH: DispatchFields := DispatchFields(None, None, None, None, None, None)

  const NO_OWNER: OwnerFields := OwnerFields(None, None, None, None, None, None, None, None, None, NO_DISPATCH)

  /** `ownerGeneration` is not among the owner fields: it survives the end of an owner. */
  datatype Computer = Computer(
    computerId: string,
    tenantId: string,
    policy: string,
    readiness: Readiness,
    host: HostStart,
    disk: Disk,
    ownerGeneration: Option<int>,
    owner: OwnerFields)

  function WithoutOwner(c: Computer): Computer {
    c.(owner := NO_OWNER)
  }

  datatype Capability = Model | Workspace | Browser

  /** A dispatch as the control plane offers it to the owner. */
  datatype Dispatch = Dispatch(dispatchId: string, turnId: string, actionId: string, attempt: int, leaseExpiresAt: Time)

  datatype IdleChange = KeepIdle | ClearIdle | SetIdle(since: Time)

  /** One atomic step on a computer record. `QueueRequest` is the record's half of queueing a live-file operation. */
  datatype RecordStep =
    | MarkStopped(diskMatchesPublished: bool, expectedGeneration: Option<int>)
    | MarkRunning
    | CapabilityReady(capability: Capability)
    | BrowserUnavailable
    | ClaimGeneration(expected: int, leaseExpiresAt: Time)
    | ReleaseLease(generation: int)
    | SettleLost(lostGeneration: int, lostAt: Time, requireHydrate: bool)
    | PublishSnapshot(uri: string, checksum: string)
    | Hydrated
    | DiskDirty
    | ClaimWriter(hostId: string)
    | MarkDispatched(dispatched: int)
    | ReleaseDispatch(released: int)
    | ConsumeBootstrap(bootOwner: string, bootGeneration: int, version: int, startedAt: Time, bootExpireAt: Time)
    | UpdatePresence(presentOwner: string, newVersion: Option<int>, idle: IdleChange)
    | OfferDispatch(offeredOwner: string, expectedDispatch: Option<string>, dispatch: Dispatch)
    | ApproveStop(stoppedOwner: string, expectedDispatchId: Option<string>, expectedFileOperationId: Option<string>,
                  approvedAt: Time)
    | RenewSupervisor(renewedOwner: string, renewedGeneration: int, seen: Option<Time>, renewedAt: Time, expireAt: Time)
    | RenewTurn(turnOwner: string, turnGeneration: int, turnDispatch: string, turnSeen: Option<Time>,
                turnRenewedAt: Time)
    | TouchWindow(touchedOwner: string, touchedGeneration: int, until: Time)
    | QueueRequest(queuedOwner: string, queuedGeneration: int, operationId: string, interactiveUntil: Time)

  /** The second a stored or seen renewal stamp names; an absent stamp is a value of its own. */
  function StampSecond(stamp: Option<Time>): Option<int> {
    match stamp
    case None => None
    case Some(t) => Some(t / 1000)
  }

  /** The record's owner is `ownerId`, started for `generation`, and its stop has not been approved. */
  predicate LiveOwner(c: Computer, ownerId: string, generation: int) {
    c.owner.id == Some(ownerId) && c.ownerGeneration == Some(generation) && c.owner.stopApprovedAt.None?
  }

  /** The owner that a step names and that must be the recorded one. */
  function NamedOwner(e: RecordStep): Option<string> {
    match e
    case UpdatePresence(o, _, _) => Some(o)
    case OfferDispatch(o, _, _) => Some(o)
    case ApproveStop(o, _, _, _) => Some(o)
    case RenewSupervisor(o, _, _, _, _) => Some(o)
    case RenewTurn(o, _, _, _, _) => Some(o)
    case TouchWindow(o, _, _) => Some(o)
    case QueueRequest(o, _, _, _) => Some(o)
    case _ => None
  }

  function Attempt(c: Computer, e: RecordStep): Option<Computer> {
    match e
    case MarkStopped(diskMatchesPublished, expected) =>
      if expected.Some? && c.host.generation != expected.value then None
      else Some(WithoutOwner(c).(readiness := Readiness(true, false, false, false, c.readiness.browserUnavailable),
                                 disk := c.disk.(dirty := if diskMatchesPublished then false else c.disk.dirty)))
    case MarkRunning =>
      Some(c.(readiness := c.readiness.(browserUnavailable := None, stopped := false)))
    case CapabilityReady(capability) =>
      Some(c.(readiness := match capability
                           case Model => c.readiness.(model := true)
                           case Workspace => c.readiness.(workspace := true)
                           case Browser => c.readiness.(browserUnavailable := None, browser := true)))
    case BrowserUnavailable =>
      Some(c.(readiness := c.readiness.(browser := false, browserUnavailable := Some(true))))
    case ClaimGeneration(expected, leaseExpiresAt) =>
      if c.host.generation != expected then None
      else Some(WithoutOwner(c).(disk := c.disk.(liveWriterHostId := None),
                                 host := c.host.(generation := expected + 1, leaseExpiresAt := Some(leaseExpiresAt))))
    case ReleaseLease(generation) =>
      if c.host.generation != generation then None
      else Some(c.(host := c.host.(leaseExpiresAt := None)))
    case SettleLost(generation, lostAt, requireHydrate) =>
      if c.host.generation != generation then None
      else if !c.disk.dirty && c.disk.liveWriterHostId.None? then None
      else Some(WithoutOwner(c).(readiness := Readiness(true, false, false, false, c.readiness.browserUnavailable),
                                 disk := c.disk.(liveWriterHostId := None, dirty := false,
                                                 hydrateRequired := requireHydrate),
                                 host := c.host.(lostAt := Some(lostAt), lostGeneration := Some(generation))))
    case PublishSnapshot(uri, checksum) =>
      if c.disk.hydrateRequired then None
      else Some(c.(disk := c.disk.(snapshotUri := Some(uri), snapshotChecksum := Some(checksum),
                                   snapshotGeneration := c.disk.snapshotGeneration + 1, dirty := false)))
    case Hydrated =>
      Some(c.(disk := c.disk.(intendedHostWorkerId := None, hydrateRequired := false, dirty := false)))
    case DiskDirty =>
      Some(c.(disk := c.disk.(dirty := true)))
    case ClaimWriter(hostId) =>
      if c.disk.liveWriterHostId.Some? && c.disk.liveWriterHostId.value != hostId then None
      else Some(c.(disk := c.disk.(liveWriterHostId := Some(hostId))))
    case MarkDispatched(generation) =>
      if c.host.generation != generation || c.host.dispatched >= generation then None
      else Some(c.(host := c.host.(dispatched := generation)))
    case ReleaseDispatch(generation) =>
      if c.host.dispatched != generation then None
      else Some(c.(host := c.host.(dispatched := generation - 1)))
    case ConsumeBootstrap(ownerId, generation, version, startedAt, expireAt) =>
      if c.host.generation != generation then None
      else if c.ownerGeneration.Some? && c.ownerGeneration.value >= generation then None
      else Some(c.(ownerGeneration := Some(generation),
                   owner := NO_OWNER.(id := Some(ownerId), protocolVersion := Some(version),
                                      startedAt := Some(WholeSecond(startedAt)),
                                      credentialsExpireAt := Some(WholeSecond(expireAt)))))
    case UpdatePresence(ownerId, version, idle) =>
      if c.owner.id != Some(ownerId) then None
      else Some(c.(owner := c.owner.(
                     protocolVersion := if version.Some? then version else c.owner.protocolVersion,
                     idleSinceAt := match idle
                                    case KeepIdle => c.owner.idleSinceAt
                                    case ClearIdle => None
                                    case SetIdle(since) => Some(WholeSecond(since)))))
    case OfferDispatch(ownerId, expected, d) =>
      if c.owner.id != Some(ownerId) || c.owner.stopApprovedAt.Some? then None
      else if c.owner.dispatch.id != expected then None
      else Some(c.(owner := c.owner.(dispatch := DispatchFields(Some(d.dispatchId), Some(d.turnId), Some(d.actionId),
                                                                Some(d.attempt), Some(WholeSecond(d.leaseExpiresAt)),
                                                                None))))
    case ApproveStop(ownerId, expectedDispatchId, expectedFileOperationId, approvedAt) =>
      if c.owner.id != Some(ownerId) || c.owner.dispatch.id != expectedDispatchId then None
      else if c.owner.fileOperationId != expectedFileOperationId then None
      else Some(c.(owner := c.owner.(stopApprovedAt := Some(WholeSecond(approvedAt)))))
    case RenewSupervisor(ownerId, generation, seen, renewedAt, expireAt) =>
      if !LiveOwner(c, ownerId, generation) then None
      else if StampSecond(c.owner.credentialsRenewedAt) != StampSecond(seen) then None
      else Some(c.(owner := c.owner.(credentialsRenewedAt := Some(WholeSecond(renewedAt)),
                                     credentialsExpireAt := Some(WholeSecond(expireAt)))))
    case RenewTurn(ownerId, generation, dispatchId, seen, renewedAt) =>
      if !LiveOwner(c, ownerId, generation) then None
      else if StampSecond(c.owner.dispatch.credentialsRenewedAt) != StampSecond(seen) then None
      else if c.owner.dispatch.id != Some(dispatchId) then None
      else
        var d := c.owner.dispatch.(credentialsRenewedAt := Some(WholeSecond(renewedAt)));
        Some(c.(owner := c.owner.(dispatch := d)))
    case TouchWindow(ownerId, generation, until) =>
      if !LiveOwner(c, ownerId, generation) then None
      else Some(c.(owner := c.owner.(interactiveUntilAt := Some(WholeSecond(until)))))
    case QueueRequest(ownerId, generation, operationId, until) =>
      if !LiveOwner(c, ownerId, generation) then None
      else Some(c.(owner := c.owner.(interactiveUntilAt := Some(WholeSecond(until)),
                                     fileOperationId := Some(operationId))))
  }

  /** The record the control plane creates for an organization. */
  function NewComputer(tenantId: string, computerId: string): Computer {
    Computer(computerId, tenantId, "prefer_local", Readiness(false, true, false, false, None),
             HostStart(0, 0, None, None, None), Disk(0, None, None, false, false, None, None), None, NO_OWNER)
  }

  /**
    What every record the store can reach satisfies: nothing was dispatched beyond the current start generation, the
    last owner generation is not beyond it either, and a live owner is always an owner of the current generation.
   */
  predicate Consistent(c: Computer) {
    && c.host.dispatched <= c.host.generation
    && (c.ownerGeneration.Some? ==> c.ownerGeneration.value <= c.host.generation)
    && (c.owner.id.Some? ==> c.ownerGeneration == Some(c.host.generation))
  }

  lemma AttemptKeepsConsistent(c: Computer, e: RecordStep)
    requires Consistent(c) && Attempt(c, e).Some?
    ensures Consistent(Attempt(c, e).value)
  {
  }
}
