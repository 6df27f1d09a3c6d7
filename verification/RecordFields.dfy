/**
  The record of a computer, field by field. For every field: which steps set it, and to what. For every step: what it
  asks of the record. From that, what the record holds after any run: each field is what the last step that sets it
  said.
 */
module RecordFields {
  import opened Options
  import opened Computers
  import opened StoreRuns

  // -------------------------------------------------------------------------------------------------------------------
  // What each step asks
  // -------------------------------------------------------------------------------------------------------------------

  /** The start generation that a step expects. */
  function ExpectedGeneration(e: RecordStep): Option<int> {
    match e
    case MarkStopped(_, expected) => expected
    case ClaimGeneration(expected, _) => Some(expected)
    case ReleaseLease(g) => Some(g)
    case SettleLost(g, _, _) => Some(g)
    case MarkDispatched(g) => Some(g)
    case ConsumeBootstrap(_, g, _, _, _) => Some(g)
    case _ => None
  }

  /** The owner generation that a step expects. Such a step also expects that no stop was approved. */
  function ExpectedOwnerGeneration(e: RecordStep): Option<int> {
    match e
    case RenewSupervisor(_, g, _, _, _) => Some(g)
    case RenewTurn(_, g, _, _, _) => Some(g)
    case TouchWindow(_, g, _) => Some(g)
    case QueueRequest(_, g, _, _) => Some(g)
    case _ => None
  }

  /** The dispatch id that a step expects: `Some(None)` expects that there is none. */
  function ExpectedDispatch(e: RecordStep): Option<Option<string>> {
    match e
    case OfferDispatch(_, expected, _) => Some(expected)
    case ApproveStop(_, expected, _, _) => Some(expected)
    case RenewTurn(_, _, dispatchId, _, _) => Some(Some(dispatchId))
    case _ => None
  }

  /** The second of the renewal stamp that a step saw, and the record's own, when the step compares them. */
  function ComparedStamps(c: Computer, e: RecordStep): Option<(Option<int>, Option<int>)> {
    match e
    case RenewSupervisor(_, _, seen, _, _) => Some((SecondOf(seen), SecondOf(c.owner.credentialsRenewedAt)))
    case RenewTurn(_, _, _, seen, _) => Some((SecondOf(seen), SecondOf(c.owner.dispatch.credentialsRenewedAt)))
    case _ => None
  }

  function SecondOf(moment: Option<Time>): Option<int> {
    if moment.None? then None else Some(moment.value / 1000)
  }

  /** Everything a step asks of the record. */
  predicate Asked(c: Computer, e: RecordStep) {
    && (ExpectedGeneration(e).Some? ==> c.host.generation == ExpectedGeneration(e).value)
    && (ExpectedOwnerGeneration(e).Some? ==>
          c.ownerGeneration == ExpectedOwnerGeneration(e) && c.owner.stopApprovedAt.None?)
    && (NamedOwner(e).Some? ==> c.owner.id == NamedOwner(e))
    && (ExpectedDispatch(e).Some? ==> c.owner.dispatch.id == ExpectedDispatch(e).value)
    && (ComparedStamps(c, e).Some? ==> ComparedStamps(c, e).value.0 == ComparedStamps(c, e).value.1)
    && (e.OfferDispatch? ==> c.owner.stopApprovedAt.None?)
    && (e.ApproveStop? ==> c.owner.fileOperationId == e.expectedFileOperationId)
    && (e.SettleLost? ==> c.disk.dirty || c.disk.liveWriterHostId.Some?)
    && (e.PublishSnapshot? ==> !c.disk.hydrateRequired)
    && (e.ClaimWriter? ==> c.disk.liveWriterHostId.None? || c.disk.liveWriterHostId.value == e.hostId)
    && (e.MarkDispatched? ==> c.host.dispatched < e.dispatched)
    && (e.ReleaseDispatch? ==> c.host.dispatched == e.released)
    && (e.ConsumeBootstrap? ==> c.ownerGeneration.None? || c.ownerGeneration.value < e.bootGeneration)
  }

  /** A step wins exactly when the record meets everything it asks. */
  lemma WinsIff(c: Computer, e: RecordStep)
    ensures Attempt(c, e).Some? <==> Asked(c, e)
  {
  }

  // -------------------------------------------------------------------------------------------------------------------
  // What each step sets, field by field
  // -------------------------------------------------------------------------------------------------------------------

  function SetsStopped(e: RecordStep): Option<bool> {
    if e.MarkStopped? || e.SettleLost? then Some(true) else if e.MarkRunning? then Some(false) else None
  }

  /** A host that ends is ready for nothing. */
  function SetsReady(e: RecordStep, capability: Capability): Option<bool> {
    if e.MarkStopped? || e.SettleLost? then Some(false)
    else if e.CapabilityReady? && e.capability == capability then Some(true)
    else if e.BrowserUnavailable? && capability == Browser then Some(false)
    else None
  }

  function SetsModel(e: RecordStep): Option<bool> {
    SetsReady(e, Model)
  }

  function SetsWorkspace(e: RecordStep): Option<bool> {
    SetsReady(e, Workspace)
  }

  function SetsBrowser(e: RecordStep): Option<bool> {
    SetsReady(e, Browser)
  }

  function SetsBrowserUnavailable(e: RecordStep): Option<Option<bool>> {
    if e.BrowserUnavailable? then Some(Some(true))
    else if e.MarkRunning? || (e.CapabilityReady? && e.capability == Browser) then Some(None)
    else None
  }

  function SetsGeneration(e: RecordStep): Option<int> {
    if e.ClaimGeneration? then Some(e.expected + 1) else None
  }

  function SetsDispatched(e: RecordStep): Option<int> {
    if e.MarkDispatched? then Some(e.dispatched) else if e.ReleaseDispatch? then Some(e.released - 1) else None
  }

  function SetsLease(e: RecordStep): Option<Option<Time>> {
    if e.ClaimGeneration? then Some(Some(e.leaseExpiresAt)) else if e.ReleaseLease? then Some(None) else None
  }

  function SetsLostAt(e: RecordStep): Option<Option<Time>> {
    if e.SettleLost? then Some(Some(e.lostAt)) else None
  }

  function SetsLostGeneration(e: RecordStep): Option<Option<int>> {
    if e.SettleLost? then Some(Some(e.lostGeneration)) else None
  }

  function SetsSnapshotUri(e: RecordStep): Option<Option<string>> {
    if e.PublishSnapshot? then Some(Some(e.uri)) else None
  }

  function SetsSnapshotChecksum(e: RecordStep): Option<Option<string>> {
    if e.PublishSnapshot? then Some(Some(e.checksum)) else None
  }

  /** A stop leaves the flag alone unless the disk matches what was published. */
  function SetsDirty(e: RecordStep): Option<bool> {
    if e.DiskDirty? then Some(true)
    else if e.SettleLost? || e.PublishSnapshot? || e.Hydrated? then Some(false)
    else if e.MarkStopped? && e.diskMatchesPublished then Some(false)
    else None
  }

  function SetsHydrateRequired(e: RecordStep): Option<bool> {
    if e.SettleLost? then Some(e.requireHydrate) else if e.Hydrated? then Some(false) else None
  }

  function SetsIntendedHost(e: RecordStep): Option<Option<string>> {
    if e.Hydrated? then Some(None) else None
  }

  function SetsWriter(e: RecordStep): Option<Option<string>> {
    if e.ClaimWriter? then Some(Some(e.hostId)) else if e.ClaimGeneration? || e.SettleLost? then Some(None) else None
  }

  function SetsOwnerGeneration(e: RecordStep): Option<Option<int>> {
    if e.ConsumeBootstrap? then Some(Some(e.bootGeneration)) else None
  }

  /** A field of the owner: it goes with the owner, and a new owner starts without it. */
  function OfOwner<V>(e: RecordStep, said: Option<Option<V>>): Option<Option<V>> {
    if e.MarkStopped? || e.ClaimGeneration? || e.SettleLost? then Some(None)
    else if said.Some? then said
    else if e.ConsumeBootstrap? then Some(None)
    else None
  }

  function SetsOwnerId(e: RecordStep): Option<Option<string>> {
    OfOwner(e, if e.ConsumeBootstrap? then Some(Some(e.bootOwner)) else None)
  }

  function SetsProtocolVersion(e: RecordStep): Option<Option<int>> {
    OfOwner(e, if e.ConsumeBootstrap? then Some(Some(e.version))
               else if e.UpdatePresence? && e.newVersion.Some? then Some(e.newVersion)
               else None)
  }

  function SetsStartedAt(e: RecordStep): Option<Option<Time>> {
    OfOwner(e, if e.ConsumeBootstrap? then Some(Some(WholeSecond(e.startedAt))) else None)
  }

  function SetsExpiry(e: RecordStep): Option<Option<Time>> {
    OfOwner(e, if e.ConsumeBootstrap? then Some(Some(WholeSecond(e.bootExpireAt)))
               else if e.RenewSupervisor? then Some(Some(WholeSecond(e.expireAt)))
               else None)
  }

  function SetsRenewal(e: RecordStep): Option<Option<Time>> {
    OfOwner(e, if e.RenewSupervisor? then Some(Some(WholeSecond(e.renewedAt))) else None)
  }

  function SetsIdleSince(e: RecordStep): Option<Option<Time>> {
    OfOwner(e, if e.UpdatePresence? && e.idle.ClearIdle? then Some(None)
               else if e.UpdatePresence? && e.idle.SetIdle? then Some(Some(WholeSecond(e.idle.since)))
               else None)
  }

  function SetsStopApproval(e: RecordStep): Option<Option<Time>> {
    OfOwner(e, if e.ApproveStop? then Some(Some(WholeSecond(e.approvedAt))) else None)
  }

  function SetsWindow(e: RecordStep): Option<Option<Time>> {
    OfOwner(e, if e.TouchWindow? then Some(Some(WholeSecond(e.until)))
               else if e.QueueRequest? then Some(Some(WholeSecond(e.interactiveUntil)))
               else None)
  }

  function SetsFileOperation(e: RecordStep): Option<Option<string>> {
    OfOwner(e, if e.QueueRequest? then Some(Some(e.operationId)) else None)
  }

  function SetsDispatchId(e: RecordStep): Option<Option<string>> {
    OfOwner(e, if e.OfferDispatch? then Some(Some(e.dispatch.dispatchId)) else None)
  }

  function SetsTurnId(e: RecordStep): Option<Option<string>> {
    OfOwner(e, if e.OfferDispatch? then Some(Some(e.dispatch.turnId)) else None)
  }

  function SetsActionId(e: RecordStep): Option<Option<string>> {
    OfOwner(e, if e.OfferDispatch? then Some(Some(e.dispatch.actionId)) else None)
  }

  function SetsAttempt(e: RecordStep): Option<Option<int>> {
    OfOwner(e, if e.OfferDispatch? then Some(Some(e.dispatch.attempt)) else None)
  }

  function SetsDispatchLease(e: RecordStep): Option<Option<Time>> {
    OfOwner(e, if e.OfferDispatch? then Some(Some(WholeSecond(e.dispatch.leaseExpiresAt))) else None)
  }

  /** A new dispatch starts without a renewal. */
  function SetsTurnRenewal(e: RecordStep): Option<Option<Time>> {
    OfOwner(e, if e.RenewTurn? then Some(Some(WholeSecond(e.turnRenewedAt)))
               else if e.OfferDispatch? then Some(None)
               else None)
  }

  /** The number of snapshots a step publishes. */
  function Published(e: RecordStep): int {
    if e.PublishSnapshot? then 1 else 0
  }

  // ----- One step -----

  function Or<V>(said: Option<V>, was: V): V {
    if said.Some? then said.value else was
  }

  function ReadinessNext(was: Readiness, e: RecordStep): Readiness {
    Readiness(Or(SetsStopped(e), was.stopped), Or(SetsModel(e), was.model), Or(SetsWorkspace(e), was.workspace),
              Or(SetsBrowser(e), was.browser), Or(SetsBrowserUnavailable(e), was.browserUnavailable))
  }

  function HostNext(was: HostStart, e: RecordStep): HostStart {
    HostStart(Or(SetsGeneration(e), was.generation), Or(SetsDispatched(e), was.dispatched),
              Or(SetsLease(e), was.leaseExpiresAt), Or(SetsLostAt(e), was.lostAt),
              Or(SetsLostGeneration(e), was.lostGeneration))
  }

  function DiskNext(was: Disk, e: RecordStep): Disk {
    Disk(was.snapshotGeneration + Published(e), Or(SetsSnapshotUri(e), was.snapshotUri),
         Or(SetsSnapshotChecksum(e), was.snapshotChecksum), Or(SetsDirty(e), was.dirty),
         Or(SetsHydrateRequired(e), was.hydrateRequired), Or(SetsIntendedHost(e), was.intendedHostWorkerId),
         Or(SetsWriter(e), was.liveWriterHostId))
  }

  function DispatchNext(was: DispatchFields, e: RecordStep): DispatchFields {
    DispatchFields(Or(SetsDispatchId(e), was.id), Or(SetsTurnId(e), was.turnId), Or(SetsActionId(e), was.actionId),
                   Or(SetsAttempt(e), was.attempt), Or(SetsDispatchLease(e), was.leaseExpiresAt),
                   Or(SetsTurnRenewal(e), was.credentialsRenewedAt))
  }

  function OwnerNext(was: OwnerFields, e: RecordStep): OwnerFields {
    OwnerFields(Or(SetsOwnerId(e), was.id), Or(SetsProtocolVersion(e), was.protocolVersion),
                Or(SetsStartedAt(e), was.startedAt), Or(SetsExpiry(e), was.credentialsExpireAt),
                Or(SetsRenewal(e), was.credentialsRenewedAt), Or(SetsIdleSince(e), was.idleSinceAt),
                Or(SetsStopApproval(e), was.stopApprovedAt), Or(SetsWindow(e), was.interactiveUntilAt),
                Or(SetsFileOperation(e), was.fileOperationId), DispatchNext(was.dispatch, e))
  }

  lemma StepSetsReadiness(c: Computer, e: RecordStep)
    requires Attempt(c, e).Some?
    ensures Attempt(c, e).value.readiness == ReadinessNext(c.readiness, e)
  {
  }

  lemma StepSetsHost(c: Computer, e: RecordStep)
    requires Attempt(c, e).Some?
    ensures Attempt(c, e).value.host == HostNext(c.host, e)
  {
  }

  lemma StepSetsDisk(c: Computer, e: RecordStep)
    requires Attempt(c, e).Some?
    ensures Attempt(c, e).value.disk == DiskNext(c.disk, e)
  {
  }

  lemma StepSetsDispatch(c: Computer, e: RecordStep)
    requires Attempt(c, e).Some?
    ensures Attempt(c, e).value.owner.dispatch == DispatchNext(c.owner.dispatch, e)
  {
  }

  lemma StepSetsOwner(c: Computer, e: RecordStep)
    requires Attempt(c, e).Some?
    ensures Attempt(c, e).value.owner == OwnerNext(c.owner, e)
  {
    StepSetsDispatch(c, e);
  }

  lemma StepSetsRest(c: Computer, e: RecordStep)
    requires Attempt(c, e).Some?
    ensures var next := Attempt(c, e).value;
            && next.computerId == c.computerId && next.tenantId == c.tenantId && next.policy == c.policy
            && next.ownerGeneration == Or(SetsOwnerGeneration(e), c.ownerGeneration)
  {
  }

  // -------------------------------------------------------------------------------------------------------------------
  // Whole runs
  // -------------------------------------------------------------------------------------------------------------------

  /** What the last of the steps `i` up to, not including, `j` that took effect and set the field said. */
  ghost function LastSet<V>(effects: seq<Option<RecordStep>>, i: nat, j: nat, setter: RecordStep -> Option<V>,
                            initial: V): V
    requires i <= j <= |effects|
    decreases j
  {
    if i == j then initial
    else if effects[j - 1].Some? && setter(effects[j - 1].value).Some? then setter(effects[j - 1].value).value
    else LastSet(effects, i, j - 1, setter, initial)
  }

  /** The setter says what becomes of the field in every step that wins. */
  ghost predicate Tracks<V>(field: Computer -> V, setter: RecordStep -> Option<V>) {
    forall c, e | Attempt(c, e).Some? :: field(Attempt(c, e).value) == Or(setter(e), field(c))
  }

  lemma {:induction false} LastSetHistory<V>(values: seq<V>, effects: seq<Option<RecordStep>>, i: nat, j: nat,
                                             setter: RecordStep -> Option<V>)
    requires i <= j <= |effects| && |values| == |effects| + 1
    requires forall k | i <= k < j ::
               values[k + 1] == if effects[k].Some? then Or(setter(effects[k].value), values[k]) else values[k]
    ensures values[j] == LastSet(effects, i, j, setter, values[i])
    decreases j
  {
    if i == j {
    } else {
      LastSetHistory(values, effects, i, j - 1, setter);
      var effect := effects[j - 1];
      assert values[j - 1 + 1] == if effect.Some? then Or(setter(effect.value), values[j - 1]) else values[j - 1];
    }
  }

  /** The field in every state from `i` on, with the value in state `i` before that. */
  ghost function FieldValues<V>(tr: Trace, t: string, i: nat, field: Computer -> V): seq<V>
    requires tr.Has(t, i)
  {
    seq(|tr.states|, k requires 0 <= k < |tr.states| =>
      if tr.Has(t, k) then field(tr.Rec(t, k)) else field(tr.Rec(t, i)))
  }

  lemma TracksStep<V>(c: Computer, e: RecordStep, d: Computer, field: Computer -> V, setter: RecordStep -> Option<V>)
    requires Tracks(field, setter) && Attempt(c, e) == Some(d)
    ensures field(d) == Or(setter(e), field(c))
  {
    assert field(Attempt(c, e).value) == Or(setter(e), field(c));
  }

  lemma FieldStep<V>(tr: Trace, t: string, k: nat, field: Computer -> V, setter: RecordStep -> Option<V>)
    requires tr.Valid() && k < |tr.steps| && tr.Has(t, k) && Tracks(field, setter)
    ensures tr.Has(t, k + 1)
    ensures var effect := tr.Eff(t, k); var was := field(tr.Rec(t, k));
            field(tr.Rec(t, k + 1)) == if effect.Some? then Or(setter(effect.value), was) else was
  {
    TraceStep(tr, t, k);
    if tr.Eff(t, k).Some? {
      TracksStep(tr.Rec(t, k), tr.Eff(t, k).value, tr.Rec(t, k + 1), field, setter);
    }
  }

  lemma FieldIsLastSet<V>(tr: Trace, t: string, i: nat, j: nat, field: Computer -> V, setter: RecordStep -> Option<V>)
    requires tr.Valid() && i <= j <= |tr.steps| && tr.Has(t, i) && Tracks(field, setter)
    ensures tr.Has(t, j)
    ensures field(tr.Rec(t, j)) == LastSet(tr.Effects(t), i, j, setter, field(tr.Rec(t, i)))
  {
    var values, effects := FieldValues(tr, t, i, field), tr.Effects(t);
    forall k | i <= k < j
      ensures values[k + 1] == if effects[k].Some? then Or(setter(effects[k].value), values[k]) else values[k]
    {
      RecordStays(tr, t, i, k);
      FieldStep(tr, t, k, field, setter);
    }
    RecordStays(tr, t, i, j);
    LastSetHistory(values, effects, i, j, setter);
  }

  // ----- What the record holds after any run -----

  /** How many of the steps `i` up to, not including, `j` published a snapshot. */
  ghost function PublishCount(effects: seq<Option<RecordStep>>, i: nat, j: nat): int
    requires i <= j <= |effects|
    decreases j
  {
    if i == j then 0
    else PublishCount(effects, i, j - 1) + (if effects[j - 1].Some? then Published(effects[j - 1].value) else 0)
  }

  lemma {:induction false} CountHistory(counts: seq<int>, effects: seq<Option<RecordStep>>, i: nat, j: nat)
    requires i <= j <= |effects| && |counts| == |effects| + 1
    requires forall k | i <= k < j ::
               counts[k + 1] == counts[k] + (if effects[k].Some? then Published(effects[k].value) else 0)
    ensures counts[j] == counts[i] + PublishCount(effects, i, j)
    decreases j
  {
    if i == j {
    } else {
      CountHistory(counts, effects, i, j - 1);
      assert counts[j - 1 + 1]
             == counts[j - 1] + (if effects[j - 1].Some? then Published(effects[j - 1].value) else 0);
    }
  }

  ghost function SnapshotGenerations(tr: Trace, t: string): seq<int> {
    seq(|tr.states|, k requires 0 <= k < |tr.states| =>
      if tr.Has(t, k) then tr.Rec(t, k).disk.snapshotGeneration else 0)
  }

  lemma PublishesAreCounted(tr: Trace, t: string, i: nat, j: nat)
    requires tr.Valid() && i <= j <= |tr.steps| && tr.Has(t, i)
    ensures tr.Has(t, j)
    ensures tr.Rec(t, j).disk.snapshotGeneration
            == tr.Rec(t, i).disk.snapshotGeneration + PublishCount(tr.Effects(t), i, j)
  {
    var counts, effects := SnapshotGenerations(tr, t), tr.Effects(t);
    forall k | i <= k < j
      ensures counts[k + 1] == counts[k] + (if effects[k].Some? then Published(effects[k].value) else 0)
    {
      RecordStays(tr, t, i, k);
      TraceStep(tr, t, k);
      if effects[k].Some? {
        StepSetsDisk(tr.Rec(t, k), effects[k].value);
      }
    }
    RecordStays(tr, t, i, j);
    CountHistory(counts, effects, i, j);
  }

  /** The readiness gates that a history leaves. */
  ghost function ReadinessAfter(effects: seq<Option<RecordStep>>, i: nat, j: nat, was: Readiness): Readiness
    requires i <= j <= |effects|
  {
    Readiness(LastSet(effects, i, j, SetsStopped, was.stopped),
              LastSet(effects, i, j, SetsModel, was.model),
              LastSet(effects, i, j, SetsWorkspace, was.workspace),
              LastSet(effects, i, j, SetsBrowser, was.browser),
              LastSet(effects, i, j, SetsBrowserUnavailable, was.browserUnavailable))
  }

  lemma ReadinessIsItsHistory(tr: Trace, t: string, i: nat, j: nat)
    requires tr.Valid() && i <= j <= |tr.steps| && tr.Has(t, i)
    ensures tr.Has(t, j)
    ensures tr.Rec(t, j).readiness == ReadinessAfter(tr.Effects(t), i, j, tr.Rec(t, i).readiness)
  {
    forall c, e | Attempt(c, e).Some?
      ensures Attempt(c, e).value.readiness == ReadinessNext(c.readiness, e)
    {
      StepSetsReadiness(c, e);
    }
    FieldIsLastSet(tr, t, i, j, (c: Computer) => c.readiness.stopped, SetsStopped);
    FieldIsLastSet(tr, t, i, j, (c: Computer) => c.readiness.model, SetsModel);
    FieldIsLastSet(tr, t, i, j, (c: Computer) => c.readiness.workspace, SetsWorkspace);
    FieldIsLastSet(tr, t, i, j, (c: Computer) => c.readiness.browser, SetsBrowser);
    FieldIsLastSet(tr, t, i, j, (c: Computer) => c.readiness.browserUnavailable, SetsBrowserUnavailable);
  }

  /** The host start fields that a history leaves. */
  ghost function HostAfter(effects: seq<Option<RecordStep>>, i: nat, j: nat, was: HostStart): HostStart
    requires i <= j <= |effects|
  {
    HostStart(LastSet(effects, i, j, SetsGeneration, was.generation),
              LastSet(effects, i, j, SetsDispatched, was.dispatched),
              LastSet(effects, i, j, SetsLease, was.leaseExpiresAt),
              LastSet(effects, i, j, SetsLostAt, was.lostAt),
              LastSet(effects, i, j, SetsLostGeneration, was.lostGeneration))
  }

  lemma HostIsItsHistory(tr: Trace, t: string, i: nat, j: nat)
    requires tr.Valid() && i <= j <= |tr.steps| && tr.Has(t, i)
    ensures tr.Has(t, j)
    ensures tr.Rec(t, j).host == HostAfter(tr.Effects(t), i, j, tr.Rec(t, i).host)
  {
    forall c, e | Attempt(c, e).Some?
      ensures Attempt(c, e).value.host == HostNext(c.host, e)
    {
      StepSetsHost(c, e);
    }
    FieldIsLastSet(tr, t, i, j, (c: Computer) => c.host.generation, SetsGeneration);
    FieldIsLastSet(tr, t, i, j, (c: Computer) => c.host.dispatched, SetsDispatched);
    FieldIsLastSet(tr, t, i, j, (c: Computer) => c.host.leaseExpiresAt, SetsLease);
    FieldIsLastSet(tr, t, i, j, (c: Computer) => c.host.lostAt, SetsLostAt);
    FieldIsLastSet(tr, t, i, j, (c: Computer) => c.host.lostGeneration, SetsLostGeneration);
  }

  /** The disk fields that a history leaves. */
  ghost function DiskAfter(effects: seq<Option<RecordStep>>, i: nat, j: nat, was: Disk): Disk
    requires i <= j <= |effects|
  {
    Disk(was.snapshotGeneration + PublishCount(effects, i, j),
         LastSet(effects, i, j, SetsSnapshotUri, was.snapshotUri),
         LastSet(effects, i, j, SetsSnapshotChecksum, was.snapshotChecksum),
         LastSet(effects, i, j, SetsDirty, was.dirty),
         LastSet(effects, i, j, SetsHydrateRequired, was.hydrateRequired),
         LastSet(effects, i, j, SetsIntendedHost, was.intendedHostWorkerId),
         LastSet(effects, i, j, SetsWriter, was.liveWriterHostId))
  }

  lemma DiskIsItsHistory(tr: Trace, t: string, i: nat, j: nat)
    requires tr.Valid() && i <= j <= |tr.steps| && tr.Has(t, i)
    ensures tr.Has(t, j)
    ensures tr.Rec(t, j).disk == DiskAfter(tr.Effects(t), i, j, tr.Rec(t, i).disk)
  {
    forall c, e | Attempt(c, e).Some?
      ensures Attempt(c, e).value.disk == DiskNext(c.disk, e)
    {
      StepSetsDisk(c, e);
    }
    FieldIsLastSet(tr, t, i, j, (c: Computer) => c.disk.snapshotUri, SetsSnapshotUri);
    FieldIsLastSet(tr, t, i, j, (c: Computer) => c.disk.snapshotChecksum, SetsSnapshotChecksum);
    FieldIsLastSet(tr, t, i, j, (c: Computer) => c.disk.dirty, SetsDirty);
    FieldIsLastSet(tr, t, i, j, (c: Computer) => c.disk.hydrateRequired, SetsHydrateRequired);
    FieldIsLastSet(tr, t, i, j, (c: Computer) => c.disk.intendedHostWorkerId, SetsIntendedHost);
    FieldIsLastSet(tr, t, i, j, (c: Computer) => c.disk.liveWriterHostId, SetsWriter);
    PublishesAreCounted(tr, t, i, j);
  }

  /** The dispatch that a history leaves. */
  ghost function DispatchAfter(effects: seq<Option<RecordStep>>, i: nat, j: nat, was: DispatchFields): DispatchFields
    requires i <= j <= |effects|
  {
    DispatchFields(LastSet(effects, i, j, SetsDispatchId, was.id),
                   LastSet(effects, i, j, SetsTurnId, was.turnId),
                   LastSet(effects, i, j, SetsActionId, was.actionId),
                   LastSet(effects, i, j, SetsAttempt, was.attempt),
                   LastSet(effects, i, j, SetsDispatchLease, was.leaseExpiresAt),
                   LastSet(effects, i, j, SetsTurnRenewal, was.credentialsRenewedAt))
  }

  lemma DispatchIsItsHistory(tr: Trace, t: string, i: nat, j: nat)
    requires tr.Valid() && i <= j <= |tr.steps| && tr.Has(t, i)
    ensures tr.Has(t, j)
    ensures tr.Rec(t, j).owner.dispatch == DispatchAfter(tr.Effects(t), i, j, tr.Rec(t, i).owner.dispatch)
  {
    forall c, e | Attempt(c, e).Some?
      ensures Attempt(c, e).value.owner.dispatch == DispatchNext(c.owner.dispatch, e)
    {
      StepSetsDispatch(c, e);
    }
    FieldIsLastSet(tr, t, i, j, (c: Computer) => c.owner.dispatch.id, SetsDispatchId);
    FieldIsLastSet(tr, t, i, j, (c: Computer) => c.owner.dispatch.turnId, SetsTurnId);
    FieldIsLastSet(tr, t, i, j, (c: Computer) => c.owner.dispatch.actionId, SetsActionId);
    FieldIsLastSet(tr, t, i, j, (c: Computer) => c.owner.dispatch.attempt, SetsAttempt);
    FieldIsLastSet(tr, t, i, j, (c: Computer) => c.owner.dispatch.leaseExpiresAt, SetsDispatchLease);
    FieldIsLastSet(tr, t, i, j, (c: Computer) => c.owner.dispatch.credentialsRenewedAt, SetsTurnRenewal);
  }

  /** The owner fields that a history leaves. */
  ghost function OwnerAfter(effects: seq<Option<RecordStep>>, i: nat, j: nat, was: OwnerFields): OwnerFields
    requires i <= j <= |effects|
  {
    OwnerFields(LastSet(effects, i, j, SetsOwnerId, was.id),
                LastSet(effects, i, j, SetsProtocolVersion, was.protocolVersion),
                LastSet(effects, i, j, SetsStartedAt, was.startedAt),
                LastSet(effects, i, j, SetsExpiry, was.credentialsExpireAt),
                LastSet(effects, i, j, SetsRenewal, was.credentialsRenewedAt),
                LastSet(effects, i, j, SetsIdleSince, was.idleSinceAt),
                LastSet(effects, i, j, SetsStopApproval, was.stopApprovedAt),
                LastSet(effects, i, j, SetsWindow, was.interactiveUntilAt),
                LastSet(effects, i, j, SetsFileOperation, was.fileOperationId),
                DispatchAfter(effects, i, j, was.dispatch))
  }

  lemma OwnerIsItsHistory(tr: Trace, t: string, i: nat, j: nat)
    requires tr.Valid() && i <= j <= |tr.steps| && tr.Has(t, i)
    ensures tr.Has(t, j)
    ensures tr.Rec(t, j).owner == OwnerAfter(tr.Effects(t), i, j, tr.Rec(t, i).owner)
  {
    forall c, e | Attempt(c, e).Some?
      ensures Attempt(c, e).value.owner == OwnerNext(c.owner, e)
    {
      StepSetsOwner(c, e);
    }
    FieldIsLastSet(tr, t, i, j, (c: Computer) => c.owner.id, SetsOwnerId);
    FieldIsLastSet(tr, t, i, j, (c: Computer) => c.owner.protocolVersion, SetsProtocolVersion);
    FieldIsLastSet(tr, t, i, j, (c: Computer) => c.owner.startedAt, SetsStartedAt);
    FieldIsLastSet(tr, t, i, j, (c: Computer) => c.owner.credentialsExpireAt, SetsExpiry);
    FieldIsLastSet(tr, t, i, j, (c: Computer) => c.owner.credentialsRenewedAt, SetsRenewal);
    FieldIsLastSet(tr, t, i, j, (c: Computer) => c.owner.idleSinceAt, SetsIdleSince);
    FieldIsLastSet(tr, t, i, j, (c: Computer) => c.owner.stopApprovedAt, SetsStopApproval);
    FieldIsLastSet(tr, t, i, j, (c: Computer) => c.owner.interactiveUntilAt, SetsWindow);
    FieldIsLastSet(tr, t, i, j, (c: Computer) => c.owner.fileOperationId, SetsFileOperation);
    DispatchIsItsHistory(tr, t, i, j);
  }

  lemma {:induction false} IdentityStays(tr: Trace, t: string, i: nat, j: nat)
    requires tr.Valid() && i <= j <= |tr.steps| && tr.Has(t, i)
    ensures tr.Has(t, j)
    ensures var was := tr.Rec(t, i); var now := tr.Rec(t, j);
            now.computerId == was.computerId && now.tenantId == was.tenantId && now.policy == was.policy
    decreases j
  {
    if i == j {
    } else {
      IdentityStays(tr, t, i, j - 1);
      TraceStep(tr, t, j - 1);
      if tr.Eff(t, j - 1).Some? {
        StepSetsRest(tr.Rec(t, j - 1), tr.Eff(t, j - 1).value);
      }
    }
  }

  lemma OwnerGenerationIsItsHistory(tr: Trace, t: string, i: nat, j: nat)
    requires tr.Valid() && i <= j <= |tr.steps| && tr.Has(t, i)
    ensures tr.Has(t, j)
    ensures tr.Rec(t, j).ownerGeneration
            == LastSet(tr.Effects(t), i, j, SetsOwnerGeneration, tr.Rec(t, i).ownerGeneration)
  {
    forall c, e | Attempt(c, e).Some?
      ensures Attempt(c, e).value.ownerGeneration == Or(SetsOwnerGeneration(e), c.ownerGeneration)
    {
      StepSetsRest(c, e);
    }
    FieldIsLastSet(tr, t, i, j, (c: Computer) => c.ownerGeneration, SetsOwnerGeneration);
  }

  /**
    The record after any run, whole: every field is what the last step that set it said, the snapshot generation counts
    the publishes, and the identity never changes.
   */
  lemma RecordIsItsHistory(tr: Trace, t: string, i: nat, j: nat)
    requires tr.Valid() && i <= j <= |tr.steps| && tr.Has(t, i)
    ensures tr.Has(t, j)
    ensures var effects := tr.Effects(t); var was := tr.Rec(t, i);
            tr.Rec(t, j)
            == Computer(was.computerId, was.tenantId, was.policy, ReadinessAfter(effects, i, j, was.readiness),
                        HostAfter(effects, i, j, was.host), DiskAfter(effects, i, j, was.disk),
                        LastSet(effects, i, j, SetsOwnerGeneration, was.ownerGeneration),
                        OwnerAfter(effects, i, j, was.owner))
  {
    ReadinessIsItsHistory(tr, t, i, j);
    HostIsItsHistory(tr, t, i, j);
    DiskIsItsHistory(tr, t, i, j);
    OwnerIsItsHistory(tr, t, i, j);
    OwnerGenerationIsItsHistory(tr, t, i, j);
    IdentityStays(tr, t, i, j);
  }

  /** The same from the step that created the record, with what the control plane puts in a new record. */
  lemma CreatedRecordIsItsHistory(tr: Trace, t: string, id: string, k: nat, j: nat)
    requires tr.Valid() && k < j <= |tr.steps| && !tr.Has(t, k) && tr.steps[k] == CreateIfAbsent(NewComputer(t, id))
    ensures tr.Has(t, j)
    ensures var effects := tr.Effects(t);
            tr.Rec(t, j)
            == Computer(id, t, "prefer_local",
                        ReadinessAfter(effects, k + 1, j, Readiness(false, true, false, false, None)),
                        HostAfter(effects, k + 1, j, HostStart(0, 0, None, None, None)),
                        DiskAfter(effects, k + 1, j, Disk(0, None, None, false, false, None, None)),
                        LastSet(effects, k + 1, j, SetsOwnerGeneration, None),
                        OwnerAfter(effects, k + 1, j,
                                   OwnerFields(None, None, None, None, None, None, None, None, None,
                                               DispatchFields(None, None, None, None, None, None))))
  {
    assert tr.states[k + 1] == Next(tr.states[k], tr.steps[k]);
    RecordIsItsHistory(tr, t, k + 1, j);
  }

  // ----- Settling a lost host -----

  /**
    Exactly when a settle wins, since any earlier state: its generation is the one last claimed, and either the last
    step that spoke of the live disk left it dirty, or a writer claim stands that no claim or settle has cleared.
   */
  lemma SettleWinsIff(tr: Trace, t: string, i: nat, j: nat, generation: int, lostAt: Time, requireHydrate: bool)
    requires tr.Valid() && i <= j <= |tr.steps| && tr.Has(t, i)
    ensures tr.Has(t, j)
    ensures var effects := tr.Effects(t); var was := tr.Rec(t, i);
            Attempt(tr.Rec(t, j), SettleLost(generation, lostAt, requireHydrate)).Some? <==>
              && LastSet(effects, i, j, SetsGeneration, was.host.generation) == generation
              && (|| LastSet(effects, i, j, SetsDirty, was.disk.dirty)
                  || LastSet(effects, i, j, SetsWriter, was.disk.liveWriterHostId).Some?)
  {
    HostIsItsHistory(tr, t, i, j);
    DiskIsItsHistory(tr, t, i, j);
  }

  /** What a settled record holds: a stopped computer without owner and writer, clean, with the loss on record. */
  lemma SettledRecord(c: Computer, generation: int, lostAt: Time, requireHydrate: bool)
    requires Attempt(c, SettleLost(generation, lostAt, requireHydrate)).Some?
    ensures var next := Attempt(c, SettleLost(generation, lostAt, requireHydrate)).value;
            && next.readiness == Readiness(true, false, false, false, c.readiness.browserUnavailable)
            && next.disk.liveWriterHostId == None && !next.disk.dirty && next.disk.hydrateRequired == requireHydrate
            && next.host.lostAt == Some(lostAt) && next.host.lostGeneration == Some(generation)
            && next.host.generation == generation && next.owner.id == None && next.owner.dispatch.id == None
  {
  }
}
