/**
  Stopping an owner races with giving it work. The stop is approved with the dispatch id and the file operation id that
  were read when the stop was judged; offers and queued file requests move those ids. Over every interleaving of steps,
  an approval and a piece of work given in between cannot both win, and after an approval nothing new is given to the
  owner. What was queued for it before the approval can still be delivered to it.
 */
module StopAgainstWork {
  import opened Options
  import opened Computers
  import opened StoreRuns
  import opened FileFates

  /** Steps that end or replace the owner of a record. */
  predicate ReplacesOwner(e: RecordStep) {
    e.MarkStopped? || e.ClaimGeneration? || e.SettleLost? || e.ConsumeBootstrap?
  }

  /** Steps that give an owner work. */
  predicate GivesWork(e: RecordStep) {
    e.OfferDispatch? || e.QueueRequest?
  }

  /** The owner that a work, renewal or window step names. */
  function ServedOwner(e: RecordStep): Option<string> {
    if e.UpdatePresence? || e.ApproveStop? then None else NamedOwner(e)
  }

  /** The ids a stop approval compares are exactly those read from `c`. */
  predicate SameWork(c: Computer, now: Computer, ownerId: string) {
    now.owner.id == Some(ownerId) && now.owner.dispatch.id == c.owner.dispatch.id
    && now.owner.fileOperationId == c.owner.fileOperationId
  }

  /** A step that neither replaces the owner nor gives it work. */
  predicate Quiet(effect: Option<RecordStep>) {
    effect.None? || (!ReplacesOwner(effect.value) && !GivesWork(effect.value))
  }

  /** Ids are fresh: the step does not bring back `ownerId`, nor the dispatch or file operation that `c` names. */
  predicate Fresh(effect: Option<RecordStep>, c: Computer, ownerId: string) {
    effect.Some? ==>
      && (effect.value.ConsumeBootstrap? ==> effect.value.bootOwner != ownerId)
      && (effect.value.OfferDispatch? ==> c.owner.dispatch.id != Some(effect.value.dispatch.dispatchId))
      && (effect.value.QueueRequest? ==> c.owner.fileOperationId != Some(effect.value.operationId))
  }

  /** One step: quiet steps keep the compared ids, every other step moves one of them away for good. */
  lemma SameWorkStep(c: Computer, now: Computer, e: RecordStep, ownerId: string)
    requires Attempt(now, e).Some? && Fresh(Some(e), c, ownerId)
    ensures SameWork(c, Attempt(now, e).value, ownerId) <==> SameWork(c, now, ownerId) && Quiet(Some(e))
  {
  }

  ghost predicate QuietBetween(tr: Trace, t: string, r: nat, a: nat)
    requires tr.Valid() && a <= |tr.steps|
  {
    forall k | r <= k < a :: Quiet(tr.Eff(t, k))
  }

  ghost predicate FreshBetween(tr: Trace, t: string, r: nat, a: nat, c: Computer, ownerId: string)
    requires tr.Valid() && a <= |tr.steps|
  {
    forall k | r <= k < a :: Fresh(tr.Eff(t, k), c, ownerId)
  }

  lemma {:induction false} SameWorkIffQuiet(tr: Trace, t: string, r: nat, a: nat, ownerId: string)
    requires tr.Valid() && r <= a <= |tr.steps| && tr.Has(t, r) && tr.Rec(t, r).owner.id == Some(ownerId)
    requires FreshBetween(tr, t, r, a, tr.Rec(t, r), ownerId)
    ensures tr.Has(t, a)
    ensures SameWork(tr.Rec(t, r), tr.Rec(t, a), ownerId) <==> QuietBetween(tr, t, r, a)
    decreases a - r
  {
    if r == a {
    } else {
      SameWorkIffQuiet(tr, t, r, a - 1, ownerId);
      TraceStep(tr, t, a - 1);
      assert Fresh(tr.Eff(t, a - 1), tr.Rec(t, r), ownerId);
      if tr.Eff(t, a - 1).Some? {
        SameWorkStep(tr.Rec(t, r), tr.Rec(t, a - 1), tr.Eff(t, a - 1).value, ownerId);
      }
      assert QuietBetween(tr, t, r, a) <==> QuietBetween(tr, t, r, a - 1) && Quiet(tr.Eff(t, a - 1));
    }
  }

  // ----- Without assuming fresh ids -----

  /** The dispatch id of the last offer that took effect in steps `i` up to, not including, `j`. */
  function LastOffered(effects: seq<Option<RecordStep>>, i: nat, j: nat): Option<string>
    requires i <= j <= |effects|
    decreases j
  {
    if i == j then None
    else if effects[j - 1].Some? && effects[j - 1].value.OfferDispatch?
    then Some(effects[j - 1].value.dispatch.dispatchId)
    else LastOffered(effects, i, j - 1)
  }

  /** The operation id of the last file request that was queued in steps `i` up to, not including, `j`. */
  function LastQueued(effects: seq<Option<RecordStep>>, i: nat, j: nat): Option<string>
    requires i <= j <= |effects|
    decreases j
  {
    if i == j then None
    else if effects[j - 1].Some? && effects[j - 1].value.QueueRequest? then Some(effects[j - 1].value.operationId)
    else LastQueued(effects, i, j - 1)
  }

  /** The last step from `i` up to, not including, `j` that replaced the owner. */
  function LastReplacement(effects: seq<Option<RecordStep>>, i: nat, j: nat): (r: Option<nat>)
    requires i <= j <= |effects|
    ensures r.Some? ==> i <= r.value < j && effects[r.value].Some? && ReplacesOwner(effects[r.value].value)
    ensures OwnerKept(effects, if r.Some? then r.value + 1 else i, j)
    decreases j
  {
    if i == j then None
    else if effects[j - 1].Some? && ReplacesOwner(effects[j - 1].value) then Some(j - 1)
    else LastReplacement(effects, i, j - 1)
  }

  predicate OwnerKept(effects: seq<Option<RecordStep>>, i: nat, j: nat)
    requires j <= |effects|
  {
    forall k | i <= k < j :: effects[k].None? || !ReplacesOwner(effects[k].value)
  }

  function OrElse(a: Option<string>, b: Option<string>): Option<string> {
    if a.Some? then a else b
  }

  /** How the ids of the owner move with a step. */
  predicate WorkMoves(was: OwnerFields, now: OwnerFields, effect: Option<RecordStep>) {
    match effect
    case None => now.id == was.id && now.dispatch.id == was.dispatch.id && now.fileOperationId == was.fileOperationId
    case Some(e) =>
      if ReplacesOwner(e) then
        && now.id == (if e.ConsumeBootstrap? then Some(e.bootOwner) else None)
        && now.dispatch.id == None && now.fileOperationId == None
      else
        && now.id == was.id
        && now.dispatch.id == (if e.OfferDispatch? then Some(e.dispatch.dispatchId) else was.dispatch.id)
        && now.fileOperationId == (if e.QueueRequest? then Some(e.operationId) else was.fileOperationId)
  }

  lemma AttemptMovesWork(c: Computer, e: RecordStep)
    requires Attempt(c, e).Some?
    ensures WorkMoves(c.owner, Attempt(c, e).value.owner, Some(e))
  {
  }

  lemma StepMovesWork(tr: Trace, t: string, k: nat)
    requires tr.Valid() && k < |tr.steps| && tr.Has(t, k)
    ensures tr.Has(t, k + 1) && WorkMoves(tr.Rec(t, k).owner, tr.Rec(t, k + 1).owner, tr.Eff(t, k))
  {
    TraceStep(tr, t, k);
    if tr.Eff(t, k).Some? {
      AttemptMovesWork(tr.Rec(t, k), tr.Eff(t, k).value);
    }
  }

  /** The owner of `t` in every state; none where `t` has no record. */
  ghost function Owners(tr: Trace, t: string): seq<OwnerFields> {
    seq(|tr.states|, k requires 0 <= k < |tr.states| => if tr.Has(t, k) then tr.Rec(t, k).owner else NO_OWNER)
  }

  /** The owners move with the steps from `i` up to, not including, `j`. */
  ghost predicate WorkHistory(owners: seq<OwnerFields>, effects: seq<Option<RecordStep>>, i: nat, j: nat) {
    && |owners| == |effects| + 1 && i <= j <= |effects|
    && forall k | i <= k < j :: WorkMoves(owners[k], owners[k + 1], effects[k])
  }

  /** While the owner is kept, its ids are those last given to it. */
  lemma {:induction false} WorkSince(owners: seq<OwnerFields>, effects: seq<Option<RecordStep>>, i: nat, j: nat)
    requires WorkHistory(owners, effects, i, j) && OwnerKept(effects, i, j)
    ensures var was := owners[i]; var now := owners[j];
            && now.id == was.id
            && now.dispatch.id == OrElse(LastOffered(effects, i, j), was.dispatch.id)
            && now.fileOperationId == OrElse(LastQueued(effects, i, j), was.fileOperationId)
    decreases j
  {
    if i == j {
    } else {
      WorkSince(owners, effects, i, j - 1);
      assert WorkMoves(owners[j - 1], owners[j - 1 + 1], effects[j - 1]);
    }
  }

  /**
    The steps between the read and the approval leave the ids that were read: the owner was kept, and the last offer and
    the last queued request, if any, carry those very ids; or the last replacement brought the same owner id back, and
    since then exactly those ids were given to it.
   */
  predicate LeavesIds(effects: seq<Option<RecordStep>>, r: nat, a: nat, read: OwnerFields, ownerId: string)
    requires r <= a <= |effects|
  {
    match LastReplacement(effects, r, a)
    case None =>
      && LastOffered(effects, r, a) in {None, read.dispatch.id}
      && LastQueued(effects, r, a) in {None, read.fileOperationId}
    case Some(b) =>
      var e := effects[b].value;
      && e.ConsumeBootstrap? && e.bootOwner == ownerId
      && LastOffered(effects, b + 1, a) == read.dispatch.id
      && LastQueued(effects, b + 1, a) == read.fileOperationId
  }

  ghost predicate IdsAsRead(tr: Trace, t: string, r: nat, a: nat, ownerId: string)
    requires tr.Valid() && r <= a <= |tr.steps| && tr.Has(t, r)
  {
    LeavesIds(tr.Effects(t), r, a, tr.Rec(t, r).owner, ownerId)
  }

  lemma SameIdsIffLeft(owners: seq<OwnerFields>, effects: seq<Option<RecordStep>>, r: nat, a: nat, ownerId: string)
    requires WorkHistory(owners, effects, r, a) && owners[r].id == Some(ownerId)
    ensures LeavesIds(effects, r, a, owners[r], ownerId) <==>
              && owners[a].id == Some(ownerId) && owners[a].dispatch.id == owners[r].dispatch.id
              && owners[a].fileOperationId == owners[r].fileOperationId
  {
    match LastReplacement(effects, r, a)
    case None => WorkSince(owners, effects, r, a);
    case Some(b) =>
      assert WorkMoves(owners[b], owners[b + 1], effects[b]);
      WorkSince(owners, effects, b + 1, a);
  }

  lemma SameWorkIffIdsAsRead(tr: Trace, t: string, r: nat, a: nat, ownerId: string)
    requires tr.Valid() && r <= a <= |tr.steps| && tr.Has(t, r) && tr.Rec(t, r).owner.id == Some(ownerId)
    ensures tr.Has(t, a)
    ensures SameWork(tr.Rec(t, r), tr.Rec(t, a), ownerId) <==> IdsAsRead(tr, t, r, a, ownerId)
  {
    var owners, effects := Owners(tr, t), tr.Effects(t);
    forall k | r <= k < a
      ensures WorkMoves(owners[k], owners[k + 1], effects[k])
    {
      RecordStays(tr, t, r, k);
      StepMovesWork(tr, t, k);
    }
    RecordStays(tr, t, r, a);
    SameIdsIffLeft(owners, effects, r, a, ownerId);
  }

  /**
    Whatever processes did between reading the record (state `r`) and approving the stop (state `a`), the approval is
    granted if and only if the steps in between left the ids that were read; and when ids are fresh, if and only if in
    between nobody replaced the owner, no dispatch was offered and no file request was queued.
   */
  lemma StopApprovedIffNoWorkSinceRead(tr: Trace, t: string, r: nat, a: nat, ownerId: string, approvedAt: Time)
    requires tr.Valid() && r <= a <= |tr.steps| && tr.Has(t, r) && tr.Rec(t, r).owner.id == Some(ownerId)
    ensures tr.Has(t, a)
    ensures var read := tr.Rec(t, r).owner;
            var approval := Attempt(tr.Rec(t, a), ApproveStop(ownerId, read.dispatch.id, read.fileOperationId,
                                                              approvedAt));
            && (approval.Some? <==> IdsAsRead(tr, t, r, a, ownerId))
            && (FreshBetween(tr, t, r, a, tr.Rec(t, r), ownerId) ==> (approval.Some? <==> QuietBetween(tr, t, r, a)))
  {
    SameWorkIffIdsAsRead(tr, t, r, a, ownerId);
    if FreshBetween(tr, t, r, a, tr.Rec(t, r), ownerId) {
      SameWorkIffQuiet(tr, t, r, a, ownerId);
    }
  }

  /**
    Fresh ids are needed for the second half: an owner that is offered another dispatch and then one with the old id
    again looks as it did when it was read, and its stop is approved although it was given work.
   */
  lemma ReusedIdHidesWork(c: Computer, ownerId: string, again: Dispatch, other: Dispatch, approvedAt: Time)
    requires c.owner.id == Some(ownerId) && c.owner.stopApprovedAt.None?
             && c.owner.dispatch.id == Some(again.dispatchId)
    ensures var first := Attempt(c, OfferDispatch(ownerId, c.owner.dispatch.id, other));
            && first.Some?
            && var second := Attempt(first.value, OfferDispatch(ownerId, Some(other.dispatchId), again));
               && second.Some?
               && Attempt(second.value, ApproveStop(ownerId, c.owner.dispatch.id, c.owner.fileOperationId,
                                                    approvedAt)).Some?
  {
  }

  /**
    The same for file requests: the store refuses a second request under an id only while the first is stored, so a
    request that is deleted and queued again hides itself.
   */
  lemma RequeuedIdHidesWork(s: Store, again: LiveFileOperation, until: Time, approvedAt: Time)
    requires var t := again.tenantId;
             && t in s.computers && LiveOwner(s.computers[t], again.ownerId, again.generation)
             && s.computers[t].owner.fileOperationId == Some(again.operationId)
    ensures var t := again.tenantId; var read := s.computers[t].owner;
            var deleted := Next(s, DeleteOperation(KeyOf(again)));
            var step := QueueOperation(again, until);
            && Effect(deleted, step, t).Some?
            && t in Next(deleted, step).computers
            && Attempt(Next(deleted, step).computers[t],
                       ApproveStop(again.ownerId, read.dispatch.id, read.fileOperationId, approvedAt)).Some?
  {
    RecordAfter(Next(s, DeleteOperation(KeyOf(again))), QueueOperation(again, until), again.tenantId);
  }

  /** One step of the time after an approval. */
  lemma ApprovedStep(now: Computer, e: RecordStep, ownerId: string)
    requires Attempt(now, e).Some?
    requires now.owner.id == Some(ownerId) ==> now.owner.stopApprovedAt.Some?
    requires e.ConsumeBootstrap? ==> e.bootOwner != ownerId
    ensures var next := Attempt(now, e).value;
            && (next.owner.id == Some(ownerId) ==> next.owner.stopApprovedAt.Some?)
            && (now.owner.id == Some(ownerId) && !ReplacesOwner(e) ==> next.owner.id == Some(ownerId))
  {
  }

  lemma {:induction false} StopStaysApproved(tr: Trace, t: string, a: nat, j: nat, ownerId: string)
    requires tr.Valid() && a < j <= |tr.steps| && tr.Has(t, a)
    requires tr.Eff(t, a).Some? && tr.Eff(t, a).value.ApproveStop? && tr.Eff(t, a).value.stoppedOwner == ownerId
    requires forall k | a < k < j :: tr.Eff(t, k).Some? && tr.Eff(t, k).value.ConsumeBootstrap?
                                     ==> tr.Eff(t, k).value.bootOwner != ownerId
    ensures tr.Has(t, j)
    ensures tr.Rec(t, j).owner.id == Some(ownerId) ==> tr.Rec(t, j).owner.stopApprovedAt.Some?
    ensures (forall k | a < k < j :: tr.Eff(t, k).None? || !ReplacesOwner(tr.Eff(t, k).value))
            ==> tr.Rec(t, j).owner.id == Some(ownerId)
    decreases j - a
  {
    if a + 1 == j {
      TraceStep(tr, t, a);
    } else {
      StopStaysApproved(tr, t, a, j - 1, ownerId);
      TraceStep(tr, t, j - 1);
      if tr.Eff(t, j - 1).Some? {
        ApprovedStep(tr.Rec(t, j - 1), tr.Eff(t, j - 1).value, ownerId);
      }
    }
  }

  /**
    Once a stop of an owner is approved, every later offer, file request, credential renewal and window touch that names
    this owner is refused, in every later state of the run (owner ids are not used twice). While nobody replaces the
    owner it also stays the recorded owner, so it cannot slip back to a state without the approval.
   */
  lemma ApprovedOwnerGetsNothingNew(tr: Trace, t: string, a: nat, j: nat, ownerId: string, e: RecordStep)
    requires tr.Valid() && a < j <= |tr.steps| && tr.Has(t, a)
    requires tr.Eff(t, a).Some? && tr.Eff(t, a).value.ApproveStop? && tr.Eff(t, a).value.stoppedOwner == ownerId
    requires forall k | a < k < j :: tr.Eff(t, k).Some? && tr.Eff(t, k).value.ConsumeBootstrap?
                                     ==> tr.Eff(t, k).value.bootOwner != ownerId
    requires ServedOwner(e) == Some(ownerId)
    ensures tr.Has(t, j) && Attempt(tr.Rec(t, j), e).None?
  {
    StopStaysApproved(tr, t, a, j, ownerId);
  }

  /** No request is queued for an approved owner. */
  lemma NothingQueuedForApprovedOwner(tr: Trace, t: string, a: nat, k: nat, ownerId: string, key: Key, generation: int)
    requires tr.Valid() && a < k < |tr.steps| && tr.Has(t, a) && key.0 == t
    requires tr.Eff(t, a).Some? && tr.Eff(t, a).value.ApproveStop? && tr.Eff(t, a).value.stoppedOwner == ownerId
    requires forall m | a < m < k :: tr.Eff(t, m).Some? && tr.Eff(t, m).value.ConsumeBootstrap?
                                     ==> tr.Eff(t, m).value.bootOwner != ownerId
    ensures !QueuesFor(tr.states[k], tr.steps[k], key, ownerId, generation)
  {
    StopStaysApproved(tr, t, a, k, ownerId);
    if QueuesFor(tr.states[k], tr.steps[k], key, ownerId, generation) {
      QueueNext(tr.states[k], tr.steps[k].operation, tr.steps[k].interactiveUntil);
    }
  }

  /**
    An approval does not withdraw what was queued. Exactly when a request is still handed to an owner whose stop was
    approved by step `a`: the request waited for it when the approval was granted, no step since then moved or deleted
    it, and it has not expired.
   */
  lemma ApprovedOwnerIsHandedWhatWaited(tr: Trace, a: nat, j: nat, ownerId: string, key: Key, generation: int,
                                        sequence: int, at: Time)
    requires tr.Valid() && a < j <= |tr.steps| && tr.Has(key.0, a)
    requires var e := tr.Eff(key.0, a); e.Some? && e.value.ApproveStop? && e.value.stoppedOwner == ownerId
    requires forall k | a < k < j :: tr.Eff(key.0, k).Some? && tr.Eff(key.0, k).value.ConsumeBootstrap?
                                     ==> tr.Eff(key.0, k).value.bootOwner != ownerId
    ensures FileEffect(tr.states[j], OnOperation(key, Deliver(ownerId, generation, sequence, at)), key).Some? <==>
              && Waits(tr.states[a + 1], key, ownerId, generation)
              && !IsExpired(tr.states[a + 1].operations[key], at)
              && SparedBetween(tr, key, a + 1, j)
  {
    forall k | a + 1 <= k < j
      ensures !QueuesFor(tr.states[k], tr.steps[k], key, ownerId, generation)
    {
      NothingQueuedForApprovedOwner(tr, key.0, a, k, ownerId, key, generation);
    }
    DeliveryWinsIff(tr, key, a + 1, j, ownerId, generation, sequence, at);
  }

  /**
    That happens: a request is queued, the stop is approved with the ids read after that, and the request is delivered.
   */
  lemma ApprovedOwnerStillHandedRequest(s: Store, operation: LiveFileOperation, until: Time, approvedAt: Time,
                                        sequence: int, at: Time)
    requires var t := operation.tenantId;
             t in s.computers && LiveOwner(s.computers[t], operation.ownerId, operation.generation)
    requires KeyOf(operation) !in s.operations && operation.status == Pending && at < WholeSecond(operation.expiresAt)
    ensures var t := operation.tenantId; var key := KeyOf(operation);
            var queued := Next(s, QueueOperation(operation, until));
            && t in queued.computers
            && var read := queued.computers[t].owner;
               var approval := ApproveStop(operation.ownerId, read.dispatch.id, read.fileOperationId, approvedAt);
               var approved := Next(queued, OnRecord(t, approval));
               var delivery := Deliver(operation.ownerId, operation.generation, sequence, at);
               && Effect(queued, OnRecord(t, approval), t).Some?
               && FileEffect(approved, OnOperation(key, delivery), key).Some?
  {
    QueueNext(s, operation, until);
  }

  /**
    Until the owner is replaced, no step at all gives work, renews credentials or moves the window on the record: the
    steps that name another owner fail on the owner, the steps that name this one fail on the approval.
   */
  lemma NoWorkUntilOwnerReplaced(tr: Trace, t: string, a: nat, j: nat, ownerId: string, e: RecordStep)
    requires tr.Valid() && a < j <= |tr.steps| && tr.Has(t, a)
    requires tr.Eff(t, a).Some? && tr.Eff(t, a).value.ApproveStop? && tr.Eff(t, a).value.stoppedOwner == ownerId
    requires forall k | a < k < j :: tr.Eff(t, k).None? || !ReplacesOwner(tr.Eff(t, k).value)
    requires ServedOwner(e).Some?
    ensures tr.Has(t, j) && Attempt(tr.Rec(t, j), e).None?
  {
    StopStaysApproved(tr, t, a, j, ownerId);
  }
}
