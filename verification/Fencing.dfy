/**
  Fencing by the host start generation. Once the generation of a record has passed `g`, the steps that carry a
  generation up to `g`, and the steps that name an owner of such a generation, change nothing but two leftovers: a
  dispatch mark below the current generation, and the file requests that were queued before the pass. Steps that carry
  neither a generation nor an owner are not fenced: a former host can still claim the disk writer and publish a
  snapshot.
 */
module Fencing {
  import opened Options
  import opened Computers
  import opened StoreRuns
  import opened FileFates

  /** The generation a step on the record carries and is judged by. */
  function CarriedGeneration(e: RecordStep): Option<int> {
    match e
    case MarkStopped(_, expected) => expected
    case ClaimGeneration(expected, _) => Some(expected)
    case ReleaseLease(generation) => Some(generation)
    case SettleLost(generation, _, _) => Some(generation)
    case MarkDispatched(generation) => Some(generation)
    case ReleaseDispatch(generation) => Some(generation)
    case ConsumeBootstrap(_, generation, _, _, _) => Some(generation)
    case RenewSupervisor(_, generation, _, _, _) => Some(generation)
    case RenewTurn(_, generation, _, _, _) => Some(generation)
    case TouchWindow(_, generation, _) => Some(generation)
    case QueueRequest(_, generation, _, _) => Some(generation)
    case _ => None
  }

  predicate StaleStep(e: RecordStep, g: int) {
    CarriedGeneration(e).Some? && CarriedGeneration(e).value <= g
  }

  /** Every stale step on the record but the release of a dispatch mark is refused. */
  lemma StaleStepRefused(c: Computer, e: RecordStep, g: int)
    requires Consistent(c) && g < c.host.generation && StaleStep(e, g) && !e.ReleaseDispatch?
    ensures Attempt(c, e).None?
  {
  }

  function WithMark(c: Computer, mark: int): Computer {
    c.(host := c.host.(dispatched := mark))
  }

  /** Records that agree on everything but a dispatch mark below the current generation. */
  predicate Alike(c: Computer, d: Computer) {
    && d == WithMark(c, d.host.dispatched)
    && (c.host.dispatched == d.host.dispatched
        || (c.host.dispatched < c.host.generation && d.host.dispatched < c.host.generation))
  }

  /** A stale release moves only the stale part of the dispatch mark. */
  lemma StaleReleaseAlike(c: Computer, g: int, generation: int)
    requires Consistent(c) && generation <= g < c.host.generation
    ensures var after := Attempt(c, ReleaseDispatch(generation));
            after.Some? ==> Alike(after.value, c) && Consistent(after.value) && g < after.value.host.generation
  {
  }

  /** The start generation of a record never falls. */
  lemma GenerationStep(c: Computer, e: RecordStep)
    requires Attempt(c, e).Some?
    ensures c.host.generation <= Attempt(c, e).value.host.generation
  {
  }

  lemma {:induction false} GenerationNeverFalls(tr: Trace, t: string, i: nat, j: nat)
    requires tr.Valid() && i <= j <= |tr.steps| && tr.Has(t, i)
    ensures tr.Has(t, j) && tr.Rec(t, i).host.generation <= tr.Rec(t, j).host.generation
    decreases j - i
  {
    if i == j {
    } else {
      GenerationNeverFalls(tr, t, i, j - 1);
      TraceStep(tr, t, j - 1);
      if tr.Eff(t, j - 1).Some? {
        GenerationStep(tr.Rec(t, j - 1), tr.Eff(t, j - 1).value);
      }
    }
  }

  lemma {:induction false} StaysConsistent(tr: Trace, t: string, i: nat, j: nat)
    requires tr.Valid() && i <= j <= |tr.steps| && tr.Has(t, i) && Consistent(tr.Rec(t, i))
    ensures tr.Has(t, j) && Consistent(tr.Rec(t, j))
    decreases j - i
  {
    if i == j {
    } else {
      StaysConsistent(tr, t, i, j - 1);
      TraceStep(tr, t, j - 1);
      if tr.Eff(t, j - 1).Some? {
        AttemptKeepsConsistent(tr.Rec(t, j - 1), tr.Eff(t, j - 1).value);
      }
    }
  }

  /** Records are created as the control plane creates them. */
  ghost predicate CreatesNewRecords(tr: Trace) {
    forall k | 0 <= k < |tr.steps| :: tr.steps[k].CreateIfAbsent? ==>
      exists id :: tr.steps[k].computer == NewComputer(tr.steps[k].computer.tenantId, id)
  }

  /**
    In every run from an empty store, with records created as the control plane creates them, every record is
    consistent.
   */
  lemma {:induction false} EveryReachableRecordIsConsistent(tr: Trace, t: string, j: nat)
    requires tr.Valid() && j <= |tr.steps| && tr.Has(t, j)
    requires tr.states[0] == Store(map[], map[]) && CreatesNewRecords(tr)
    ensures Consistent(tr.Rec(t, j))
  {
    if t in tr.states[j - 1].computers {
      EveryReachableRecordIsConsistent(tr, t, j - 1);
      StaysConsistent(tr, t, j - 1, j);
    } else {
      assert tr.states[j] == Next(tr.states[j - 1], tr.steps[j - 1]);
    }
  }

  /**
    Once the generation has passed `g`, in every later state of every run each step on the record that carries a
    generation up to `g` is refused and changes nothing, save a release of a stale dispatch mark, which keeps the record
    alike. Deliveries of file requests carry a generation too, but are not judged by the record: see
    `StaleDeliveryWinsIff`.
   */
  lemma PassedGenerationIsFenced(tr: Trace, t: string, i: nat, j: nat, g: int, e: RecordStep)
    requires tr.Valid() && i <= j <= |tr.steps| && tr.Has(t, i) && Consistent(tr.Rec(t, i))
    requires g < tr.Rec(t, i).host.generation && StaleStep(e, g)
    ensures tr.Has(t, j)
    ensures !e.ReleaseDispatch? ==> Attempt(tr.Rec(t, j), e).None?
    ensures e.ReleaseDispatch? && Attempt(tr.Rec(t, j), e).Some? ==> Alike(Attempt(tr.Rec(t, j), e).value, tr.Rec(t, j))
  {
    GenerationNeverFalls(tr, t, i, j);
    StaysConsistent(tr, t, i, j);
    if e.ReleaseDispatch? {
      StaleReleaseAlike(tr.Rec(t, j), g, e.released);
    } else {
      StaleStepRefused(tr.Rec(t, j), e, g);
    }
  }

  // -------------------------------------------------------------------------------------------------------------------
  // Deliveries of file requests
  // -------------------------------------------------------------------------------------------------------------------

  predicate Past(s: Store, t: string, g: int) {
    t in s.computers && Consistent(s.computers[t]) && g < s.computers[t].host.generation
  }

  lemma PastStep(s: Store, step: Step, t: string, g: int)
    requires Past(s, t, g)
    ensures Past(Next(s, step), t, g)
  {
    RecordAfter(s, step, t);
    var effect := Effect(s, step, t);
    if effect.Some? {
      AttemptKeepsConsistent(s.computers[t], effect.value);
      GenerationStep(s.computers[t], effect.value);
    }
  }

  lemma {:induction false} PastStays(tr: Trace, t: string, g: int, i: nat, j: nat)
    requires tr.Valid() && i <= j <= |tr.steps| && Past(tr.states[i], t, g)
    ensures Past(tr.states[j], t, g)
    decreases j - i
  {
    if i == j {
    } else {
      PastStays(tr, t, g, i, j - 1);
      PastStep(tr.states[j - 1], tr.steps[j - 1], t, g);
    }
  }

  /**
    A delivery is not fenced by the record: the old owner of a passed generation is still handed a request that waits
    for it.
   */
  lemma StaleDeliveryStillWins(s: Store, key: Key, g: int, sequence: int, at: Time)
    requires Past(s, key.0, g) && key in s.operations && s.operations[key].generation <= g
    requires s.operations[key].status == Pending && !IsExpired(s.operations[key], at)
    ensures var o := s.operations[key];
            var next := Next(s, OnOperation(key, Deliver(o.ownerId, o.generation, sequence, at)));
            next.operations[key].status == Delivered && next.computers == s.computers
  {
  }

  /**
    Such requests arise: whatever request an owner has waiting when the next generation is claimed can still be
    delivered.
   */
  lemma ClaimLeavesRequests(s: Store, operation: LiveFileOperation, until: Time, leaseExpiresAt: Time, sequence: int,
                            at: Time)
    requires var t := operation.tenantId;
             t in s.computers && Consistent(s.computers[t])
               && LiveOwner(s.computers[t], operation.ownerId, operation.generation)
    requires KeyOf(operation) !in s.operations && operation.status == Pending && at < WholeSecond(operation.expiresAt)
    ensures var queued := Next(s, QueueOperation(operation, until));
            var claimed := Next(queued, OnRecord(operation.tenantId, ClaimGeneration(operation.generation,
                                                                                     leaseExpiresAt)));
            var delivery := Deliver(operation.ownerId, operation.generation, sequence, at);
            && Past(claimed, operation.tenantId, operation.generation)
            && FileEffect(claimed, OnOperation(KeyOf(operation), delivery), KeyOf(operation)) == Some(delivery)
  {
    var queued := Next(s, QueueOperation(operation, until));
    assert queued.computers[operation.tenantId].host == s.computers[operation.tenantId].host;
  }

  /** A request that is queued after the pass is of a later generation. */
  lemma QueuedAfterPass(s: Store, step: Step, t: string, g: int)
    requires Past(s, t, g) && step.QueueOperation? && step.operation.tenantId == t && Effect(s, step, t).Some?
    ensures g < step.operation.generation
  {
  }

  /**
    Exactly when a delivery of a passed generation wins: the request already waited for that owner and generation when
    the generation was passed, no step since then moved or deleted it, and it has not expired.
   */
  lemma StaleDeliveryWinsIff(tr: Trace, key: Key, i: nat, j: nat, ownerId: string, generation: int, sequence: int,
                             at: Time)
    requires tr.Valid() && i <= j <= |tr.steps| && Past(tr.states[i], key.0, generation)
    ensures FileEffect(tr.states[j], OnOperation(key, Deliver(ownerId, generation, sequence, at)), key).Some? <==>
              && Waits(tr.states[i], key, ownerId, generation)
              && !IsExpired(tr.states[i].operations[key], at)
              && SparedBetween(tr, key, i, j)
  {
    forall k | i <= k < j
      ensures !QueuesFor(tr.states[k], tr.steps[k], key, ownerId, generation)
    {
      PastStays(tr, key.0, generation, i, k);
      if QueuesFor(tr.states[k], tr.steps[k], key, ownerId, generation) {
        QueuedAfterPass(tr.states[k], tr.steps[k], key.0, generation);
      }
    }
    DeliveryWinsIff(tr, key, i, j, ownerId, generation, sequence, at);
  }

  /** After the pass no request of a passed generation is queued. */
  lemma NothingQueuedForPassedGeneration(tr: Trace, key: Key, g: int, i: nat, k: nat)
    requires tr.Valid() && i <= k < |tr.steps| && Past(tr.states[i], key.0, g) && Queues(tr, key, k)
    ensures g < tr.steps[k].operation.generation
  {
    PastStays(tr, key.0, g, i, k);
    QueuedAfterPass(tr.states[k], tr.steps[k], key.0, g);
  }

  // -------------------------------------------------------------------------------------------------------------------
  // Former owners and former hosts
  // -------------------------------------------------------------------------------------------------------------------

  /** While an owner id is recorded and not brought back, the generation stands still. */
  lemma OwnerHoldsGeneration(c: Computer, e: RecordStep, ownerId: string)
    requires Attempt(c, e).Some? && Attempt(c, e).value.owner.id == Some(ownerId)
    requires e.ConsumeBootstrap? ==> e.bootOwner != ownerId
    ensures c.owner.id == Some(ownerId) && Attempt(c, e).value.host.generation == c.host.generation
  {
  }

  lemma {:induction false} FormerOwner(tr: Trace, t: string, i: nat, j: nat, ownerId: string)
    requires tr.Valid() && i <= j <= |tr.steps| && tr.Has(t, i)
    requires forall k | i <= k < j :: tr.Eff(t, k).Some? && tr.Eff(t, k).value.ConsumeBootstrap?
                                      ==> tr.Eff(t, k).value.bootOwner != ownerId
    ensures tr.Has(t, j)
    ensures tr.Rec(t, j).owner.id == Some(ownerId) ==> tr.Rec(t, j).host.generation == tr.Rec(t, i).host.generation
    decreases j - i
  {
    if i == j {
    } else {
      FormerOwner(tr, t, i, j - 1, ownerId);
      TraceStep(tr, t, j - 1);
      if tr.Eff(t, j - 1).Some? && tr.Rec(t, j).owner.id == Some(ownerId) {
        OwnerHoldsGeneration(tr.Rec(t, j - 1), tr.Eff(t, j - 1).value, ownerId);
      }
    }
  }

  /**
    An owner of a passed generation: every step that names it, also the offers, presence updates and stop approvals that
    carry no generation, is refused in every later state, while its id is not brought back.
   */
  lemma FormerOwnerIsRefused(tr: Trace, t: string, i: nat, j: nat, ownerId: string, e: RecordStep)
    requires tr.Valid() && i <= j <= |tr.steps| && tr.Has(t, i) && tr.Has(t, j)
    requires tr.Rec(t, i).host.generation < tr.Rec(t, j).host.generation && NamedOwner(e) == Some(ownerId)
    requires forall k | i <= k < j :: tr.Eff(t, k).Some? && tr.Eff(t, k).value.ConsumeBootstrap?
                                      ==> tr.Eff(t, k).value.bootOwner != ownerId
    ensures Attempt(tr.Rec(t, j), e).None?
  {
    FormerOwner(tr, t, i, j, ownerId);
  }

  /**
    A host is not fenced: right after a new generation is claimed, any host, also one of a former generation, can claim
    the disk writer, and then the claims of every other host are refused.
   */
  lemma FormerHostTakesWriter(s: Store, t: string, g: int, leaseExpiresAt: Time, former: string, current: string)
    requires t in s.computers && Consistent(s.computers[t]) && s.computers[t].host.generation == g && former != current
    ensures var claimed := Next(s, OnRecord(t, ClaimGeneration(g, leaseExpiresAt)));
            var taken := Next(claimed, OnRecord(t, ClaimWriter(former)));
            && Past(claimed, t, g)
            && Effect(claimed, OnRecord(t, ClaimWriter(former)), t).Some?
            && Effect(taken, OnRecord(t, ClaimWriter(current)), t).None?
  {
  }

  /** Nor is a publish: it replaces the snapshot unless the record waits for a hydration. */
  lemma FormerHostReplacesSnapshot(s: Store, t: string, g: int, uri: string, checksum: string)
    requires Past(s, t, g) && !s.computers[t].disk.hydrateRequired
    ensures var next := Next(s, OnRecord(t, PublishSnapshot(uri, checksum)));
            t in next.computers && next.computers[t].disk.snapshotUri == Some(uri)
            && next.computers[t].disk.snapshotChecksum == Some(checksum)
  {
  }
}
