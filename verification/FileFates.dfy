/**
  One fate per file request, over every run: a request is handed to the owner it was queued for at most once, answered
  at most once, and a request reported abandoned was never and will never be handed out.
 */
module FileFates {
  import opened Options
  import opened Computers
  import opened StoreRuns

  /** The `k`-th step stores a new request under `key`. */
  ghost predicate Queues(tr: Trace, key: Key, k: nat)
    requires tr.Valid() && k < |tr.steps|
  {
    tr.steps[k].QueueOperation? && KeyOf(tr.steps[k].operation) == key && tr.Eff(key.0, k).Some?
  }

  /** Operation ids are fresh: no step from `i` up to `j` stores another request under `key`. */
  ghost predicate NotQueuedAgain(tr: Trace, key: Key, i: nat, j: nat)
    requires tr.Valid() && j <= |tr.steps|
  {
    forall k | i <= k < j :: !Queues(tr, key, k)
  }

  /** The file step the `k`-th step takes on the request at `key`. */
  ghost function FileEff(tr: Trace, key: Key, k: nat): Option<FileStep>
    requires tr.Valid() && k < |tr.steps|
  {
    FileEffect(tr.states[k], tr.steps[k], key)
  }

  ghost predicate Delivers(tr: Trace, key: Key, k: nat)
    requires tr.Valid() && k < |tr.steps|
  {
    FileEff(tr, key, k).Some? && FileEff(tr, key, k).value.Deliver?
  }

  ghost predicate Completes(tr: Trace, key: Key, k: nat)
    requires tr.Valid() && k < |tr.steps|
  {
    FileEff(tr, key, k).Some? && FileEff(tr, key, k).value.Complete?
  }

  /** The request under a key, if there is one. */
  function Lookup(s: Store, key: Key): Option<LiveFileOperation> {
    if key in s.operations then Some(s.operations[key]) else None
  }

  /** What an abandon answers: `None` stands for "absent". */
  function AbandonAnswer(s: Store, key: Key, now: Time): Option<OperationStatus> {
    if key !in s.operations then None
    else if s.operations[key].status == Pending then Some(Abandoned)
    else if IsExpired(s.operations[key], now) then None
    else Some(s.operations[key].status)
  }

  /** One move of a status, or none. */
  predicate StatusMoves(a: OperationStatus, b: OperationStatus) {
    a == b || (a == Pending && b in {Delivered, Abandoned}) || (a == Delivered && b == Done)
  }

  /** The statuses a request can pass through from a given one, in any number of moves. */
  predicate StatusLeads(a: OperationStatus, b: OperationStatus) {
    a == b || a == Pending || (a == Delivered && b == Done)
  }

  /** The same request, later: what it is for has not changed. A request that is gone stays gone. */
  predicate SameRequest(a: Option<LiveFileOperation>, b: Option<LiveFileOperation>) {
    b.Some? ==>
      && a.Some?
      && b.value.ownerId == a.value.ownerId
      && b.value.generation == a.value.generation
      && b.value.expiresAt == a.value.expiresAt
      && b.value.kind == a.value.kind
  }

  /** A later state of the same request. */
  predicate Leads(a: Option<LiveFileOperation>, b: Option<LiveFileOperation>) {
    SameRequest(a, b) && (b.Some? ==> StatusLeads(a.value.status, b.value.status))
  }

  /** The next state of the same request. */
  predicate Moves(a: Option<LiveFileOperation>, b: Option<LiveFileOperation>) {
    SameRequest(a, b) && (b.Some? ==> StatusMoves(a.value.status, b.value.status))
  }

  /** What one step does to the request at `key`. */
  lemma LookupStep(s: Store, step: Step, key: Key)
    requires !(step.QueueOperation? && KeyOf(step.operation) == key && Effect(s, step, key.0).Some?)
    ensures var now := Lookup(Next(s, step), key);
            if step == DeleteOperation(key) then now == None
            else if FileEffect(s, step, key).Some?
                then now == FileAttempt(s.operations[key], FileEffect(s, step, key).value)
            else now == Lookup(s, key)
  {
  }

  lemma MovesStep(s: Store, step: Step, key: Key)
    requires !(step.QueueOperation? && KeyOf(step.operation) == key && Effect(s, step, key.0).Some?)
    ensures Moves(Lookup(s, key), Lookup(Next(s, step), key))
  {
    LookupStep(s, step, key);
  }

  /**
    Each step moves a status from pending to delivered or abandoned, from delivered to done, or not at all; so over a
    run a status only moves forward. The owner, generation, kind and expiry never move.
   */
  lemma {:induction false} StatusOnlyMovesForward(tr: Trace, key: Key, i: nat, j: nat)
    requires tr.Valid() && i <= j <= |tr.steps| && NotQueuedAgain(tr, key, i, j)
    ensures forall k | i <= k < j :: Moves(Lookup(tr.states[k], key), Lookup(tr.states[k + 1], key))
    ensures Leads(Lookup(tr.states[i], key), Lookup(tr.states[j], key))
    decreases j - i
  {
    if i == j {
    } else {
      StatusOnlyMovesForward(tr, key, i, j - 1);
      assert !Queues(tr, key, j - 1);
      MovesStep(tr.states[j - 1], tr.steps[j - 1], key);
    }
  }

  /** The request in the state after a delivery. */
  lemma AfterDelivery(tr: Trace, key: Key, d: nat)
    requires tr.Valid() && d < |tr.steps| && Delivers(tr, key, d)
    ensures var before := Lookup(tr.states[d], key); var after := Lookup(tr.states[d + 1], key);
            before.Some? && before.value.status == Pending && after.Some? && after.value.status == Delivered
  {
    LookupStep(tr.states[d], tr.steps[d], key);
  }

  /** A request is handed out at most once: two deliveries of one request are the same delivery. */
  lemma DeliveredAtMostOnce(tr: Trace, key: Key, i: nat, j: nat)
    requires tr.Valid() && i <= j < |tr.steps| && Delivers(tr, key, i) && Delivers(tr, key, j)
    requires NotQueuedAgain(tr, key, i, j)
    ensures i == j
  {
    if i < j {
      AfterDelivery(tr, key, i);
      StatusOnlyMovesForward(tr, key, i + 1, j);
      AfterDelivery(tr, key, j);
    }
  }

  /** A request is answered at most once. */
  lemma CompletedAtMostOnce(tr: Trace, key: Key, i: nat, j: nat)
    requires tr.Valid() && i <= j < |tr.steps| && Completes(tr, key, i) && Completes(tr, key, j)
    requires NotQueuedAgain(tr, key, i, j)
    ensures i == j
  {
    if i < j {
      LookupStep(tr.states[i], tr.steps[i], key);
      StatusOnlyMovesForward(tr, key, i + 1, j);
    }
  }

  /** The request as it was stored by the step that queued it. */
  lemma AfterQueueing(tr: Trace, key: Key, q: nat)
    requires tr.Valid() && q < |tr.steps| && Queues(tr, key, q)
    ensures var queued := tr.steps[q].operation;
            Lookup(tr.states[q + 1], key) == Some(queued.(expiresAt := queued.expiresAt / 1000 * 1000))
    ensures tr.Has(key.0, q) && LiveOwner(tr.Rec(key.0, q), tr.steps[q].operation.ownerId,
                                          tr.steps[q].operation.generation)
  {
  }

  /**
    Whoever is handed a request is the owner and generation it was queued for, which was the live owner with no approved
    stop when it was queued, and gets it before it expires.
   */
  lemma DeliveredOnlyToItsOwner(tr: Trace, key: Key, q: nat, d: nat)
    requires tr.Valid() && q < d < |tr.steps| && Queues(tr, key, q) && Delivers(tr, key, d)
    requires NotQueuedAgain(tr, key, q + 1, d)
    ensures var queued := tr.steps[q].operation; var delivery := FileEff(tr, key, d).value;
            && delivery.ownerId == queued.ownerId
            && delivery.generation == queued.generation
            && delivery.at < WholeSecond(queued.expiresAt)
            && tr.Has(key.0, q) && LiveOwner(tr.Rec(key.0, q), delivery.ownerId, delivery.generation)
  {
    AfterQueueing(tr, key, q);
    StatusOnlyMovesForward(tr, key, q + 1, d);
  }

  /** Without a delivery a pending request is neither delivered nor done. */
  lemma {:induction false} UndeliveredStatus(tr: Trace, key: Key, i: nat, j: nat)
    requires tr.Valid() && i <= j <= |tr.steps| && NotQueuedAgain(tr, key, i, j)
    requires Lookup(tr.states[i], key).Some? ==> Lookup(tr.states[i], key).value.status == Pending
    requires forall k | i <= k < j :: !Delivers(tr, key, k)
    ensures var now := Lookup(tr.states[j], key); now.Some? ==> now.value.status in {Pending, Abandoned}
    decreases j - i
  {
    if i == j {
    } else {
      UndeliveredStatus(tr, key, i, j - 1);
      assert !Queues(tr, key, j - 1) && !Delivers(tr, key, j - 1);
      LookupStep(tr.states[j - 1], tr.steps[j - 1], key);
    }
  }

  /**
    An answered request that was queued as pending was handed out between its queueing and its answer, exactly once.
   */
  lemma CompletedWasDeliveredExactlyOnce(tr: Trace, key: Key, q: nat, c: nat) returns (d: nat)
    requires tr.Valid() && q < c < |tr.steps| && Queues(tr, key, q) && Completes(tr, key, c)
    requires tr.steps[q].operation.status == Pending && NotQueuedAgain(tr, key, q + 1, c)
    ensures q < d < c && Delivers(tr, key, d)
    ensures forall k | q < k < c && Delivers(tr, key, k) :: k == d
  {
    AfterQueueing(tr, key, q);
    if forall k | q < k < c :: !Delivers(tr, key, k) {
      UndeliveredStatus(tr, key, q + 1, c);
      assert false;
    }
    d :| q < d < c && Delivers(tr, key, d);
    forall k | q < k < c && Delivers(tr, key, k)
      ensures k == d
    {
      if k < d {
        DeliveredAtMostOnce(tr, key, k, d);
      } else {
        DeliveredAtMostOnce(tr, key, d, k);
      }
    }
  }

  /**
    The answer "abandoned" is final and truthful: when an abandon of a request answers it, by winning or by finding it,
    then no step before it since the request was queued and no step after it in the run hands the request out.
   */
  lemma AbandonedIsNeverDelivered(tr: Trace, key: Key, q: nat, a: nat, d: nat)
    requires tr.Valid() && q < a < |tr.steps| && q < d < |tr.steps| && Queues(tr, key, q)
    requires NotQueuedAgain(tr, key, q + 1, |tr.steps|)
    requires tr.steps[a].OnOperation? && tr.steps[a].key == key && tr.steps[a].f.Abandon?
    requires AbandonAnswer(tr.states[a], key, tr.steps[a].f.now) == Some(Abandoned)
    ensures !Delivers(tr, key, d)
  {
    if Delivers(tr, key, d) {
      AfterDelivery(tr, key, d);
      if d < a {
        StatusOnlyMovesForward(tr, key, d + 1, a);
      } else if a < d {
        LookupStep(tr.states[a], tr.steps[a], key);
        StatusOnlyMovesForward(tr, key, a + 1, d);
      }
    }
  }

  // ----- What the store holds of a request -----

  /** What a file step makes of each field of the request. */
  lemma FileStepSets(o: LiveFileOperation, f: FileStep)
    requires FileAttempt(o, f).Some?
    ensures FileAttempt(o, f).value
            == o.(status := if f.Deliver? then Delivered else if f.Abandon? then Abandoned
                            else if f.Complete? then Done else o.status,
                  deliveredAt := if f.Deliver? then Some(f.at) else o.deliveredAt,
                  deliveredSequence := if f.Deliver? then Some(f.sequence) else o.deliveredSequence,
                  outcome := if f.Complete? then Some(f.outcome) else if f.Abandon? then None else o.outcome,
                  request := if f.Abandon? then None else o.request,
                  waiterGone := if f.WaiterGone? then Some(true) else o.waiterGone)
  {
  }

  /** A file step wins exactly when the request is where the step expects it, and in time. */
  lemma FileStepWinsIff(o: LiveFileOperation, f: FileStep)
    ensures FileAttempt(o, f).Some? <==>
              match f
              case Deliver(ownerId, generation, _, at) =>
                o.status == Pending && o.ownerId == ownerId && o.generation == generation && at < o.expiresAt
              case Abandon(_) => o.status == Pending
              case Complete(_, now) => o.status == Delivered && now < o.expiresAt
              case WaiterGone => o.status == Delivered
  {
  }

  /** What the steps of a run do to the request under the key, in order. */
  ghost function FileEffects(tr: Trace, key: Key): seq<Option<FileStep>>
    requires tr.Valid()
  {
    seq(|tr.steps|, k requires 0 <= k < |tr.steps| && tr.Valid() => FileEff(tr, key, k))
  }

  /** The request under the key in every state. */
  ghost function Lookups(tr: Trace, key: Key): seq<Option<LiveFileOperation>> {
    seq(|tr.states|, k requires 0 <= k < |tr.states| => Lookup(tr.states[k], key))
  }

  /** A request that is stored after a step was stored before it, and the step made of it what it is. */
  ghost predicate Follows(was: Option<LiveFileOperation>, f: Option<FileStep>, now: Option<LiveFileOperation>) {
    now.Some? ==> was.Some? && (if f.Some? then FileAttempt(was.value, f.value) == now else now == was)
  }

  lemma StoredStep(tr: Trace, key: Key, k: nat)
    requires tr.Valid() && k < |tr.steps| && !Queues(tr, key, k)
    ensures Follows(Lookup(tr.states[k], key), FileEff(tr, key, k), Lookup(tr.states[k + 1], key))
  {
    LookupStep(tr.states[k], tr.steps[k], key);
  }

  ghost predicate SomeDelivery(fs: seq<Option<FileStep>>, i: nat, j: nat)
    requires j <= |fs|
  {
    exists k | i <= k < j :: fs[k].Some? && fs[k].value.Deliver?
  }

  ghost predicate SomeCompletion(fs: seq<Option<FileStep>>, i: nat, j: nat)
    requires j <= |fs|
  {
    exists k | i <= k < j :: fs[k].Some? && fs[k].value.Complete?
  }

  ghost predicate SomeAbandon(fs: seq<Option<FileStep>>, i: nat, j: nat)
    requires j <= |fs|
  {
    exists k | i <= k < j :: fs[k].Some? && fs[k].value.Abandon?
  }

  /** The status that a history leaves a pending request in. */
  ghost function StatusAfter(fs: seq<Option<FileStep>>, i: nat, j: nat): OperationStatus
    requires j <= |fs|
  {
    if SomeCompletion(fs, i, j) then Done
    else if SomeDelivery(fs, i, j) then Delivered
    else if SomeAbandon(fs, i, j) then Abandoned
    else Pending
  }

  lemma StatusAfterStep(fs: seq<Option<FileStep>>, i: nat, j: nat, was: LiveFileOperation, now: LiveFileOperation)
    requires i <= j < |fs| && was.status == StatusAfter(fs, i, j)
    requires Follows(Some(was), fs[j], Some(now))
    ensures now.status == StatusAfter(fs, i, j + 1)
  {
    if fs[j].Some? {
      FileStepWinsIff(was, fs[j].value);
      FileStepSets(was, fs[j].value);
    }
    assert SomeCompletion(fs, i, j + 1) <==> SomeCompletion(fs, i, j) || (fs[j].Some? && fs[j].value.Complete?);
    assert SomeDelivery(fs, i, j + 1) <==> SomeDelivery(fs, i, j) || (fs[j].Some? && fs[j].value.Deliver?);
    assert SomeAbandon(fs, i, j + 1) <==> SomeAbandon(fs, i, j) || (fs[j].Some? && fs[j].value.Abandon?);
  }

  /** What never changes in a stored request. */
  predicate SameIdentity(a: LiveFileOperation, b: LiveFileOperation) {
    b == a.(status := b.status, deliveredAt := b.deliveredAt, deliveredSequence := b.deliveredSequence,
            outcome := b.outcome, request := b.request, waiterGone := b.waiterGone)
  }

  lemma {:induction false} StatusHistory(ops: seq<Option<LiveFileOperation>>, fs: seq<Option<FileStep>>, i: nat, j: nat)
    requires i <= j <= |fs| && |ops| == |fs| + 1 && ops[j].Some?
    requires forall k | i <= k < j :: Follows(ops[k], fs[k], ops[k + 1])
    ensures ops[i].Some? && SameIdentity(ops[i].value, ops[j].value)
    ensures ops[i].value.status == Pending ==> ops[j].value.status == StatusAfter(fs, i, j)
    decreases j
  {
    if i == j {
    } else {
      assert Follows(ops[j - 1], fs[j - 1], ops[j - 1 + 1]);
      StatusHistory(ops, fs, i, j - 1);
      if fs[j - 1].Some? {
        FileStepSets(ops[j - 1].value, fs[j - 1].value);
      }
      if ops[i].value.status == Pending {
        StatusAfterStep(fs, i, j - 1, ops[j - 1].value, ops[j].value);
      }
    }
  }

  /**
    A request that was queued as pending, as every later step of the run finds it while it is stored. Its status is what
    its history says: done when a completion won, delivered when only a delivery did, abandoned when an abandon did, and
    pending otherwise. What it is for, and its whole-second expiry, are as it was queued.
   */
  lemma StatusIsItsHistory(tr: Trace, key: Key, q: nat, j: nat)
    requires tr.Valid() && q < j <= |tr.steps| && Queues(tr, key, q) && NotQueuedAgain(tr, key, q + 1, j)
    requires tr.steps[q].operation.status == Pending && Lookup(tr.states[j], key).Some?
    ensures var queued := tr.steps[q].operation; var now := Lookup(tr.states[j], key).value;
            && now.status == StatusAfter(FileEffects(tr, key), q + 1, j)
            && SameIdentity(queued.(expiresAt := queued.expiresAt / 1000 * 1000), now)
  {
    var ops, fs := Lookups(tr, key), FileEffects(tr, key);
    AfterQueueing(tr, key, q);
    forall k | q + 1 <= k < j
      ensures Follows(ops[k], fs[k], ops[k + 1])
    {
      assert !Queues(tr, key, k);
      StoredStep(tr, key, k);
    }
    StatusHistory(ops, fs, q + 1, j);
  }

  /**
    Exactly when a completion wins, in terms of what happened since the request was queued as pending: it is still
    stored, it was delivered, no completion has won, and its whole-second expiry has not come.
   */
  lemma CompletionWinsIff(tr: Trace, key: Key, q: nat, j: nat, outcome: string, now: Time)
    requires tr.Valid() && q < j <= |tr.steps| && Queues(tr, key, q) && NotQueuedAgain(tr, key, q + 1, j)
    requires tr.steps[q].operation.status == Pending
    ensures var fs := FileEffects(tr, key);
            FileEffect(tr.states[j], OnOperation(key, Complete(outcome, now)), key).Some? <==>
              && key in tr.states[j].operations
              && SomeDelivery(fs, q + 1, j) && !SomeCompletion(fs, q + 1, j)
              && now < tr.steps[q].operation.expiresAt / 1000 * 1000
  {
    if key in tr.states[j].operations {
      StatusIsItsHistory(tr, key, q, j);
      FileStepWinsIff(tr.states[j].operations[key], Complete(outcome, now));
    }
  }

  /** What a completion stores: its outcome stays with the request, which stays done, for as long as it is stored. */
  lemma {:induction false} OutcomeStays(tr: Trace, key: Key, c: nat, j: nat)
    requires tr.Valid() && c < j <= |tr.steps| && Completes(tr, key, c) && NotQueuedAgain(tr, key, c, j)
    requires Lookup(tr.states[j], key).Some?
    ensures var now := Lookup(tr.states[j], key).value;
            now.status == Done && now.outcome == Some(FileEff(tr, key, c).value.outcome)
    decreases j
  {
    assert !Queues(tr, key, j - 1);
    StoredStep(tr, key, j - 1);
    if j == c + 1 {
    } else {
      OutcomeStays(tr, key, c, j - 1);
    }
  }

  /** What a delivery stores: its time and sequence stay with the request for as long as it is stored. */
  lemma {:induction false} DeliveryStays(tr: Trace, key: Key, d: nat, j: nat)
    requires tr.Valid() && d < j <= |tr.steps| && Delivers(tr, key, d) && NotQueuedAgain(tr, key, d, j)
    requires Lookup(tr.states[j], key).Some?
    ensures var now := Lookup(tr.states[j], key).value; var delivery := FileEff(tr, key, d).value;
            && now.status in {Delivered, Done}
            && now.deliveredAt == Some(delivery.at) && now.deliveredSequence == Some(delivery.sequence)
    decreases j
  {
    assert !Queues(tr, key, j - 1);
    StoredStep(tr, key, j - 1);
    if j == d + 1 {
    } else {
      DeliveryStays(tr, key, d, j - 1);
    }
  }

  /** What an abandon answers, exactly. A pending request is abandoned even after its expiry. */
  lemma AbandonAnswersIff(s: Store, key: Key, now: Time, status: OperationStatus)
    ensures var stored := key in s.operations;
            && (AbandonAnswer(s, key, now) == None <==>
                  !stored || (s.operations[key].status != Pending && s.operations[key].expiresAt <= now))
            && (AbandonAnswer(s, key, now) == Some(status) <==>
                  && stored
                  && (if s.operations[key].status == Pending then status == Abandoned
                      else status == s.operations[key].status && now < s.operations[key].expiresAt))
  {
  }

  // ----- Requests that wait -----

  /** A request for the owner and generation waits under the key. */
  ghost predicate Waits(s: Store, key: Key, ownerId: string, generation: int) {
    && key in s.operations
    && s.operations[key].status == Pending
    && s.operations[key].ownerId == ownerId
    && s.operations[key].generation == generation
  }

  /** The step neither moves nor deletes the request under the key. */
  ghost predicate Spares(s: Store, step: Step, key: Key) {
    FileEffect(s, step, key).None? && step != DeleteOperation(key)
  }

  ghost predicate SparedBetween(tr: Trace, key: Key, i: nat, j: nat)
    requires tr.Valid() && j <= |tr.steps|
  {
    forall k | i <= k < j :: Spares(tr.states[k], tr.steps[k], key)
  }

  /** The step queues a request for the owner and generation under the key. */
  ghost predicate QueuesFor(s: Store, step: Step, key: Key, ownerId: string, generation: int) {
    && step.QueueOperation? && KeyOf(step.operation) == key && Effect(s, step, key.0).Some?
    && step.operation.ownerId == ownerId && step.operation.generation == generation
  }

  lemma WaitsStep(s: Store, step: Step, key: Key, ownerId: string, generation: int)
    requires !QueuesFor(s, step, key, ownerId, generation)
    ensures var next := Next(s, step);
            && (Waits(next, key, ownerId, generation) <==> Waits(s, key, ownerId, generation) && Spares(s, step, key))
            && (Waits(next, key, ownerId, generation) ==> next.operations[key] == s.operations[key])
  {
    if step.QueueOperation? && KeyOf(step.operation) == key && Effect(s, step, key.0).Some? {
      QueueNext(s, step.operation, step.interactiveUntil);
    } else {
      LookupStep(s, step, key);
    }
  }

  lemma {:induction false} WaitsIff(tr: Trace, key: Key, ownerId: string, generation: int, i: nat, j: nat)
    requires tr.Valid() && i <= j <= |tr.steps|
    requires forall k | i <= k < j :: !QueuesFor(tr.states[k], tr.steps[k], key, ownerId, generation)
    ensures Waits(tr.states[j], key, ownerId, generation) <==>
              Waits(tr.states[i], key, ownerId, generation) && SparedBetween(tr, key, i, j)
    ensures Waits(tr.states[j], key, ownerId, generation)
            ==> tr.states[j].operations[key] == tr.states[i].operations[key]
    decreases j - i
  {
    if i == j {
    } else {
      WaitsIff(tr, key, ownerId, generation, i, j - 1);
      WaitsStep(tr.states[j - 1], tr.steps[j - 1], key, ownerId, generation);
      assert tr.states[j] == Next(tr.states[j - 1], tr.steps[j - 1]);
      assert SparedBetween(tr, key, i, j) <==>
               SparedBetween(tr, key, i, j - 1) && Spares(tr.states[j - 1], tr.steps[j - 1], key);
    }
  }

  /**
    Exactly when a delivery wins, when no request for that owner and generation was queued under the key since state
    `i`: the request waited in state `i`, no step since then moved or deleted it, and it has not expired.
   */
  lemma DeliveryWinsIff(tr: Trace, key: Key, i: nat, j: nat, ownerId: string, generation: int, sequence: int, at: Time)
    requires tr.Valid() && i <= j <= |tr.steps|
    requires forall k | i <= k < j :: !QueuesFor(tr.states[k], tr.steps[k], key, ownerId, generation)
    ensures FileEffect(tr.states[j], OnOperation(key, Deliver(ownerId, generation, sequence, at)), key).Some? <==>
              && Waits(tr.states[i], key, ownerId, generation)
              && !IsExpired(tr.states[i].operations[key], at)
              && SparedBetween(tr, key, i, j)
  {
    WaitsIff(tr, key, ownerId, generation, i, j);
  }
}
