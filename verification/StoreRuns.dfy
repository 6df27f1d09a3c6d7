/**
  The messaging store as a state machine: the steps that many processes (starters, supervisors, the Front Door, old
  owners) race on, and the runs their interleavings produce.
 */
module StoreRuns {
  import opened Options
  import opened Computers

  datatype OperationKind = ListEntries | Stat | Read | Write | Delete | Move | Mkdir

  datatype OperationStatus = Pending | Delivered | Done | Abandoned

  /** One file request left in the store for the live owner. */
  datatype LiveFileOperation = LiveFileOperation(
    operationId: string,
    tenantId: string,
    computerId: string,
    userId: string,
    ownerId: string,
    generation: int,
    kind: OperationKind,
    status: OperationStatus,
    request: Option<string>,
    queuedAt: Time,
    deliveredAt: Option<Time>,
    deliveredSequence: Option<int>,
    outcome: Option<string>,
    waiterGone: Option<bool>,
    auditAtMilliseconds: Option<int>,
    expiresAt: Time)

  predicate IsExpired(operation: LiveFileOperation, now: Time) {
    operation.expiresAt <= now
  }

  function WholeSecondExpiry(operation: LiveFileOperation): LiveFileOperation {
    operation.(expiresAt := WholeSecond(operation.expiresAt))
  }

  /** One atomic step on a queued file request. */
  datatype FileStep =
    | Deliver(ownerId: string, generation: int, sequence: int, at: Time)
    | Abandon(now: Time)
    | Complete(outcome: string, now: Time)
    | WaiterGone

  /** What a file step makes of a request, or `None` when its condition fails. */
  function FileAttempt(operation: LiveFileOperation, f: FileStep): Option<LiveFileOperation> {
    match f
    case Deliver(ownerId, generation, sequence, at) =>
      if operation.status != Pending || operation.ownerId != ownerId || operation.generation != generation
         || IsExpired(operation, at) then None
      else Some(operation.(status := Delivered, deliveredAt := Some(at), deliveredSequence := Some(sequence)))
    case Abandon(_) =>
      if operation.status == Pending then Some(operation.(status := Abandoned, request := None, outcome := None))
      else None
    case Complete(outcome, now) =>
      if operation.status != Delivered || IsExpired(operation, now) then None
      else Some(operation.(status := Done, outcome := Some(outcome)))
    case WaiterGone =>
      if operation.status != Delivered then None
      else Some(operation.(waiterGone := Some(true)))
  }

  type Key = (string, string)

  function KeyOf(operation: LiveFileOperation): Key {
    (operation.tenantId, operation.operationId)
  }

  /** The maps the protocol steps share: one record per organization, and the file requests. */
  datatype Store = Store(computers: map<string, Computer>, operations: map<Key, LiveFileOperation>)

  datatype Step =
    | CreateIfAbsent(computer: Computer)
    | OnRecord(tenantId: string, e: RecordStep)
    | QueueOperation(operation: LiveFileOperation, interactiveUntil: Time)
    | OnOperation(key: Key, f: FileStep)
    | DeleteOperation(deleted: Key)

  /** The record step a `QueueOperation` performs. */
  function QueueHalf(operation: LiveFileOperation, interactiveUntil: Time): RecordStep {
    QueueRequest(operation.ownerId, operation.generation, operation.operationId, interactiveUntil)
  }

  /** The record step a store step attempts on the record of `t`. */
  function Attempted(step: Step, t: string): Option<RecordStep> {
    match step
    case OnRecord(tenantId, e) => if tenantId == t then Some(e) else None
    case QueueOperation(operation, until) => if operation.tenantId == t then Some(QueueHalf(operation, until)) else None
    case _ => None
  }

  /**
    The record step that `step` takes on the record of `t` in store `s`, or `None` when it takes none: it concerns
    another organization, or its condition fails. A request is queued only as one transaction with its item.
   */
  function Effect(s: Store, step: Step, t: string): (r: Option<RecordStep>)
    ensures r.Some? ==> t in s.computers && Attempt(s.computers[t], r.value).Some?
  {
    match step
    case OnRecord(tenantId, e) =>
      if tenantId == t && t in s.computers && !e.QueueRequest?
        && Attempt(s.computers[t], e).Some? then Some(e) else None
    case QueueOperation(operation, until) =>
      if operation.tenantId == t && t in s.computers && Attempt(s.computers[t], QueueHalf(operation, until)).Some?
         && KeyOf(operation) !in s.operations
      then Some(QueueHalf(operation, until)) else None
    case _ => None
  }

  function After(c: Computer, effect: Option<RecordStep>): Computer
    requires effect.Some? ==> Attempt(c, effect.value).Some?
  {
    if effect.None? then c else Attempt(c, effect.value).value
  }

  /** The file step that `step` takes on the request at `k`, when its condition holds. */
  function FileEffect(s: Store, step: Step, k: Key): (r: Option<FileStep>)
    ensures r.Some? ==> k in s.operations && FileAttempt(s.operations[k], r.value).Some?
  {
    if step.OnOperation? && step.key == k && k in s.operations && FileAttempt(s.operations[k], step.f).Some?
    then Some(step.f) else None
  }

  function Next(s: Store, step: Step): Store {
    match step
    case CreateIfAbsent(computer) =>
      if computer.tenantId in s.computers then s else s.(computers := s.computers[computer.tenantId := computer])
    case OnRecord(t, _) =>
      var effect := Effect(s, step, t);
      if effect.None? then s else s.(computers := s.computers[t := After(s.computers[t], effect)])
    case QueueOperation(operation, _) =>
      var t := operation.tenantId;
      var effect := Effect(s, step, t);
      if effect.None? then s
      else Store(s.computers[t := After(s.computers[t], effect)],
                 s.operations[KeyOf(operation) := WholeSecondExpiry(operation)])
    case OnOperation(k, _) =>
      var effect := FileEffect(s, step, k);
      if effect.None? then s
      else s.(operations := s.operations[k := FileAttempt(s.operations[k], effect.value).value])
    case DeleteOperation(k) => s.(operations := s.operations - {k})
  }

  /** A run of the store: the steps in the order they took place, and the stores before, between and after them. */
  datatype Trace = Trace(states: seq<Store>, steps: seq<Step>) {
    ghost predicate Valid() {
      && |states| == |steps| + 1
      && forall k | 0 <= k < |steps| :: states[k + 1] == Next(states[k], steps[k])
    }

    ghost function Last(): Store
      requires |states| > 0
    {
      states[|states| - 1]
    }

    /** The run with one more step. */
    ghost function Extended(step: Step): Trace
      requires Valid()
    {
      Trace(states + [Next(Last(), step)], steps + [step])
    }

    /** The run without its first step. */
    ghost function Tail(): Trace
      requires |states| > 0 && |steps| > 0
    {
      Trace(states[1..], steps[1..])
    }

    /** The organization `t` has a record in state `k`. */
    ghost predicate Has(t: string, k: nat) {
      k < |states| && t in states[k].computers
    }

    /** The record of `t` in state `k`. */
    ghost function Rec(t: string, k: nat): Computer
      requires Has(t, k)
    {
      states[k].computers[t]
    }

    /** What the `k`-th step does to the record of `t`. */
    ghost function Eff(t: string, k: nat): Option<RecordStep>
      requires k < |steps| && |states| == |steps| + 1
    {
      Effect(states[k], steps[k], t)
    }

    /** What the steps do to the record of `t`, in order. */
    ghost function Effects(t: string): seq<Option<RecordStep>>
      requires |states| == |steps| + 1
    {
      seq(|steps|, k requires 0 <= k < |steps| && |states| == |steps| + 1 => Eff(t, k))
    }
  }

  /** What queueing a request stores, and when. */
  lemma QueueNext(s: Store, operation: LiveFileOperation, until: Time)
    ensures var t := operation.tenantId; var step := QueueOperation(operation, until);
            if t in s.computers && LiveOwner(s.computers[t], operation.ownerId, operation.generation)
               && KeyOf(operation) !in s.operations
            then
              var owner := s.computers[t].owner.(interactiveUntilAt := Some(WholeSecond(until)),
                                                 fileOperationId := Some(operation.operationId));
              && Effect(s, step, t).Some?
              && Next(s, step) == Store(s.computers[t := s.computers[t].(owner := owner)],
                                        s.operations[KeyOf(operation) := WholeSecondExpiry(operation)])
            else Effect(s, step, t).None? && Next(s, step) == s
  {
  }

  lemma ExtendedIsValid(tr: Trace, step: Step)
    requires tr.Valid()
    ensures tr.Extended(step).Valid() && tr.Extended(step).Last() == Next(tr.Last(), step)
    ensures tr.Extended(step).states[0] == tr.states[0]
  {
  }

  lemma TailIsValid(tr: Trace)
    requires tr.Valid() && |tr.steps| > 0
    ensures tr.Tail().Valid() && tr.Tail().states[0] == Next(tr.states[0], tr.steps[0]) && tr.Tail().Last() == tr.Last()
  {
    var tail := tr.Tail();
    forall k | 0 <= k < |tail.steps|
      ensures tail.states[k + 1] == Next(tail.states[k], tail.steps[k])
    {
      assert tr.states[k + 1 + 1] == Next(tr.states[k + 1], tr.steps[k + 1]);
    }
    assert tr.states[0 + 1] == Next(tr.states[0], tr.steps[0]);
  }

  /** The run of a list of steps from a given store. */
  ghost function Replay(s: Store, steps: seq<Step>): (tr: Trace)
    ensures tr.Valid() && tr.states[0] == s && tr.steps == steps
  {
    if steps == [] then Trace([s], [])
    else
      var before := Replay(s, steps[..|steps| - 1]);
      ExtendedIsValid(before, steps[|steps| - 1]);
      before.Extended(steps[|steps| - 1])
  }

  /** Every step moves the record of an organization by exactly its effect, and removes no record. */
  lemma RecordAfter(s: Store, step: Step, t: string)
    requires t in s.computers
    ensures t in Next(s, step).computers
    ensures Next(s, step).computers[t] == After(s.computers[t], Effect(s, step, t))
  {
  }

  /** The same fact on the `k`-th step of a run. */
  lemma TraceStep(tr: Trace, t: string, k: nat)
    requires tr.Valid() && k < |tr.steps| && tr.Has(t, k)
    ensures tr.Has(t, k + 1)
    ensures tr.Eff(t, k).Some? ==> Attempt(tr.Rec(t, k), tr.Eff(t, k).value) == Some(tr.Rec(t, k + 1))
    ensures tr.Eff(t, k).None? ==> tr.Rec(t, k + 1) == tr.Rec(t, k)
  {
    RecordAfter(tr.states[k], tr.steps[k], t);
  }

  lemma {:induction false} RecordStays(tr: Trace, t: string, i: nat, j: nat)
    requires tr.Valid() && i <= j <= |tr.steps| && tr.Has(t, i)
    ensures tr.Has(t, j)
    decreases j - i
  {
    if i == j {
    } else {
      RecordStays(tr, t, i, j - 1);
      TraceStep(tr, t, j - 1);
    }
  }
}
