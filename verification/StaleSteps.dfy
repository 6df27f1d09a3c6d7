/**
  Erasing stale steps from a whole run: whatever the steps that carry a passed generation or name a former owner did,
  the run without them ends in the same store, but for a stale dispatch mark and the fate of old requests.
 */
module StaleSteps {
  import opened Options
  import opened Computers
  import opened StoreRuns
  import opened Fencing

  /** Only the steps of the dispatch mark itself read or write the mark. */
  lemma MarkIgnored(c: Computer, mark: int, e: RecordStep)
    requires !e.MarkDispatched? && !e.ReleaseDispatch?
    ensures Attempt(WithMark(c, mark), e).Some? <==> Attempt(c, e).Some?
    ensures Attempt(c, e).Some? ==> Attempt(WithMark(c, mark), e).value == WithMark(Attempt(c, e).value, mark)
  {
  }

  lemma MarkKept(c: Computer, e: RecordStep)
    requires Attempt(c, e).Some? && !e.MarkDispatched? && !e.ReleaseDispatch?
    ensures Attempt(c, e).value.host.dispatched == c.host.dispatched
  {
  }

  function AfterAttempt(c: Computer, e: RecordStep): Computer {
    if Attempt(c, e).Some? then Attempt(c, e).value else c
  }

  /** Alike records accept the same steps and stay alike. */
  lemma AlikeStep(c: Computer, d: Computer, e: RecordStep)
    requires Consistent(c) && Consistent(d) && Alike(c, d) && !e.ReleaseDispatch?
    ensures Attempt(c, e).Some? <==> Attempt(d, e).Some?
    ensures Attempt(c, e).Some? ==> Alike(Attempt(c, e).value, Attempt(d, e).value)
  {
    if !e.MarkDispatched? {
      assert d == WithMark(c, d.host.dispatched);
      MarkIgnored(c, d.host.dispatched, e);
      if Attempt(c, e).Some? {
        GenerationStep(c, e);
        MarkKept(c, e);
      }
    }
  }

  lemma AlikeRelease(c: Computer, d: Computer, generation: int)
    requires Consistent(c) && Consistent(d) && Alike(c, d)
    ensures var e := ReleaseDispatch(generation);
            Alike(AfterAttempt(c, e), AfterAttempt(d, e))
  {
  }

  /** A step on the record that carries a generation up to `g` or names a former owner. */
  predicate StaleAttempt(e: RecordStep, g: int, former: set<string>) {
    StaleStep(e, g) || (NamedOwner(e).Some? && NamedOwner(e).value in former)
  }

  /** A stale step of `t`: on the record, or the delivery of a request of a generation up to `g`. */
  predicate Stale(step: Step, t: string, g: int, former: set<string>) {
    || (Attempted(step, t).Some? && StaleAttempt(Attempted(step, t).value, g, former))
    || (step.OnOperation? && step.key.0 == t && step.f.Deliver? && step.f.generation <= g)
  }

  /** The steps without the stale ones. */
  function WithoutStale(steps: seq<Step>, t: string, g: int, former: set<string>): seq<Step> {
    if steps == [] then []
    else if Stale(steps[0], t, g, former) then WithoutStale(steps[1..], t, g, former)
    else [steps[0]] + WithoutStale(steps[1..], t, g, former)
  }

  /** The generation has passed `g`, and no former owner is recorded. */
  predicate Gone(s: Store, t: string, g: int, former: set<string>) {
    Past(s, t, g) && (s.computers[t].owner.id.Some? ==> s.computers[t].owner.id.value !in former)
  }

  /** The step starts a former owner again, for a generation beyond `g`. */
  predicate BringsBack(step: Step, t: string, g: int, former: set<string>) {
    var e := Attempted(step, t);
    e.Some? && e.value.ConsumeBootstrap? && e.value.bootOwner in former && e.value.bootGeneration > g
  }

  lemma OwnerComesByBootstrap(c: Computer, e: RecordStep)
    requires Attempt(c, e).Some?
    ensures var next := Attempt(c, e).value.owner.id;
            next == None || next == c.owner.id || (e.ConsumeBootstrap? && next == Some(e.bootOwner))
  {
  }

  lemma GoneStep(s: Store, step: Step, t: string, g: int, former: set<string>)
    requires Gone(s, t, g, former) && !BringsBack(step, t, g, former)
    ensures Gone(Next(s, step), t, g, former)
  {
    PastStep(s, step, t, g);
    RecordAfter(s, step, t);
    var effect := Effect(s, step, t);
    if effect.Some? {
      assert Attempted(step, t) == effect;
      OwnerComesByBootstrap(s.computers[t], effect.value);
      if StaleStep(effect.value, g) && !effect.value.ReleaseDispatch? {
        StaleStepRefused(s.computers[t], effect.value, g);
      }
    }
  }

  /** A request of `t` for a generation up to `g`. */
  predicate OldRequest(key: Key, o: LiveFileOperation, t: string, g: int) {
    key.0 == t && o.generation <= g
  }

  predicate AlikeRequests(key: Key, x: LiveFileOperation, y: LiveFileOperation, t: string, g: int) {
    x == y || (OldRequest(key, x, t, g) && OldRequest(key, y, t, g))
  }

  /** The same requests, except that old requests of `t` may have been moved differently. */
  predicate AlikeOperations(a: map<Key, LiveFileOperation>, b: map<Key, LiveFileOperation>, t: string, g: int) {
    && a.Keys == b.Keys
    && forall k | k in a :: AlikeRequests(k, a[k], b[k], t, g)
  }

  /** Stores that agree on everything but a stale dispatch mark of `t` and the old requests of `t`. */
  predicate AlikeStores(a: Store, b: Store, t: string, g: int) {
    && t in a.computers && t in b.computers
    && Alike(a.computers[t], b.computers[t])
    && AlikeOperations(a.operations, b.operations, t, g)
    && a.computers[t := b.computers[t]] == b.computers
  }

  lemma StaleStoreStep(s: Store, step: Step, t: string, g: int, former: set<string>)
    requires Gone(s, t, g, former) && Stale(step, t, g, former)
    ensures AlikeStores(Next(s, step), s, t, g)
  {
    if !step.OnOperation? {
      var e := Attempted(step, t).value;
      if !StaleStep(e, g) {
        NotTheOwner(s.computers[t], e);
      } else if e.ReleaseDispatch? {
        StaleReleaseAlike(s.computers[t], g, e.released);
      } else {
        StaleStepRefused(s.computers[t], e, g);
      }
    }
  }

  lemma NotTheOwner(c: Computer, e: RecordStep)
    requires NamedOwner(e).Some? && c.owner.id != NamedOwner(e)
    ensures Attempt(c, e).None?
  {
  }

  /** Two alike records accept or refuse the step `e`, and end alike. */
  lemma AlikeRecordStep(c: Computer, d: Computer, e: RecordStep)
    requires Consistent(c) && Consistent(d) && Alike(c, d)
    ensures Alike(AfterAttempt(c, e), AfterAttempt(d, e))
    ensures !e.ReleaseDispatch? ==> (Attempt(c, e).Some? <==> Attempt(d, e).Some?)
  {
    if e.ReleaseDispatch? {
      AlikeRelease(c, d, e.released);
    } else {
      AlikeStep(c, d, e);
    }
  }

  function AfterFile(o: LiveFileOperation, f: FileStep): LiveFileOperation {
    if FileAttempt(o, f).Some? then FileAttempt(o, f).value else o
  }

  /** A file step on alike requests. */
  lemma AlikeFileAttempt(key: Key, x: LiveFileOperation, y: LiveFileOperation, f: FileStep, t: string, g: int)
    requires AlikeRequests(key, x, y, t, g)
    ensures AlikeRequests(key, AfterFile(x, f), AfterFile(y, f), t, g)
  {
  }

  lemma NextFile(s: Store, key: Key, f: FileStep)
    ensures Next(s, OnOperation(key, f)).operations
            == if key in s.operations then s.operations[key := AfterFile(s.operations[key], f)] else s.operations
    ensures Next(s, OnOperation(key, f)).computers == s.computers
  {
  }

  lemma AlikeUpdate(a: map<Key, LiveFileOperation>, b: map<Key, LiveFileOperation>, key: Key, x: LiveFileOperation,
                    y: LiveFileOperation, t: string, g: int)
    requires AlikeOperations(a, b, t, g) && AlikeRequests(key, x, y, t, g)
    ensures AlikeOperations(a[key := x], b[key := y], t, g)
  {
  }

  lemma AlikeFileStep(a: Store, b: Store, key: Key, f: FileStep, t: string, g: int)
    requires AlikeOperations(a.operations, b.operations, t, g)
    ensures AlikeOperations(Next(a, OnOperation(key, f)).operations, Next(b, OnOperation(key, f)).operations, t, g)
  {
    NextFile(a, key, f);
    NextFile(b, key, f);
    if key in a.operations {
      var x, y := a.operations[key], b.operations[key];
      AlikeFileAttempt(key, x, y, f, t, g);
      AlikeUpdate(a.operations, b.operations, key, AfterFile(x, f), AfterFile(y, f), t, g);
    }
  }

  /** A step on the record of another organization. */
  lemma AlikeOtherRecord(a: Store, b: Store, other: string, e: RecordStep, t: string, g: int)
    requires AlikeStores(a, b, t, g) && other != t
    ensures AlikeStores(Next(a, OnRecord(other, e)), Next(b, OnRecord(other, e)), t, g)
  {
    OtherRecordAlike(a, b, other, t, g);
    var effect := Effect(a, OnRecord(other, e), other);
    assert Effect(b, OnRecord(other, e), other) == effect;
    if effect.Some? {
      AlikeOtherUpdate(a, b, other, After(a.computers[other], effect), t, g);
    }
  }

  lemma OtherRecordAlike(a: Store, b: Store, other: string, t: string, g: int)
    requires AlikeStores(a, b, t, g) && other != t
    ensures other in a.computers <==> other in b.computers
    ensures other in a.computers ==> a.computers[other] == b.computers[other]
  {
    assert other in a.computers <==> other in a.computers[t := b.computers[t]];
  }

  lemma AlikeOtherUpdate(a: Store, b: Store, other: string, c: Computer, t: string, g: int)
    requires AlikeStores(a, b, t, g) && other != t
    ensures AlikeStores(a.(computers := a.computers[other := c]), b.(computers := b.computers[other := c]), t, g)
  {
    assert a.computers[other := c][t := b.computers[t]] == a.computers[t := b.computers[t]][other := c];
  }

  lemma AlikeOtherQueue(a: Store, b: Store, operation: LiveFileOperation, until: Time, t: string, g: int)
    requires AlikeStores(a, b, t, g) && operation.tenantId != t
    ensures AlikeStores(Next(a, QueueOperation(operation, until)), Next(b, QueueOperation(operation, until)), t, g)
  {
    OtherRecordAlike(a, b, operation.tenantId, t, g);
    AlikeUpdate(a.operations, b.operations, KeyOf(operation), WholeSecondExpiry(operation),
                WholeSecondExpiry(operation), t, g);
  }

  lemma AlikeCreate(a: Store, b: Store, computer: Computer, t: string, g: int)
    requires AlikeStores(a, b, t, g)
    ensures AlikeStores(Next(a, CreateIfAbsent(computer)), Next(b, CreateIfAbsent(computer)), t, g)
  {
    var other := computer.tenantId;
    assert other in a.computers <==> other in b.computers;
  }

  lemma AlikeStoreRecord(a: Store, b: Store, t: string, e: RecordStep, g: int)
    requires AlikeStores(a, b, t, g) && Consistent(a.computers[t]) && Consistent(b.computers[t])
    ensures AlikeStores(Next(a, OnRecord(t, e)), Next(b, OnRecord(t, e)), t, g)
  {
    AlikeRecordStep(a.computers[t], b.computers[t], e);
    NextRecord(a, t, e);
    NextRecord(b, t, e);
    if !e.QueueRequest? {
      AlikeSelfUpdate(a, b, AfterAttempt(a.computers[t], e), AfterAttempt(b.computers[t], e), t, g);
    }
  }

  lemma NextRecord(s: Store, t: string, e: RecordStep)
    requires t in s.computers
    ensures Next(s, OnRecord(t, e))
            == if e.QueueRequest? then s else s.(computers := s.computers[t := AfterAttempt(s.computers[t], e)])
  {
    assert s.computers[t := s.computers[t]] == s.computers;
  }

  lemma AlikeSelfUpdate(a: Store, b: Store, c: Computer, d: Computer, t: string, g: int)
    requires AlikeStores(a, b, t, g) && Alike(c, d)
    ensures AlikeStores(a.(computers := a.computers[t := c]), b.(computers := b.computers[t := d]), t, g)
  {
    assert a.computers[t := c][t := d] == a.computers[t := d] == a.computers[t := b.computers[t]][t := d];
  }

  lemma AlikeStoreQueue(a: Store, b: Store, t: string, operation: LiveFileOperation, until: Time, g: int)
    requires AlikeStores(a, b, t, g) && Consistent(a.computers[t]) && Consistent(b.computers[t])
             && operation.tenantId == t
    ensures AlikeStores(Next(a, QueueOperation(operation, until)), Next(b, QueueOperation(operation, until)), t, g)
  {
    AlikeRecordStep(a.computers[t], b.computers[t], QueueHalf(operation, until));
  }

  lemma AlikeStoreStep(a: Store, b: Store, step: Step, t: string, g: int)
    requires AlikeStores(a, b, t, g) && Consistent(a.computers[t]) && Consistent(b.computers[t])
    ensures AlikeStores(Next(a, step), Next(b, step), t, g)
  {
    match step
    case OnOperation(key, f) => AlikeFileStep(a, b, key, f, t, g);
    case DeleteOperation(_) =>
    case CreateIfAbsent(computer) => AlikeCreate(a, b, computer, t, g);
    case OnRecord(tenantId, e) =>
      if tenantId == t {
        AlikeStoreRecord(a, b, t, e, g);
      } else {
        AlikeOtherRecord(a, b, tenantId, e, t, g);
      }
    case QueueOperation(operation, until) =>
      if operation.tenantId == t {
        AlikeStoreQueue(a, b, t, operation, until, g);
      } else {
        AlikeOtherQueue(a, b, operation, until, t, g);
      }
  }

  lemma AlikeStoresTransitive(a: Store, b: Store, c: Store, t: string, g: int)
    requires AlikeStores(a, b, t, g) && AlikeStores(b, c, t, g)
    ensures AlikeStores(a, c, t, g)
  {
  }

  lemma {:induction false} AlikeRuns(full: Trace, clean: Trace, t: string, g: int, former: set<string>)
    requires full.Valid() && clean.Valid() && clean.steps == WithoutStale(full.steps, t, g, former)
    requires AlikeStores(full.states[0], clean.states[0], t, g)
    requires Gone(full.states[0], t, g, former) && Gone(clean.states[0], t, g, former)
    requires forall step | step in full.steps :: !BringsBack(step, t, g, former)
    ensures AlikeStores(full.Last(), clean.Last(), t, g)
    ensures Gone(full.Last(), t, g, former) && Gone(clean.Last(), t, g, former)
    decreases |full.steps|
  {
    if full.steps == [] {
    } else {
      var step, s := full.steps[0], full.states[0];
      TailIsValid(full);
      GoneStep(s, step, t, g, former);
      if Stale(step, t, g, former) {
        StaleStoreStep(s, step, t, g, former);
        AlikeStoresTransitive(Next(s, step), s, clean.states[0], t, g);
        AlikeRuns(full.Tail(), clean, t, g, former);
      } else {
        TailIsValid(clean);
        GoneStep(clean.states[0], step, t, g, former);
        AlikeStoreStep(s, clean.states[0], step, t, g);
        assert clean.steps[1..] == WithoutStale(full.steps[1..], t, g, former);
        AlikeRuns(full.Tail(), clean.Tail(), t, g, former);
      }
    }
  }

  /**
    Stale steps are invisible. Take any run from a state whose generation has passed `g` and in which no former owner is
    recorded, such that no former owner is started again. Erase every step that carries a generation up to `g`,
    deliveries included, and every step that names a former owner. The two runs end in stores with the same requests and
    the same records. The one difference in records is a dispatch mark of `t` that is below the current generation on
    both sides; the one difference in requests is what became of those of `t` for generations up to `g`. From there
    every step on the record that is not a release of a dispatch mark, and every file step on a request that is not such
    an old one, is accepted after the one run if and only if it is accepted after the other.
   */
  lemma StaleStepsAreInvisible(full: Trace, t: string, g: int, former: set<string>, e: RecordStep, key: Key,
                               f: FileStep)
    requires full.Valid() && Gone(full.states[0], t, g, former)
    requires forall step | step in full.steps :: !BringsBack(step, t, g, former)
    ensures var after := full.Last();
            var clean := Replay(full.states[0], WithoutStale(full.steps, t, g, former)).Last();
            && AlikeStores(after, clean, t, g)
            && (!e.ReleaseDispatch? ==>
                  (Attempt(after.computers[t], e).Some? <==> Attempt(clean.computers[t], e).Some?))
            && (key in after.operations && !OldRequest(key, after.operations[key], t, g) ==>
                  key in clean.operations
                  && FileAttempt(after.operations[key], f) == FileAttempt(clean.operations[key], f))
  {
    var clean := Replay(full.states[0], WithoutStale(full.steps, t, g, former));
    AlikeRuns(full, clean, t, g, former);
    AlikeRecordStep(full.Last().computers[t], clean.Last().computers[t], e);
  }
}
