/**
  Credential renewals are a compare-and-swap on a whole-second stamp. Over every run, of any number of renewals that saw
  the same stamp at most one wins, because the stamps that winning renewals saw strictly increase.
 */
module Renewals {
  import opened Options
  import opened Computers
  import opened StoreRuns

  /** `b` is a stamp of a later second than `a`; an absent stamp is before every second. */
  predicate Later(a: Option<int>, b: Option<int>) {
    b.Some? && (a.None? || a.value < b.value)
  }

  /** The caller's part: a renewal of the owner is stamped with a later whole second than the stamp it saw. */
  predicate StampsOwnerForward(effect: Option<RecordStep>, ownerId: string) {
    effect.Some? && effect.value.RenewSupervisor? && effect.value.renewedOwner == ownerId ==>
      Later(StampSecond(effect.value.seen), Some(effect.value.renewedAt / 1000))
  }

  /** The same for a renewal of the turn of a dispatch. */
  predicate StampsTurnForward(effect: Option<RecordStep>, dispatchId: string) {
    effect.Some? && effect.value.RenewTurn? && effect.value.turnDispatch == dispatchId ==>
      Later(StampSecond(effect.value.turnSeen), Some(effect.value.turnRenewedAt / 1000))
  }

  predicate BringsBackOwner(effect: Option<RecordStep>, ownerId: string) {
    effect.Some? && effect.value.ConsumeBootstrap? && effect.value.bootOwner == ownerId
  }

  predicate BringsBackDispatch(effect: Option<RecordStep>, dispatchId: string) {
    effect.Some? && effect.value.OfferDispatch? && effect.value.dispatch.dispatchId == dispatchId
  }

  // ----- Supervisor renewals, per owner -----

  predicate SupervisorPast(c: Computer, ownerId: string, stamp: Option<int>) {
    c.owner.id == Some(ownerId) ==> Later(stamp, StampSecond(c.owner.credentialsRenewedAt))
  }

  lemma SupervisorStampStep(c: Computer, e: RecordStep, ownerId: string, stamp: Option<int>)
    requires Attempt(c, e).Some? && SupervisorPast(c, ownerId, stamp)
    requires StampsOwnerForward(Some(e), ownerId) && !BringsBackOwner(Some(e), ownerId)
    ensures SupervisorPast(Attempt(c, e).value, ownerId, stamp)
  {
  }

  lemma {:induction false} SupervisorStampHolds(tr: Trace, t: string, i: nat, j: nat, ownerId: string,
                                                stamp: Option<int>)
    requires tr.Valid() && i <= j <= |tr.steps| && tr.Has(t, i) && SupervisorPast(tr.Rec(t, i), ownerId, stamp)
    requires forall k | i <= k < j ::
               StampsOwnerForward(tr.Eff(t, k), ownerId) && !BringsBackOwner(tr.Eff(t, k), ownerId)
    ensures tr.Has(t, j) && SupervisorPast(tr.Rec(t, j), ownerId, stamp)
    decreases j - i
  {
    if i == j {
    } else {
      SupervisorStampHolds(tr, t, i, j - 1, ownerId, stamp);
      TraceStep(tr, t, j - 1);
      assert StampsOwnerForward(tr.Eff(t, j - 1), ownerId);
      if tr.Eff(t, j - 1).Some? {
        SupervisorStampStep(tr.Rec(t, j - 1), tr.Eff(t, j - 1).value, ownerId, stamp);
      }
    }
  }

  /**
    Of two supervisor renewals of one owner that win, the later one saw a stamp of a strictly later second. So of any
    number of renewals that saw the same whole-second stamp (or all saw none) at most one wins.
   */
  lemma SupervisorRenewalIsCompareAndSwap(tr: Trace, t: string, i: nat, j: nat, ownerId: string)
    requires tr.Valid() && i < j < |tr.steps| && tr.Has(t, i)
    requires tr.Eff(t, i).Some? && tr.Eff(t, i).value.RenewSupervisor? && tr.Eff(t, i).value.renewedOwner == ownerId
    requires tr.Eff(t, j).Some? && tr.Eff(t, j).value.RenewSupervisor? && tr.Eff(t, j).value.renewedOwner == ownerId
    requires forall k | i <= k < j ::
               StampsOwnerForward(tr.Eff(t, k), ownerId) && !BringsBackOwner(tr.Eff(t, k), ownerId)
    ensures Later(StampSecond(tr.Eff(t, i).value.seen), StampSecond(tr.Eff(t, j).value.seen))
  {
    TraceStep(tr, t, i);
    assert StampsOwnerForward(tr.Eff(t, i), ownerId);
    SupervisorStampHolds(tr, t, i + 1, j, ownerId, StampSecond(tr.Eff(t, i).value.seen));
  }

  /**
    The stamp must really move: right after a winning renewal, another renewal that saw the same stamp wins as well if
    and only if the first one was stamped with the very second it saw.
   */
  lemma SecondRenewalWinsIffStampStoodStill(c: Computer, ownerId: string, generation: int, seen: Option<Time>,
                                            first: Time, second: Time, expireAt: Time)
    requires Attempt(c, RenewSupervisor(ownerId, generation, seen, first, expireAt)).Some?
    ensures var next := Attempt(c, RenewSupervisor(ownerId, generation, seen, first, expireAt)).value;
            Attempt(next, RenewSupervisor(ownerId, generation, seen, second, expireAt)).Some?
            <==> StampSecond(seen) == Some(first / 1000)
  {
  }

  // ----- Turn renewals, per dispatch -----

  predicate TurnPast(c: Computer, dispatchId: string, stamp: Option<int>) {
    c.owner.dispatch.id == Some(dispatchId) ==> Later(stamp, StampSecond(c.owner.dispatch.credentialsRenewedAt))
  }

  /** Whatever replaces the owner clears the dispatch, so the owner plays no part. */
  lemma TurnStampStep(c: Computer, e: RecordStep, dispatchId: string, stamp: Option<int>)
    requires Attempt(c, e).Some? && TurnPast(c, dispatchId, stamp)
    requires StampsTurnForward(Some(e), dispatchId) && !BringsBackDispatch(Some(e), dispatchId)
    ensures TurnPast(Attempt(c, e).value, dispatchId, stamp)
  {
  }

  lemma {:induction false} TurnStampHolds(tr: Trace, t: string, i: nat, j: nat, dispatchId: string, stamp: Option<int>)
    requires tr.Valid() && i <= j <= |tr.steps| && tr.Has(t, i) && TurnPast(tr.Rec(t, i), dispatchId, stamp)
    requires forall k | i <= k < j ::
               StampsTurnForward(tr.Eff(t, k), dispatchId) && !BringsBackDispatch(tr.Eff(t, k), dispatchId)
    ensures tr.Has(t, j) && TurnPast(tr.Rec(t, j), dispatchId, stamp)
    decreases j - i
  {
    if i == j {
    } else {
      TurnStampHolds(tr, t, i, j - 1, dispatchId, stamp);
      TraceStep(tr, t, j - 1);
      assert StampsTurnForward(tr.Eff(t, j - 1), dispatchId);
      if tr.Eff(t, j - 1).Some? {
        TurnStampStep(tr.Rec(t, j - 1), tr.Eff(t, j - 1).value, dispatchId, stamp);
      }
    }
  }

  /**
    The same for the turn renewals of one dispatch, whichever owners they name and whatever owners come and go: of two
    that win, the later one saw a stamp of a strictly later second.
   */
  lemma TurnRenewalIsCompareAndSwap(tr: Trace, t: string, i: nat, j: nat, dispatchId: string)
    requires tr.Valid() && i < j < |tr.steps| && tr.Has(t, i)
    requires tr.Eff(t, i).Some? && tr.Eff(t, i).value.RenewTurn? && tr.Eff(t, i).value.turnDispatch == dispatchId
    requires tr.Eff(t, j).Some? && tr.Eff(t, j).value.RenewTurn? && tr.Eff(t, j).value.turnDispatch == dispatchId
    requires forall k | i <= k < j ::
               StampsTurnForward(tr.Eff(t, k), dispatchId) && !BringsBackDispatch(tr.Eff(t, k), dispatchId)
    ensures Later(StampSecond(tr.Eff(t, i).value.turnSeen), StampSecond(tr.Eff(t, j).value.turnSeen))
  {
    TraceStep(tr, t, i);
    assert StampsTurnForward(tr.Eff(t, i), dispatchId);
    TurnStampHolds(tr, t, i + 1, j, dispatchId, StampSecond(tr.Eff(t, i).value.turnSeen));
  }

  /**
    A winning turn renewal finds the dispatch it named, of the owner and generation it named, and changes nothing but
    that dispatch's stamp.
   */
  lemma TurnRenewalLandsOnItsDispatch(tr: Trace, t: string, k: nat)
    requires tr.Valid() && k < |tr.steps| && tr.Has(t, k)
    requires tr.Eff(t, k).Some? && tr.Eff(t, k).value.RenewTurn?
    ensures tr.Has(t, k + 1)
    ensures var e := tr.Eff(t, k).value; var c := tr.Rec(t, k); var d := tr.Rec(t, k + 1);
            && LiveOwner(c, e.turnOwner, e.turnGeneration)
            && c.owner.dispatch.id == Some(e.turnDispatch) == d.owner.dispatch.id
            && StampSecond(d.owner.dispatch.credentialsRenewedAt) == Some(e.turnRenewedAt / 1000)
            && d == c.(owner := c.owner.(dispatch := d.owner.dispatch))
            && d.owner.dispatch == c.owner.dispatch.(credentialsRenewedAt := d.owner.dispatch.credentialsRenewedAt)
  {
    TraceStep(tr, t, k);
  }
}
