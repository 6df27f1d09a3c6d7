/**
  Host starts over whole runs: who wins a generation, how often a start is handed to the driver, how often the bootstrap
  of a generation is exchanged, who writes the live disk, and what happens to the published snapshot.
 */
module HostStarts {
  import opened Options
  import opened Computers
  import opened StoreRuns
  import Fencing

  // ----- Claims -----

  /**
    Each generation is won by at most one claimant: of two claims that win in one run, the later one expected a strictly
    later generation.
   */
  lemma GenerationWonOnce(tr: Trace, t: string, i: nat, j: nat)
    requires tr.Valid() && i < j < |tr.steps| && tr.Has(t, i)
    requires tr.Eff(t, i).Some? && tr.Eff(t, i).value.ClaimGeneration?
    requires tr.Eff(t, j).Some? && tr.Eff(t, j).value.ClaimGeneration?
    ensures tr.Eff(t, i).value.expected < tr.Eff(t, j).value.expected
  {
    TraceStep(tr, t, i);
    Fencing.GenerationNeverFalls(tr, t, i + 1, j);
  }

  // ----- Dispatch marks -----

  /** Only a release of `g` takes a mark at or above `g` below it. */
  lemma MarkStep(c: Computer, e: RecordStep, g: int)
    requires Attempt(c, e).Some? && g <= c.host.dispatched && e != ReleaseDispatch(g)
    ensures g <= Attempt(c, e).value.host.dispatched
  {
  }

  lemma {:induction false} MarkHolds(tr: Trace, t: string, i: nat, j: nat, g: int)
    requires tr.Valid() && i <= j <= |tr.steps| && tr.Has(t, i) && g <= tr.Rec(t, i).host.dispatched
    requires forall k | i <= k < j :: tr.Eff(t, k) != Some(ReleaseDispatch(g))
    ensures tr.Has(t, j) && g <= tr.Rec(t, j).host.dispatched
    decreases j - i
  {
    if i == j {
    } else {
      MarkHolds(tr, t, i, j - 1, g);
      TraceStep(tr, t, j - 1);
      if tr.Eff(t, j - 1).Some? {
        MarkStep(tr.Rec(t, j - 1), tr.Eff(t, j - 1).value, g);
      }
    }
  }

  /**
    A start is handed to the driver once, and again only after it was given back: between two successful marks of one
    generation there is always a release of that generation that took effect.
   */
  lemma ReleaseBetweenMarks(tr: Trace, t: string, i: nat, j: nat, g: int)
    requires tr.Valid() && i < j < |tr.steps| && tr.Has(t, i)
    requires tr.Eff(t, i) == Some(MarkDispatched(g)) && tr.Eff(t, j) == Some(MarkDispatched(g))
    ensures exists k | i < k < j :: tr.Eff(t, k) == Some(ReleaseDispatch(g))
  {
    TraceStep(tr, t, i);
    if forall k | i < k < j :: tr.Eff(t, k) != Some(ReleaseDispatch(g)) {
      MarkHolds(tr, t, i + 1, j, g);
      assert false;
    }
  }

  // ----- Bootstrap exchanges -----

  /** The last owner generation is never cleared and never falls. */
  lemma OwnerGenerationStep(c: Computer, e: RecordStep, g: int)
    requires Attempt(c, e).Some? && c.ownerGeneration.Some? && g <= c.ownerGeneration.value
    ensures var next := Attempt(c, e).value; next.ownerGeneration.Some? && g <= next.ownerGeneration.value
  {
  }

  lemma {:induction false} OwnerGenerationHolds(tr: Trace, t: string, i: nat, j: nat, g: int)
    requires tr.Valid() && i <= j <= |tr.steps| && tr.Has(t, i)
    requires tr.Rec(t, i).ownerGeneration.Some? && g <= tr.Rec(t, i).ownerGeneration.value
    ensures tr.Has(t, j) && tr.Rec(t, j).ownerGeneration.Some? && g <= tr.Rec(t, j).ownerGeneration.value
    decreases j - i
  {
    if i == j {
    } else {
      OwnerGenerationHolds(tr, t, i, j - 1, g);
      TraceStep(tr, t, j - 1);
      if tr.Eff(t, j - 1).Some? {
        OwnerGenerationStep(tr.Rec(t, j - 1), tr.Eff(t, j - 1).value, g);
      }
    }
  }

  /**
    A bootstrap token is exchanged at most once, whatever stops, settles and claims happen in between: of two exchanges
    in one run, the later one is for a strictly later generation.
   */
  lemma BootstrapExchangedOnce(tr: Trace, t: string, i: nat, j: nat)
    requires tr.Valid() && i < j < |tr.steps| && tr.Has(t, i)
    requires tr.Eff(t, i).Some? && tr.Eff(t, i).value.ConsumeBootstrap?
    requires tr.Eff(t, j).Some? && tr.Eff(t, j).value.ConsumeBootstrap?
    ensures tr.Eff(t, i).value.bootGeneration < tr.Eff(t, j).value.bootGeneration
  {
    TraceStep(tr, t, i);
    OwnerGenerationHolds(tr, t, i + 1, j, tr.Eff(t, i).value.bootGeneration);
  }

  // ----- The disk writer -----

  predicate ClearsWriter(e: RecordStep) {
    e.ClaimGeneration? || e.SettleLost?
  }

  lemma WriterStep(c: Computer, e: RecordStep, host: string)
    requires Attempt(c, e).Some? && c.disk.liveWriterHostId == Some(host) && !ClearsWriter(e)
    ensures Attempt(c, e).value.disk.liveWriterHostId == Some(host)
  {
  }

  lemma {:induction false} WriterHolds(tr: Trace, t: string, i: nat, j: nat, host: string)
    requires tr.Valid() && i <= j <= |tr.steps| && tr.Has(t, i) && tr.Rec(t, i).disk.liveWriterHostId == Some(host)
    requires forall k | i <= k < j :: tr.Eff(t, k).None? || !ClearsWriter(tr.Eff(t, k).value)
    ensures tr.Has(t, j) && tr.Rec(t, j).disk.liveWriterHostId == Some(host)
    decreases j - i
  {
    if i == j {
    } else {
      WriterHolds(tr, t, i, j - 1, host);
      TraceStep(tr, t, j - 1);
      if tr.Eff(t, j - 1).Some? {
        WriterStep(tr.Rec(t, j - 1), tr.Eff(t, j - 1).value, host);
      }
    }
  }

  /** Between the steps that clear the writer, all successful writer claims are by one host. */
  lemma SingleDiskWriter(tr: Trace, t: string, i: nat, j: nat)
    requires tr.Valid() && i < j < |tr.steps| && tr.Has(t, i)
    requires tr.Eff(t, i).Some? && tr.Eff(t, i).value.ClaimWriter?
    requires tr.Eff(t, j).Some? && tr.Eff(t, j).value.ClaimWriter?
    requires forall k | i < k < j :: tr.Eff(t, k).None? || !ClearsWriter(tr.Eff(t, k).value)
    ensures tr.Eff(t, i).value.hostId == tr.Eff(t, j).value.hostId
  {
    TraceStep(tr, t, i);
    WriterHolds(tr, t, i + 1, j, tr.Eff(t, i).value.hostId);
  }

  /** The host of a writer claim that takes effect. */
  function ClaimedBy(effect: Option<RecordStep>): Option<string> {
    if effect.Some? && effect.value.ClaimWriter? then Some(effect.value.hostId) else None
  }

  /** How the recorded writer moves with a step that does not clear it. */
  predicate WriterMoves(was: Option<string>, now: Option<string>, effect: Option<RecordStep>) {
    if ClaimedBy(effect).Some? then was in {None, now} && now == ClaimedBy(effect) else now == was
  }

  lemma TraceWriterMoves(tr: Trace, t: string, k: nat)
    requires tr.Valid() && k < |tr.steps| && tr.Has(t, k)
    requires tr.Eff(t, k).None? || !ClearsWriter(tr.Eff(t, k).value)
    ensures tr.Has(t, k + 1)
    ensures WriterMoves(tr.Rec(t, k).disk.liveWriterHostId, tr.Rec(t, k + 1).disk.liveWriterHostId, tr.Eff(t, k))
  {
    TraceStep(tr, t, k);
  }

  /** All winning writer claims in steps `i` up to, not including, `j` are by `host`. */
  predicate ClaimedOnlyBy(effects: seq<Option<RecordStep>>, i: nat, j: nat, host: string)
    requires j <= |effects|
  {
    forall k | i <= k < j :: ClaimedBy(effects[k]) in {None, Some(host)}
  }

  lemma {:induction false} WriterHistory(writers: seq<Option<string>>, effects: seq<Option<RecordStep>>, i: nat,
                                         j: nat, host: string)
    requires i <= j <= |effects| && |writers| == |effects| + 1
    requires forall k | i <= k < j :: WriterMoves(writers[k], writers[k + 1], effects[k])
    ensures writers[j] in {None, Some(host)} <==>
              writers[i] in {None, Some(host)} && ClaimedOnlyBy(effects, i, j, host)
    decreases j
  {
    if i == j {
    } else {
      WriterHistory(writers, effects, i, j - 1, host);
      assert WriterMoves(writers[j - 1], writers[j - 1 + 1], effects[j - 1]);
      assert ClaimedOnlyBy(effects, i, j, host) <==>
               ClaimedOnlyBy(effects, i, j - 1, host) && ClaimedBy(effects[j - 1]) in {None, Some(host)};
    }
  }

  lemma WriterFree(c: Computer, host: string)
    ensures Attempt(c, ClaimWriter(host)).Some? <==> c.disk.liveWriterHostId in {None, Some(host)}
  {
    var writer := c.disk.liveWriterHostId;
    if writer.Some? && writer.value == host {
      assert writer == Some(host);
    }
  }

  /** The writer of `t` in every state; none where `t` has no record. */
  ghost function Writers(tr: Trace, t: string): seq<Option<string>> {
    seq(|tr.states|, k requires 0 <= k < |tr.states| =>
      if tr.Has(t, k) then tr.Rec(t, k).disk.liveWriterHostId else None)
  }

  /**
    Exactly when a writer claim wins, whatever host makes it and whatever generation that host was started for: since a
    state `i` after which no step cleared the writer, the writer was free or the host's own, and no other host's claim
    won.
   */
  lemma WriterClaimWinsIff(tr: Trace, t: string, i: nat, j: nat, host: string)
    requires tr.Valid() && i <= j <= |tr.steps| && tr.Has(t, i)
    requires forall k | i <= k < j :: tr.Eff(t, k).None? || !ClearsWriter(tr.Eff(t, k).value)
    ensures tr.Has(t, j)
    ensures Attempt(tr.Rec(t, j), ClaimWriter(host)).Some? <==>
              && tr.Rec(t, i).disk.liveWriterHostId in {None, Some(host)}
              && ClaimedOnlyBy(tr.Effects(t), i, j, host)
  {
    var writers, effects := Writers(tr, t), tr.Effects(t);
    forall k | i <= k < j
      ensures WriterMoves(writers[k], writers[k + 1], effects[k])
    {
      RecordStays(tr, t, i, k);
      TraceWriterMoves(tr, t, k);
    }
    RecordStays(tr, t, i, j);
    WriterHistory(writers, effects, i, j, host);
    WriterFree(tr.Rec(t, j), host);
    assert writers[j] == tr.Rec(t, j).disk.liveWriterHostId && writers[i] == tr.Rec(t, i).disk.liveWriterHostId;
  }

  // ----- The published snapshot -----

  predicate DropsHydration(e: RecordStep) {
    e.Hydrated? || (e.SettleLost? && !e.requireHydrate)
  }

  predicate SameSnapshot(c: Computer, d: Computer) {
    c.disk.snapshotUri == d.disk.snapshotUri && c.disk.snapshotChecksum == d.disk.snapshotChecksum
    && c.disk.snapshotGeneration == d.disk.snapshotGeneration
  }

  lemma ProtectedStep(c: Computer, e: RecordStep)
    requires Attempt(c, e).Some? && c.disk.hydrateRequired && !DropsHydration(e)
    ensures Attempt(c, e).value.disk.hydrateRequired && SameSnapshot(Attempt(c, e).value, c)
  {
  }

  lemma {:induction false} HydrationHolds(tr: Trace, t: string, i: nat, j: nat)
    requires tr.Valid() && i <= j <= |tr.steps| && tr.Has(t, i) && tr.Rec(t, i).disk.hydrateRequired
    requires forall k | i <= k < j :: tr.Eff(t, k).None? || !DropsHydration(tr.Eff(t, k).value)
    ensures tr.Has(t, j) && tr.Rec(t, j).disk.hydrateRequired && SameSnapshot(tr.Rec(t, j), tr.Rec(t, i))
    decreases j - i
  {
    if i == j {
    } else {
      HydrationHolds(tr, t, i, j - 1);
      TraceStep(tr, t, j - 1);
      if tr.Eff(t, j - 1).Some? {
        ProtectedStep(tr.Rec(t, j - 1), tr.Eff(t, j - 1).value);
      }
    }
  }

  /**
    After a settle that requires hydration, the published snapshot is exactly the one before the settle, and every
    publish is refused, until a hydrate or a later settle that drops the requirement.
   */
  lemma SnapshotProtectedUntilHydrated(tr: Trace, t: string, i: nat, j: nat, uri: string, checksum: string)
    requires tr.Valid() && i < j <= |tr.steps| && tr.Has(t, i)
    requires tr.Eff(t, i).Some? && tr.Eff(t, i).value.SettleLost? && tr.Eff(t, i).value.requireHydrate
    requires forall k | i < k < j :: tr.Eff(t, k).None? || !DropsHydration(tr.Eff(t, k).value)
    ensures tr.Has(t, j) && SameSnapshot(tr.Rec(t, j), tr.Rec(t, i))
    ensures Attempt(tr.Rec(t, j), PublishSnapshot(uri, checksum)).None?
  {
    TraceStep(tr, t, i);
    HydrationHolds(tr, t, i + 1, j);
  }

  /** The URI and checksum of a publish that takes effect. */
  function PublishedBy(effect: Option<RecordStep>): seq<(string, string)> {
    if effect.Some? && effect.value.PublishSnapshot? then [(effect.value.uri, effect.value.checksum)] else []
  }

  /** The publishes that took effect in steps `i` up to, not including, `j`. */
  function Publishes(effects: seq<Option<RecordStep>>, i: nat, j: nat): seq<(string, string)>
    requires i <= j <= |effects|
    decreases j
  {
    if i == j then [] else Publishes(effects, i, j - 1) + PublishedBy(effects[j - 1])
  }

  /** `now` holds the snapshot of `c` after a list of publishes: the last one, counted from the generation of `c`. */
  ghost predicate SnapshotIs(now: Disk, c: Disk, publishes: seq<(string, string)>) {
    && now.snapshotGeneration == c.snapshotGeneration + |publishes|
    && now.snapshotUri == (if publishes == [] then c.snapshotUri else Some(publishes[|publishes| - 1].0))
    && now.snapshotChecksum == (if publishes == [] then c.snapshotChecksum else Some(publishes[|publishes| - 1].1))
  }

  lemma SnapshotStep(c: Computer, e: RecordStep)
    requires Attempt(c, e).Some?
    ensures SnapshotIs(Attempt(c, e).value.disk, c.disk, PublishedBy(Some(e)))
  {
  }

  lemma TraceSnapshotStep(tr: Trace, t: string, k: nat)
    requires tr.Valid() && k < |tr.steps| && tr.Has(t, k)
    ensures tr.Has(t, k + 1) && SnapshotIs(tr.Rec(t, k + 1).disk, tr.Rec(t, k).disk, PublishedBy(tr.Eff(t, k)))
  {
    TraceStep(tr, t, k);
    if tr.Eff(t, k).Some? {
      SnapshotStep(tr.Rec(t, k), tr.Eff(t, k).value);
    }
  }

  /** Publishes one after another. */
  lemma SnapshotIsTransitive(d: Disk, c: Disk, b: Disk, first: seq<(string, string)>, second: seq<(string, string)>)
    requires SnapshotIs(c, b, first) && SnapshotIs(d, c, second)
    ensures SnapshotIs(d, b, first + second)
  {
  }

  lemma {:induction false} SnapshotHistory(disks: seq<Disk>, effects: seq<Option<RecordStep>>, i: nat, j: nat)
    requires i <= j <= |effects| && |disks| == |effects| + 1
    requires forall k | i <= k < j :: SnapshotIs(disks[k + 1], disks[k], PublishedBy(effects[k]))
    ensures SnapshotIs(disks[j], disks[i], Publishes(effects, i, j))
    decreases j
  {
    if i == j {
    } else {
      SnapshotHistory(disks, effects, i, j - 1);
      var before, more := Publishes(effects, i, j - 1), PublishedBy(effects[j - 1]);
      assert SnapshotIs(disks[j - 1 + 1], disks[j - 1], more);
      SnapshotIsTransitive(disks[j], disks[j - 1], disks[i], before, more);
    }
  }

  /** The disk of `t` in every state; an empty one where `t` has no record. */
  ghost function Disks(tr: Trace, t: string): seq<Disk> {
    seq(|tr.states|, k requires 0 <= k < |tr.states| =>
      if tr.Has(t, k) then tr.Rec(t, k).disk else Disk(0, None, None, false, false, None, None))
  }

  /**
    The snapshot generation rises by exactly the number of publishes that took effect, and the recorded URI and checksum
    are those of the last of them, whatever other steps ran in between.
   */
  lemma SnapshotCountsPublishes(tr: Trace, t: string, i: nat, j: nat)
    requires tr.Valid() && i <= j <= |tr.steps| && tr.Has(t, i)
    ensures tr.Has(t, j)
    ensures SnapshotIs(tr.Rec(t, j).disk, tr.Rec(t, i).disk, Publishes(tr.Effects(t), i, j))
  {
    var disks, effects := Disks(tr, t), tr.Effects(t);
    forall k | i <= k < j
      ensures SnapshotIs(disks[k + 1], disks[k], PublishedBy(effects[k]))
    {
      RecordStays(tr, t, i, k);
      TraceSnapshotStep(tr, t, k);
    }
    RecordStays(tr, t, i, j);
    SnapshotHistory(disks, effects, i, j);
  }

  /** What a step says about the hydration the record waits for. */
  function HydrationBy(effect: Option<RecordStep>): Option<bool> {
    if effect.None? then None
    else if effect.value.SettleLost? then Some(effect.value.requireHydrate)
    else if effect.value.Hydrated? then Some(false)
    else None
  }

  /** The last word on it in steps `i` up to, not including, `j`. */
  function LastHydration(effects: seq<Option<RecordStep>>, i: nat, j: nat, initial: bool): bool
    requires i <= j <= |effects|
    decreases j
  {
    if i == j then initial
    else if HydrationBy(effects[j - 1]).Some? then HydrationBy(effects[j - 1]).value
    else LastHydration(effects, i, j - 1, initial)
  }

  lemma TraceHydration(tr: Trace, t: string, k: nat)
    requires tr.Valid() && k < |tr.steps| && tr.Has(t, k)
    ensures tr.Has(t, k + 1)
    ensures var said := HydrationBy(tr.Eff(t, k));
            tr.Rec(t, k + 1).disk.hydrateRequired
            == (if said.Some? then said.value else tr.Rec(t, k).disk.hydrateRequired)
  {
    TraceStep(tr, t, k);
  }

  lemma {:induction false} HydrationHistory(disks: seq<Disk>, effects: seq<Option<RecordStep>>, i: nat, j: nat)
    requires i <= j <= |effects| && |disks| == |effects| + 1
    requires forall k | i <= k < j ::
               var said := HydrationBy(effects[k]);
               disks[k + 1].hydrateRequired == (if said.Some? then said.value else disks[k].hydrateRequired)
    ensures disks[j].hydrateRequired == LastHydration(effects, i, j, disks[i].hydrateRequired)
    decreases j
  {
    if i == j {
    } else {
      HydrationHistory(disks, effects, i, j - 1);
      assert disks[j - 1 + 1].hydrateRequired
             == (if HydrationBy(effects[j - 1]).Some? then HydrationBy(effects[j - 1]).value
                 else disks[j - 1].hydrateRequired);
    }
  }

  /**
    Exactly when a publish wins, whoever makes it: when the last settle or hydrate since any earlier state, or that
    state if there was none, does not require a hydration.
   */
  lemma PublishWinsIff(tr: Trace, t: string, i: nat, j: nat, uri: string, checksum: string)
    requires tr.Valid() && i <= j <= |tr.steps| && tr.Has(t, i)
    ensures tr.Has(t, j)
    ensures Attempt(tr.Rec(t, j), PublishSnapshot(uri, checksum)).Some? <==>
              !LastHydration(tr.Effects(t), i, j, tr.Rec(t, i).disk.hydrateRequired)
  {
    var disks, effects := Disks(tr, t), tr.Effects(t);
    forall k | i <= k < j
      ensures var said := HydrationBy(effects[k]);
              disks[k + 1].hydrateRequired == (if said.Some? then said.value else disks[k].hydrateRequired)
    {
      RecordStays(tr, t, i, k);
      TraceHydration(tr, t, k);
    }
    RecordStays(tr, t, i, j);
    HydrationHistory(disks, effects, i, j);
  }
}
