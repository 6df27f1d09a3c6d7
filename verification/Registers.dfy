/**
  The monotone registers of the store: the last poll of an owner and the last sighting of an owner run. Deliveries may
  be delayed, repeated and reordered; the registers end at the maximum whatever the order.
 */
module Registers {
  import opened Options
  import opened Computers

  type WorkerKey = (string, string)

  datatype Worker = Worker(
    workerId: string,
    tenantId: string,
    costClass: string,
    capabilities: seq<string>,
    tokenHash: string,
    lastHeartbeatAt: Time,
    computerId: Option<string>,
    hydratedSnapshotGeneration: Option<int>,
    pollSequence: Option<int>,
    pollState: Option<string>,
    pollPaceMilliseconds: Option<int>)

  datatype Poll = Poll(sequence: int, state: string, at: Time, paceMilliseconds: int)

  function Polled(worker: Worker, poll: Poll): Worker {
    worker.(lastHeartbeatAt := poll.at, pollSequence := Some(poll.sequence), pollState := Some(poll.state),
            pollPaceMilliseconds := Some(poll.paceMilliseconds))
  }

  /** Recording one poll: refused when the worker is missing or a newer poll was recorded. */
  function RecordPoll(workers: map<WorkerKey, Worker>, key: WorkerKey, poll: Poll): Option<map<WorkerKey, Worker>> {
    if key !in workers || (workers[key].pollSequence.Some? && workers[key].pollSequence.value > poll.sequence) then None
    else Some(workers[key := Polled(workers[key], poll)])
  }

  /** The workers after a sequence of polls of any workers, in the order they arrive. */
  function PollRun(workers: map<WorkerKey, Worker>, polls: seq<(WorkerKey, Poll)>): map<WorkerKey, Worker> {
    if polls == [] then workers
    else
      var before := PollRun(workers, polls[..|polls| - 1]);
      var (key, poll) := polls[|polls| - 1];
      var next := RecordPoll(before, key, poll);
      if next.Some? then next.value else before
  }

  /** `i` is the last of the polls of `key` that present the largest sequence. */
  ghost predicate LastNewest(polls: seq<(WorkerKey, Poll)>, key: WorkerKey, i: nat) {
    && i < |polls| && polls[i].0 == key
    && (forall k | 0 <= k < i && polls[k].0 == key :: polls[k].1.sequence <= polls[i].1.sequence)
    && (forall k | i < k < |polls| && polls[k].0 == key :: polls[k].1.sequence < polls[i].1.sequence)
  }

  /** The worker took the poll at `i` last, and no presented poll is newer. */
  ghost predicate HoldsPoll(now: Worker, was: Worker, polls: seq<(WorkerKey, Poll)>, key: WorkerKey, i: nat) {
    && LastNewest(polls, key, i)
    && now.pollSequence == Some(polls[i].1.sequence) && now.pollState == Some(polls[i].1.state)
    && now.lastHeartbeatAt == polls[i].1.at && now.pollPaceMilliseconds == Some(polls[i].1.paceMilliseconds)
    && now == was.(lastHeartbeatAt := now.lastHeartbeatAt, pollSequence := now.pollSequence,
                   pollState := now.pollState, pollPaceMilliseconds := now.pollPaceMilliseconds)
    && (was.pollSequence.Some? ==> was.pollSequence.value <= polls[i].1.sequence)
  }

  /** The worker took no poll, because every presented poll is older than what it held. */
  ghost predicate HoldsInitial(now: Worker, was: Worker, polls: seq<(WorkerKey, Poll)>, key: WorkerKey) {
    now == was && forall k | 0 <= k < |polls| && polls[k].0 == key ::
      was.pollSequence.Some? && polls[k].1.sequence < was.pollSequence.value
  }

  lemma HoldsInitialStep(before: Worker, was: Worker, polls: seq<(WorkerKey, Poll)>, key: WorkerKey)
    requires polls != [] && HoldsInitial(before, was, polls[..|polls| - 1], key)
    ensures var (k, poll) := polls[|polls| - 1];
            var accepted := k == key && !(before.pollSequence.Some? && before.pollSequence.value > poll.sequence);
            if accepted then HoldsPoll(Polled(before, poll), was, polls, key, |polls| - 1)
            else HoldsInitial(before, was, polls, key)
  {
    var init := polls[..|polls| - 1];
    assert forall k | 0 <= k < |init| :: init[k] == polls[k];
  }

  lemma HoldsPollStep(before: Worker, was: Worker, polls: seq<(WorkerKey, Poll)>, key: WorkerKey, i: nat)
    requires polls != [] && HoldsPoll(before, was, polls[..|polls| - 1], key, i)
    ensures var (k, poll) := polls[|polls| - 1];
            var accepted := k == key && !(before.pollSequence.Some? && before.pollSequence.value > poll.sequence);
            if accepted then HoldsPoll(Polled(before, poll), was, polls, key, |polls| - 1)
            else HoldsPoll(before, was, polls, key, i)
  {
    var init := polls[..|polls| - 1];
    assert forall k | 0 <= k < |init| :: init[k] == polls[k];
  }

  /**
    After any sequence of polls, a worker holds exactly the newest poll: the largest sequence of the initial one and all
    presented ones, with the heartbeat, state and pace of the last poll that presented it.
   */
  lemma {:induction false} WorkerHoldsNewestPoll(workers: map<WorkerKey, Worker>, polls: seq<(WorkerKey, Poll)>,
                                                 key: WorkerKey)
    requires key in workers
    ensures key in PollRun(workers, polls)
    ensures var now := PollRun(workers, polls)[key];
            || HoldsInitial(now, workers[key], polls, key)
            || exists i: nat :: HoldsPoll(now, workers[key], polls, key, i)
  {
    if polls == [] {
    } else {
      var init := polls[..|polls| - 1];
      WorkerHoldsNewestPoll(workers, init, key);
      var before := PollRun(workers, init)[key];
      if HoldsInitial(before, workers[key], init, key) {
        HoldsInitialStep(before, workers[key], polls, key);
      } else {
        var i: nat :| HoldsPoll(before, workers[key], init, key, i);
        HoldsPollStep(before, workers[key], polls, key, i);
      }
    }
  }

  /** The largest sequence a worker can hold after the given polls. */
  ghost predicate IsMaximum(m: Option<int>, initial: Option<int>, polls: seq<(WorkerKey, Poll)>, key: WorkerKey) {
    && (initial.Some? ==> m.Some? && initial.value <= m.value)
    && (forall k | 0 <= k < |polls| && polls[k].0 == key :: m.Some? && polls[k].1.sequence <= m.value)
    && (m == initial || exists k | 0 <= k < |polls| :: polls[k].0 == key && m == Some(polls[k].1.sequence))
  }

  lemma PollSequenceIsMaximum(workers: map<WorkerKey, Worker>, polls: seq<(WorkerKey, Poll)>, key: WorkerKey)
    requires key in workers
    ensures key in PollRun(workers, polls)
    ensures IsMaximum(PollRun(workers, polls)[key].pollSequence, workers[key].pollSequence, polls, key)
  {
    WorkerHoldsNewestPoll(workers, polls, key);
  }

  /** The order of the polls does not matter for the sequence that is kept. */
  lemma PollOrderDoesNotMatter(workers: map<WorkerKey, Worker>, polls: seq<(WorkerKey, Poll)>,
                               reordered: seq<(WorkerKey, Poll)>, key: WorkerKey)
    requires key in workers && multiset(polls) == multiset(reordered)
    ensures key in PollRun(workers, polls) && key in PollRun(workers, reordered)
    ensures PollRun(workers, polls)[key].pollSequence == PollRun(workers, reordered)[key].pollSequence
  {
    PollSequenceIsMaximum(workers, polls, key);
    PollSequenceIsMaximum(workers, reordered, key);
    var a := PollRun(workers, polls)[key].pollSequence;
    var b := PollRun(workers, reordered)[key].pollSequence;
    NotAbove(a, b, workers[key].pollSequence, polls, reordered, key);
    NotAbove(b, a, workers[key].pollSequence, reordered, polls, key);
  }

  lemma NotAbove(a: Option<int>, b: Option<int>, initial: Option<int>, polls: seq<(WorkerKey, Poll)>,
                 others: seq<(WorkerKey, Poll)>, key: WorkerKey)
    requires IsMaximum(a, initial, polls, key) && IsMaximum(b, initial, others, key)
             && multiset(polls) == multiset(others)
    ensures a.Some? ==> b.Some? && a.value <= b.value
  {
    if a.Some? && a != initial {
      var k :| 0 <= k < |polls| && polls[k].0 == key && a == Some(polls[k].1.sequence);
      assert polls[k] in multiset(polls);
      assert polls[k] in others;
    }
  }

  // ----- Runtime segments -----

  type SegmentKey = (string, int)

  datatype Segment = Segment(tenantId: string, ownerGeneration: int, startedAt: Time, lastSeenAt: Time)

  datatype SegmentStep =
    | Open(openTenant: string, openGeneration: int, startedAt: Time)
    | Extend(tenantId: string, generation: int, seenAt: Time)

  function SegmentNext(segments: map<SegmentKey, Segment>, step: SegmentStep): map<SegmentKey, Segment> {
    match step
    case Open(t, g, startedAt) => segments[(t, g) := Segment(t, g, startedAt, startedAt)]
    case Extend(t, g, seenAt) =>
      if (t, g) !in segments || segments[(t, g)].lastSeenAt >= seenAt then segments
      else segments[(t, g) := segments[(t, g)].(lastSeenAt := seenAt)]
  }

  function SegmentRun(segments: map<SegmentKey, Segment>, steps: seq<SegmentStep>): map<SegmentKey, Segment> {
    if steps == [] then segments else SegmentNext(SegmentRun(segments, steps[..|steps| - 1]), steps[|steps| - 1])
  }

  predicate Extends(step: SegmentStep, key: SegmentKey) {
    step.Extend? && (step.tenantId, step.generation) == key
  }

  /**
    From one opening on, whatever runs are opened and extended in between, the last sighting of a run is the maximum of
    its start and all its extensions, and its start does not move.
   */
  lemma {:induction false} LastSeenIsMaximum(segments: map<SegmentKey, Segment>, steps: seq<SegmentStep>, t: string,
                                             g: int, startedAt: Time)
    requires forall k | 0 <= k < |steps| && steps[k].Open? :: (steps[k].openTenant, steps[k].openGeneration) != (t, g)
    ensures var now := SegmentRun(SegmentNext(segments, Open(t, g, startedAt)), steps);
            && (t, g) in now
            && now[(t, g)].tenantId == t && now[(t, g)].ownerGeneration == g && now[(t, g)].startedAt == startedAt
            && startedAt <= now[(t, g)].lastSeenAt
            && (forall k | 0 <= k < |steps| && Extends(steps[k], (t, g)) :: steps[k].seenAt <= now[(t, g)].lastSeenAt)
            && (now[(t, g)].lastSeenAt == startedAt
                || exists k | 0 <= k < |steps| ::
                     Extends(steps[k], (t, g)) && steps[k].seenAt == now[(t, g)].lastSeenAt)
  {
    if steps == [] {
    } else {
      var n := |steps| - 1;
      LastSeenIsMaximum(segments, steps[..n], t, g, startedAt);
      assert steps[n].Open? ==> (steps[n].openTenant, steps[n].openGeneration) != (t, g);
      var before := SegmentRun(SegmentNext(segments, Open(t, g, startedAt)), steps[..n]);
      if !(Extends(steps[n], (t, g)) && before[(t, g)].lastSeenAt < steps[n].seenAt)
         && before[(t, g)].lastSeenAt != startedAt {
        var k :| 0 <= k < n && Extends(steps[..n][k], (t, g)) && steps[..n][k].seenAt == before[(t, g)].lastSeenAt;
        assert Extends(steps[k], (t, g));
      }
    }
  }
}
