/**
  The in-process delay queues on a fake clock. Whatever is sent, taken and drained, no message is lost or duplicated,
  and the pending messages keep the order they were sent in. A due-take never returns a message before its delay has
  passed; the other takes and the drain do not look at delays.
 */
module DelayQueues {
  import opened Options

  /** A message body. The queues never look into it. */
  type Body = string

  datatype Message = Message(body: Body, delaySeconds: Option<int>, enqueuedAt: int)

  /** The moment from which a message may be delivered. */
  function DueAt(m: Message): int {
    m.enqueuedAt + (if m.delaySeconds.Some? then m.delaySeconds.value else 0) * 1000
  }

  predicate IsDue(m: Message, now: int) {
    DueAt(m) <= now
  }

  type Queues = map<string, seq<Message>>

  function PendingOf(queues: Queues, queue: string): seq<Message> {
    if queue in queues then queues[queue] else []
  }

  /** The first place of a message with an accepted body, or the length. */
  function FirstAccepted(messages: seq<Message>, accepts: Body -> bool): (i: nat)
    ensures i <= |messages|
    ensures forall k | 0 <= k < i :: !accepts(messages[k].body)
    ensures i < |messages| ==> accepts(messages[i].body)
  {
    if messages == [] || accepts(messages[0].body) then 0 else 1 + FirstAccepted(messages[1..], accepts)
  }

  /** The first place of a due message, or the length. */
  function FirstDue(messages: seq<Message>, now: int): (i: nat)
    ensures i <= |messages|
    ensures forall k | 0 <= k < i :: !IsDue(messages[k], now)
    ensures i < |messages| ==> IsDue(messages[i], now)
  {
    if messages == [] || IsDue(messages[0], now) then 0 else 1 + FirstDue(messages[1..], now)
  }

  function RemoveAt(s: seq<Message>, i: nat): seq<Message>
    requires i < |s|
  {
    s[..i] + s[i + 1..]
  }

  // ----- The steps -----

  datatype World = World(now: int, queues: Queues)

  datatype QueueStep =
    | SendTo(queue: string, body: Body, delaySeconds: Option<int>)
    | TakeFrom(queue: string, accepts: Body -> bool)
    | TakeDueFrom(queue: string)
    | Advance(seconds: int)

  /** The messages a step puts in a queue. */
  function SentBy(w: World, step: QueueStep, queue: string): seq<Message> {
    if step.SendTo? && step.queue == queue then [Message(step.body, step.delaySeconds, w.now)] else []
  }

  /** The place in a queue that a step takes a message from; the length of the queue when it takes none. */
  function TakePlace(w: World, step: QueueStep, queue: string): (i: nat)
    ensures i <= |PendingOf(w.queues, queue)|
  {
    var pending := PendingOf(w.queues, queue);
    match step
    case TakeFrom(q, accepts) => if q == queue then FirstAccepted(pending, accepts) else |pending|
    case TakeDueFrom(q) => if q == queue then FirstDue(pending, w.now) else |pending|
    case _ => |pending|
  }

  /** The messages a step takes out of a queue and returns. */
  function TakenBy(w: World, step: QueueStep, queue: string): seq<Message> {
    var pending := PendingOf(w.queues, queue);
    var i := TakePlace(w, step, queue);
    if i < |pending| then [pending[i]] else []
  }

  /** What a step leaves in a queue. */
  function LeftBy(w: World, step: QueueStep, queue: string): seq<Message> {
    var pending := PendingOf(w.queues, queue);
    var i := TakePlace(w, step, queue);
    if i < |pending| then RemoveAt(pending, i)
    else if SentBy(w, step, queue) == [] then pending
    else pending + SentBy(w, step, queue)
  }

  function Next(w: World, step: QueueStep): World {
    match step
    case SendTo(queue, _, _) => w.(queues := w.queues[queue := LeftBy(w, step, queue)])
    case TakeFrom(queue, _) =>
      if TakenBy(w, step, queue) == [] then w else w.(queues := w.queues[queue := LeftBy(w, step, queue)])
    case TakeDueFrom(queue) =>
      if TakenBy(w, step, queue) == [] then w else w.(queues := w.queues[queue := LeftBy(w, step, queue)])
    case Advance(seconds) => w.(now := w.now + seconds * 1000)
  }

  /** Every step changes every queue by what it takes and what it sends. */
  lemma PendingAfter(w: World, step: QueueStep, queue: string)
    ensures PendingOf(Next(w, step).queues, queue) == LeftBy(w, step, queue)
  {
  }

  // ----- Draining -----

  function AfterSteps(w: World, steps: seq<QueueStep>): World {
    if steps == [] then w else Next(AfterSteps(w, steps[..|steps| - 1]), steps[|steps| - 1])
  }

  /** The first message of a queue, if there is one. */
  function First(w: World, queue: string): seq<Message> {
    var pending := PendingOf(w.queues, queue);
    if pending == [] then [] else [pending[0]]
  }

  /** The world without the first message of a queue. */
  function Shifted(w: World, queue: string): World {
    var pending := PendingOf(w.queues, queue);
    if pending == [] then w else w.(queues := w.queues[queue := pending[1..]])
  }

  /** The world after one call of a handler: the first message is taken, then the steps of the call take place. */
  function AfterCall(w: World, queue: string, call: seq<QueueStep>): World {
    AfterSteps(Shifted(w, queue), call)
  }

  /** The world after the first `k` calls of a script. */
  function DrainWorld(w: World, queue: string, script: seq<seq<QueueStep>>, k: nat): World
    requires k <= |script|
  {
    if k == 0 then w else AfterCall(DrainWorld(w, queue, script, k - 1), queue, script[k - 1])
  }

  /** The messages that the first `k` calls are given. */
  function DrainHandled(w: World, queue: string, script: seq<seq<QueueStep>>, k: nat): seq<Message>
    requires k <= |script|
  {
    if k == 0 then []
    else DrainHandled(w, queue, script, k - 1) + First(DrainWorld(w, queue, script, k - 1), queue)
  }

  // ----- The source's classes -----

  class FakeClock {
    var currentTime: int

    /**
      The default start is 2026-08-31T06:00:00Z: 56 years with 14 leap days after the epoch, seven months and 30 days
      into the year, six hours into the day.
     */
    constructor (startTime: Option<int>)
      ensures currentTime == if startTime.Some? then startTime.value
                             else ((56 * 365 + 14 + 31 + 28 + 31 + 30 + 31 + 30 + 31 + 30) * 24 + 6) * 3600 * 1000
    {
      currentTime := if startTime.Some? then startTime.value else 1788156000000;
    }

    function Now(): int
      reads this
    {
      currentTime
    }

    method AdvanceSeconds(n: int)
      modifies this
      ensures forall queues :: World(currentTime, queues) == Next(World(old(currentTime), queues), Advance(n))
    {
      currentTime := currentTime + n * 1000;
    }
  }

  class QueueRecorder {
    var queues: Queues
    const clock: FakeClock

    constructor (clock: FakeClock)
      ensures this.clock == clock && queues == map[]
    {
      this.clock := clock;
      queues := map[];
    }

    method Send(queue: string, body: Body, delaySeconds: Option<int>)
      modifies this`queues
      ensures World(clock.currentTime, queues)
                == Next(World(clock.currentTime, old(queues)), SendTo(queue, body, delaySeconds))
    {
      if queue !in queues {
        queues := queues[queue := []];
      }
      queues := queues[queue := queues[queue] + [Message(body, delaySeconds, clock.Now())]];
    }

    method Take(queue: string, accepts: Body -> bool) returns (r: Option<Message>)
      modifies this`queues
      ensures World(clock.currentTime, queues) == Next(World(clock.currentTime, old(queues)), TakeFrom(queue, accepts))
      ensures TakenBy(World(clock.currentTime, old(queues)), TakeFrom(queue, accepts), queue)
              == if r.Some? then [r.value] else []
    {
      var messages := if queue in queues then queues[queue] else [];
      var index := 0;
      while index < |messages| && !accepts(messages[index].body)
        invariant 0 <= index <= |messages|
        invariant forall k | 0 <= k < index :: !accepts(messages[k].body)
      {
        index := index + 1;
      }
      assert index == FirstAccepted(messages, accepts);
      if index == |messages| {
        return None;
      }
      queues := queues[queue := messages[..index] + messages[index + 1..]];
      r := Some(messages[index]);
    }

    method TakeDue(queue: string) returns (r: Option<Message>)
      modifies this`queues
      ensures World(clock.currentTime, queues) == Next(World(clock.currentTime, old(queues)), TakeDueFrom(queue))
      ensures TakenBy(World(clock.currentTime, old(queues)), TakeDueFrom(queue), queue)
              == if r.Some? then [r.value] else []
    {
      var now := clock.Now();
      var messages := if queue in queues then queues[queue] else [];
      var index := 0;
      while index < |messages| && !IsDue(messages[index], now)
        invariant 0 <= index <= |messages|
        invariant forall k | 0 <= k < index :: !IsDue(messages[k], now)
      {
        index := index + 1;
      }
      assert index == FirstDue(messages, now);
      if index == |messages| {
        return None;
      }
      queues := queues[queue := messages[..index] + messages[index + 1..]];
      r := Some(messages[index]);
    }

    /** What code that holds the recorder and the clock can do with them. */
    method Perform(step: QueueStep)
      modifies this`queues, clock
      ensures World(clock.currentTime, queues) == Next(World(old(clock.currentTime), old(queues)), step)
    {
      match step {
        case SendTo(queue, body, delaySeconds) => Send(queue, body, delaySeconds);
        case TakeFrom(queue, accepts) => var _ := Take(queue, accepts);
        case TakeDueFrom(queue) => var _ := TakeDue(queue);
        case Advance(seconds) => clock.AdvanceSeconds(seconds);
      }
    }

    method PerformAll(steps: seq<QueueStep>)
      modifies this`queues, clock
      ensures World(clock.currentTime, queues) == AfterSteps(World(old(clock.currentTime), old(queues)), steps)
    {
      for i := 0 to |steps|
        invariant World(clock.currentTime, queues) == AfterSteps(World(old(clock.currentTime), old(queues)), steps[..i])
      {
        assert steps[..i + 1][..i] == steps[..i];
        Perform(steps[i]);
      }
      assert steps[..|steps|] == steps;
    }

    /** One call of a handler. */
    method HandleNext(queue: string, call: seq<QueueStep>) returns (message: Message)
      requires PendingOf(queues, queue) != []
      modifies this`queues, clock
      ensures [message] == First(World(old(clock.currentTime), old(queues)), queue)
      ensures World(clock.currentTime, queues) == AfterCall(World(old(clock.currentTime), old(queues)), queue, call)
    {
      var messages := queues[queue];
      message := messages[0];
      queues := queues[queue := messages[1..]];
      PerformAll(call);
    }

    /**
      Drain with any handler: `script` lists, for the first calls of the handler, the steps that are taken on the
      recorder and the clock while that call is awaited. The drain is followed until the queue is empty or the script
      ends.
     */
    method Drain(queue: string, script: seq<seq<QueueStep>>) returns (handled: seq<Message>, finished: bool)
      modifies this`queues, clock
      ensures |handled| <= |script|
      ensures var start := World(old(clock.currentTime), old(queues));
              && handled == DrainHandled(start, queue, script, |handled|)
              && World(clock.currentTime, queues) == DrainWorld(start, queue, script, |handled|)
      ensures finished <==> PendingOf(queues, queue) == []
      ensures !finished ==> |handled| == |script|
    {
      ghost var start := World(clock.currentTime, queues);
      handled := [];
      while PendingOf(queues, queue) != [] && |handled| < |script|
        invariant |handled| <= |script|
        invariant handled == DrainHandled(start, queue, script, |handled|)
        invariant World(clock.currentTime, queues) == DrainWorld(start, queue, script, |handled|)
        decreases |script| - |handled|
      {
        var message := HandleNext(queue, script[|handled|]);
        handled := handled + [message];
      }
      finished := PendingOf(queues, queue) == [];
    }
  }

  // -------------------------------------------------------------------------------------------------------------------
  // Runs
  // -------------------------------------------------------------------------------------------------------------------

  datatype Trace = Trace(worlds: seq<World>, steps: seq<QueueStep>) {
    ghost predicate Valid() {
      && |worlds| == |steps| + 1
      && forall k | 0 <= k < |steps| :: worlds[k + 1] == Next(worlds[k], steps[k])
    }

    ghost function Pending(queue: string, k: nat): seq<Message>
      requires k < |worlds|
    {
      PendingOf(worlds[k].queues, queue)
    }

    /** What one queue sees of a run. */
    ghost function Of(queue: string): (h: History)
      requires Valid()
      ensures |h.pending| == |worlds| && |h.sent| == |h.taken| == |steps|
    {
      History(seq(|worlds|, k requires 0 <= k < |worlds| => Pending(queue, k)),
              seq(|steps|, k requires 0 <= k < |steps|
                && |worlds| == |steps| + 1 => SentBy(worlds[k], steps[k], queue)),
              seq(|steps|, k requires 0 <= k < |steps|
                && |worlds| == |steps| + 1 => TakenBy(worlds[k], steps[k], queue)))
    }
  }

  /** One queue through a run: what is pending before each step and at the end, and what each step sends and takes. */
  datatype History = History(pending: seq<seq<Message>>, sent: seq<seq<Message>>, taken: seq<seq<Message>>) {
    ghost predicate Shaped() {
      |pending| == |sent| + 1 && |sent| == |taken|
    }
  }

  /** The parts one after another. */
  ghost function Flat(parts: seq<seq<Message>>): seq<Message> {
    if parts == [] then [] else Flat(parts[..|parts| - 1]) + parts[|parts| - 1]
  }

  lemma FlatNext(parts: seq<seq<Message>>, k: nat)
    requires k < |parts|
    ensures Flat(parts[..k + 1]) == Flat(parts[..k]) + parts[k]
  {
    assert parts[..k + 1][..k] == parts[..k];
  }

  lemma TraceStep(tr: Trace, queue: string, k: nat)
    requires tr.Valid() && k < |tr.steps|
    ensures tr.Pending(queue, k + 1) == LeftBy(tr.worlds[k], tr.steps[k], queue)
  {
    PendingAfter(tr.worlds[k], tr.steps[k], queue);
  }

  // ----- Conservation -----

  lemma RemoveAtMultiset(s: seq<Message>, i: nat)
    requires i < |s|
    ensures multiset(RemoveAt(s, i)) + multiset{s[i]} == multiset(s)
  {
    assert s == s[..i] + [s[i]] + s[i + 1..];
  }

  lemma StepConserves(w: World, step: QueueStep, queue: string)
    ensures multiset(PendingOf(w.queues, queue)) + multiset(SentBy(w, step, queue))
            == multiset(TakenBy(w, step, queue)) + multiset(LeftBy(w, step, queue))
  {
    var pending := PendingOf(w.queues, queue);
    var i := TakePlace(w, step, queue);
    if i < |pending| {
      RemoveAtMultiset(pending, i);
    }
  }

  ghost predicate Balanced(before: seq<Message>, sent: seq<Message>, taken: seq<Message>, after: seq<Message>) {
    multiset(before) + multiset(sent) == multiset(taken) + multiset(after)
  }

  /** Two balances in a row are one balance. */
  lemma BalanceStep(p0: seq<Message>, sent: seq<Message>, taken: seq<Message>, p1: seq<Message>, s: seq<Message>,
                    t: seq<Message>, p2: seq<Message>)
    requires Balanced(p0, sent, taken, p1) && Balanced(p1, s, t, p2)
    ensures Balanced(p0, sent + s, taken + t, p2)
  {
    calc {
      multiset(p0) + multiset(sent + s);
      multiset(p0) + multiset(sent) + multiset(s);
      multiset(taken) + (multiset(p1) + multiset(s));
      multiset(taken) + multiset(t) + multiset(p2);
      multiset(taken + t) + multiset(p2);
    }
  }

  lemma {:induction false} BalancedHistory(h: History, k: nat)
    requires h.Shaped() && k < |h.pending|
    requires forall i | 0 <= i < |h.sent| :: Balanced(h.pending[i], h.sent[i], h.taken[i], h.pending[i + 1])
    ensures Balanced(h.pending[0], Flat(h.sent[..k]), Flat(h.taken[..k]), h.pending[k])
    decreases k
  {
    if k == 0 {
    } else {
      BalancedHistory(h, k - 1);
      BalanceStep(h.pending[0], Flat(h.sent[..k - 1]), Flat(h.taken[..k - 1]), h.pending[k - 1], h.sent[k - 1],
                  h.taken[k - 1],
                  h.pending[k]);
      FlatNext(h.sent, k - 1);
      FlatNext(h.taken, k - 1);
    }
  }

  /** Nothing is lost and nothing is duplicated: what was pending and sent is what was taken and is pending. */
  lemma MessagesAreConserved(tr: Trace, queue: string)
    requires tr.Valid()
    ensures var h := tr.Of(queue);
            multiset(tr.Pending(queue, 0)) + multiset(Flat(h.sent))
            == multiset(Flat(h.taken)) + multiset(tr.Pending(queue, |tr.steps|))
  {
    var h, n := tr.Of(queue), |tr.steps|;
    forall i | 0 <= i < n
      ensures Balanced(h.pending[i], h.sent[i], h.taken[i], h.pending[i + 1])
    {
      TraceStep(tr, queue, i);
      StepConserves(tr.worlds[i], tr.steps[i], queue);
    }
    BalancedHistory(h, n);
    assert h.sent[..n] == h.sent && h.taken[..n] == h.taken;
  }

  // ----- Order -----

  /** The elements of `a` stand in `b` at increasing places. */
  ghost predicate Embeds(places: seq<nat>, a: seq<Message>, b: seq<Message>) {
    && |places| == |a|
    && (forall i | 0 <= i < |a| :: places[i] < |b| && b[places[i]] == a[i])
    && (forall i, j | 0 <= i < j < |a| :: places[i] < places[j])
  }

  /** `a` is `b` with some elements left out. */
  ghost predicate Subsequence(a: seq<Message>, b: seq<Message>) {
    exists places :: Embeds(places, a, b)
  }

  lemma SubsequenceOfItself(a: seq<Message>)
    ensures Subsequence(a, a)
  {
    var places := seq(|a|, i requires 0 <= i < |a| => i as nat);
    assert Embeds(places, a, a);
  }

  lemma SubsequenceAppend(a: seq<Message>, b: seq<Message>, x: Message)
    requires Subsequence(a, b)
    ensures Subsequence(a + [x], b + [x])
  {
    var places: seq<nat> :| Embeds(places, a, b);
    var extended: seq<nat> := places + [|b|];
    assert Embeds(extended, a + [x], b + [x]);
  }

  lemma SubsequenceRemove(a: seq<Message>, b: seq<Message>, i: nat)
    requires Subsequence(a, b) && i < |a|
    ensures Subsequence(RemoveAt(a, i), b)
  {
    var places :| Embeds(places, a, b);
    var fewer := places[..i] + places[i + 1..];
    assert Embeds(fewer, RemoveAt(a, i), b);
  }

  /** A step takes one message out, or puts the sent ones at the end. */
  ghost predicate Shift(before: seq<Message>, sent: seq<Message>, after: seq<Message>) {
    || (sent == [] && exists i: nat | i < |before| :: after == RemoveAt(before, i))
    || (|sent| <= 1 && after == before + sent)
  }

  lemma EveryStepShifts(w: World, step: QueueStep, queue: string)
    ensures Shift(PendingOf(w.queues, queue), SentBy(w, step, queue), LeftBy(w, step, queue))
  {
    var pending, sent := PendingOf(w.queues, queue), SentBy(w, step, queue);
    if sent == [] {
      assert pending + sent == pending;
    }
  }

  lemma ShiftKeepsOrder(before: seq<Message>, sent: seq<Message>, after: seq<Message>, b: seq<Message>)
    requires Shift(before, sent, after) && Subsequence(before, b)
    ensures Subsequence(after, b + sent)
  {
    if |sent| == 1 {
      assert sent == [sent[0]];
      SubsequenceAppend(before, b, sent[0]);
    } else if after == before + sent {
      assert before + sent == before && b + sent == b;
    } else {
      var i: nat :| i < |before| && after == RemoveAt(before, i);
      SubsequenceRemove(before, b, i);
      assert b + sent == b;
    }
  }

  lemma {:induction false} OrderedHistory(h: History, k: nat)
    requires h.Shaped() && k < |h.pending|
    requires forall i | 0 <= i < |h.sent| :: Shift(h.pending[i], h.sent[i], h.pending[i + 1])
    ensures Subsequence(h.pending[k], h.pending[0] + Flat(h.sent[..k]))
    decreases k
  {
    var first := h.pending[0];
    if k == 0 {
      assert first + Flat(h.sent[..0]) == first;
      SubsequenceOfItself(first);
    } else {
      OrderedHistory(h, k - 1);
      assert Shift(h.pending[k - 1], h.sent[k - 1], h.pending[k - 1 + 1]);
      ShiftKeepsOrder(h.pending[k - 1], h.sent[k - 1], h.pending[k], first + Flat(h.sent[..k - 1]));
      FlatNext(h.sent, k - 1);
      assert first + Flat(h.sent[..k - 1]) + h.sent[k - 1] == first + (Flat(h.sent[..k - 1]) + h.sent[k - 1]);
    }
  }

  /** Pending messages keep the order they were sent in. */
  lemma PendingKeepsSendOrder(tr: Trace, queue: string)
    requires tr.Valid()
    ensures Subsequence(tr.Pending(queue, |tr.steps|), tr.Pending(queue, 0) + Flat(tr.Of(queue).sent))
  {
    var h, n := tr.Of(queue), |tr.steps|;
    forall i | 0 <= i < n
      ensures Shift(h.pending[i], h.sent[i], h.pending[i + 1])
    {
      TraceStep(tr, queue, i);
      EveryStepShifts(tr.worlds[i], tr.steps[i], queue);
    }
    OrderedHistory(h, n);
    assert h.sent[..n] == h.sent;
  }

  // ----- Delays -----

  /** The `i`-th step sends `m`, at the time of the clock. */
  ghost predicate Sends(tr: Trace, queue: string, m: Message, i: nat)
    requires tr.Valid() && i < |tr.steps|
  {
    tr.steps[i] == SendTo(queue, m.body, m.delaySeconds) && m.enqueuedAt == tr.worlds[i].now
  }

  /** The delay of a message, in seconds. */
  function DelayOf(m: Message): int {
    match m.delaySeconds case None => 0 case Some(seconds) => seconds
  }

  /** By how many seconds the clock was advanced in steps `i` up to, not including, `j`. */
  ghost function Elapsed(steps: seq<QueueStep>, i: nat, j: nat): int
    requires i <= j <= |steps|
    decreases j
  {
    if i == j then 0
    else Elapsed(steps, i, j - 1) + (if steps[j - 1].Advance? then steps[j - 1].seconds else 0)
  }

  /** The clock moves by the seconds it is advanced, and by nothing else. */
  lemma {:induction false} ClockFollows(tr: Trace, i: nat, j: nat)
    requires tr.Valid() && i <= j <= |tr.steps|
    ensures tr.worlds[j].now == tr.worlds[i].now + 1000 * Elapsed(tr.steps, i, j)
    decreases j
  {
    if i == j {
    } else {
      ClockFollows(tr, i, j - 1);
      assert tr.worlds[j - 1 + 1] == Next(tr.worlds[j - 1], tr.steps[j - 1]);
    }
  }

  /** A message that was sent is due exactly when the clock has been advanced by its delay since then. */
  lemma DueIffElapsed(tr: Trace, queue: string, m: Message, i: nat, j: nat)
    requires tr.Valid() && i <= j <= |tr.steps| && i < |tr.steps| && Sends(tr, queue, m, i)
    ensures IsDue(m, tr.worlds[j].now) <==> DelayOf(m) <= Elapsed(tr.steps, i, j)
  {
    ClockFollows(tr, i, j);
  }

  lemma StepSendsWhatIsNew(tr: Trace, queue: string, m: Message, i: nat)
    requires tr.Valid() && i < |tr.steps| && m in tr.Pending(queue, i + 1) && m !in tr.Pending(queue, i)
    ensures Sends(tr, queue, m, i)
  {
    TraceStep(tr, queue, i);
  }

  /** A pending message was there from the start or was sent by an earlier step. */
  lemma {:induction false} PendingWasSent(tr: Trace, queue: string, m: Message, j: nat)
    requires tr.Valid() && j <= |tr.steps| && m in tr.Pending(queue, j)
    ensures m in tr.Pending(queue, 0) || exists i: nat :: i < j && Sends(tr, queue, m, i)
    decreases j
  {
    if j == 0 {
    } else {
      if m in tr.Pending(queue, j - 1) {
        PendingWasSent(tr, queue, m, j - 1);
      } else {
        StepSendsWhatIsNew(tr, queue, m, j - 1);
      }
    }
  }

  /** A message of a queue whose delay has not passed. */
  predicate NotYet(m: Message, now: int) {
    now < m.enqueuedAt + 1000 * DelayOf(m)
  }

  /**
    No message is delivered early: a message that a due-take returns at step `j` was enqueued at least its delay before
    the clock of that step, the delay of no message before it in the queue has passed, and unless it was there from the
    start it was sent by an earlier step, since which the clock was advanced by at least its delay in seconds.
   */
  lemma NeverDeliveredEarly(tr: Trace, j: nat, m: Message)
    requires tr.Valid() && j < |tr.steps| && tr.steps[j].TakeDueFrom?
    requires TakenBy(tr.worlds[j], tr.steps[j], tr.steps[j].queue) == [m]
    ensures var now := tr.worlds[j].now; var queue := tr.steps[j].queue; var pending := tr.Pending(queue, j);
            && m.enqueuedAt + 1000 * DelayOf(m) <= now
            && (exists p | 0 <= p < |pending| :: pending[p] == m && forall k | 0 <= k < p :: NotYet(pending[k], now))
            && (m in tr.Pending(queue, 0)
                || exists i: nat :: i < j && Sends(tr, queue, m, i) && DelayOf(m) <= Elapsed(tr.steps, i, j))
  {
    var queue, now := tr.steps[j].queue, tr.worlds[j].now;
    var pending := tr.Pending(queue, j);
    var p := FirstDue(pending, now);
    assert pending[p] == m && forall k | 0 <= k < p :: NotYet(pending[k], now);
    PendingWasSent(tr, queue, m, j);
    if m !in tr.Pending(queue, 0) {
      var i: nat :| i < j && Sends(tr, queue, m, i);
      DueIffElapsed(tr, queue, m, i, j);
    }
  }

  /**
    And none is held back: a message that a step sent, and that no message whose delay has passed precedes in the queue,
    is what a due-take returns if and only if the clock was advanced by at least its delay in seconds since it was sent.
   */
  lemma ReturnedIffDelayHasPassed(tr: Trace, queue: string, i: nat, j: nat, m: Message, p: nat)
    requires tr.Valid() && i < j <= |tr.steps| && Sends(tr, queue, m, i)
    requires p < |tr.Pending(queue, j)| && tr.Pending(queue, j)[p] == m
    requires forall k | 0 <= k < p :: NotYet(tr.Pending(queue, j)[k], tr.worlds[j].now)
    ensures TakenBy(tr.worlds[j], TakeDueFrom(queue), queue) == [m] <==> DelayOf(m) <= Elapsed(tr.steps, i, j)
  {
    DueIffElapsed(tr, queue, m, i, j);
    FirstDueIsTaken(tr.worlds[j], queue, tr.Pending(queue, j), m, p);
  }

  lemma FirstDueIsTaken(w: World, queue: string, pending: seq<Message>, m: Message, p: nat)
    requires pending == PendingOf(w.queues, queue) && p < |pending| && pending[p] == m
    requires forall k | 0 <= k < p :: NotYet(pending[k], w.now)
    ensures TakenBy(w, TakeDueFrom(queue), queue) == [m] <==> IsDue(m, w.now)
  {
    assert forall k | 0 <= k < p :: !IsDue(pending[k], w.now);
    var first := FirstDue(pending, w.now);
    if IsDue(m, w.now) {
      assert first == p;
    }
  }

  // ----- Repeating the due-take -----

  function Due(messages: seq<Message>, now: int): seq<Message> {
    if messages == [] then []
    else (if IsDue(messages[0], now) then [messages[0]] else []) + Due(messages[1..], now)
  }

  function NotDue(messages: seq<Message>, now: int): seq<Message> {
    if messages == [] then []
    else (if IsDue(messages[0], now) then [] else [messages[0]]) + NotDue(messages[1..], now)
  }

  lemma {:induction false} NoneDue(messages: seq<Message>, now: int)
    requires FirstDue(messages, now) == |messages|
    ensures Due(messages, now) == [] && NotDue(messages, now) == messages
  {
    if messages == [] {
    } else {
      NoneDue(messages[1..], now);
    }
  }

  lemma {:induction false} NoneDueAllStay(messages: seq<Message>, now: int)
    requires Due(messages, now) == []
    ensures NotDue(messages, now) == messages
  {
    if messages == [] {
    } else {
      NoneDueAllStay(messages[1..], now);
    }
  }

  lemma DueCons(m: Message, rest: seq<Message>, now: int)
    ensures Due([m] + rest, now) == (if IsDue(m, now) then [m] else []) + Due(rest, now)
    ensures NotDue([m] + rest, now) == (if IsDue(m, now) then [] else [m]) + NotDue(rest, now)
  {
    assert ([m] + rest)[1..] == rest;
  }

  /**
    Taking out a due message that no due one precedes takes the head of the due ones and leaves the others as they are.
   */
  lemma {:induction false} TakeFirstDue(before: seq<Message>, m: Message, after: seq<Message>, now: int)
    requires IsDue(m, now) && forall k | 0 <= k < |before| :: !IsDue(before[k], now)
    ensures Due(before + [m] + after, now) == [m] + Due(before + after, now)
    ensures NotDue(before + [m] + after, now) == NotDue(before + after, now)
  {
    if before == [] {
      assert before + [m] + after == [m] + after && before + after == after;
      DueCons(m, after, now);
    } else {
      var x, rest := before[0], before[1..];
      TakeFirstDue(rest, m, after, now);
      assert before + [m] + after == [x] + (rest + [m] + after) && before + after == [x] + (rest + after);
      DueCons(x, rest + [m] + after, now);
      DueCons(x, rest + after, now);
    }
  }

  /** One due-take, in terms of the due messages of its queue. */
  lemma DueTakeStep(w: World, queue: string)
    ensures var pending := PendingOf(w.queues, queue); var left := LeftBy(w, TakeDueFrom(queue), queue);
            && NotDue(left, w.now) == NotDue(pending, w.now)
            && Due(pending, w.now) == TakenBy(w, TakeDueFrom(queue), queue) + Due(left, w.now)
            && |TakenBy(w, TakeDueFrom(queue), queue)| == (if Due(pending, w.now) == [] then 0 else 1)
            && (Due(pending, w.now) == [] ==> left == pending == NotDue(pending, w.now))
  {
    var pending := PendingOf(w.queues, queue);
    var i := FirstDue(pending, w.now);
    if i < |pending| {
      TakeFirstDue(pending[..i], pending[i], pending[i + 1..], w.now);
      assert pending[..i] + [pending[i]] + pending[i + 1..] == pending;
    } else {
      NoneDue(pending, w.now);
    }
  }

  /** A run that only repeats the due-take on one queue, at a fixed clock. */
  ghost predicate OnlyDueTakes(tr: Trace, queue: string) {
    tr.Valid() && forall k | 0 <= k < |tr.steps| :: tr.steps[k] == TakeDueFrom(queue)
  }

  /** What one due-take at the moment `now` does to a queue. */
  ghost predicate Delivers(before: seq<Message>, taken: seq<Message>, after: seq<Message>, now: int) {
    && Due(before, now) == taken + Due(after, now)
    && NotDue(after, now) == NotDue(before, now)
    && |taken| == (if Due(before, now) == [] then 0 else 1)
  }

  /** A list that gives up its first elements, at most one at a time, until it is empty. */
  ghost predicate Consumed(lists: seq<seq<Message>>, taken: seq<seq<Message>>) {
    && |lists| == |taken| + 1
    && forall i | 0 <= i < |taken| ::
         lists[i] == taken[i] + lists[i + 1] && |taken[i]| == (if lists[i] == [] then 0 else 1)
  }

  lemma {:induction false} ConsumedSoFar(lists: seq<seq<Message>>, taken: seq<seq<Message>>, k: nat)
    requires Consumed(lists, taken) && k < |lists|
    ensures lists[0] == Flat(taken[..k]) + lists[k]
    ensures |Flat(taken[..k])| == (if k <= |lists[0]| then k else |lists[0]|)
    decreases k
  {
    if k == 0 {
    } else {
      ConsumedSoFar(lists, taken, k - 1);
      FlatNext(taken, k - 1);
      assert lists[k - 1] == taken[k - 1] + lists[k - 1 + 1];
      DeliveryStep(lists[0], Flat(taken[..k - 1]), lists[k - 1], taken[k - 1], lists[k], k - 1);
    }
  }

  /** Delivering one more of the due messages. */
  lemma DeliveryStep(all: seq<Message>, taken: seq<Message>, due: seq<Message>, t: seq<Message>, rest: seq<Message>,
                     k: nat)
    requires all == taken + due && due == t + rest && |t| == (if due == [] then 0 else 1)
    requires |taken| == (if k <= |all| then k else |all|)
    ensures all == (taken + t) + rest && |taken + t| == (if k + 1 <= |all| then k + 1 else |all|)
  {
  }

  lemma {:induction false} NotDueStays(h: History, now: int, k: nat)
    requires h.Shaped() && k < |h.pending|
    requires forall i | 0 <= i < |h.taken| :: Delivers(h.pending[i], h.taken[i], h.pending[i + 1], now)
    ensures NotDue(h.pending[k], now) == NotDue(h.pending[0], now)
    decreases k
  {
    if k == 0 {
    } else {
      NotDueStays(h, now, k - 1);
      assert Delivers(h.pending[k - 1], h.taken[k - 1], h.pending[k - 1 + 1], now);
    }
  }

  lemma DeliveredHistory(h: History, now: int, k: nat)
    requires h.Shaped() && k < |h.pending|
    requires forall i | 0 <= i < |h.taken| :: Delivers(h.pending[i], h.taken[i], h.pending[i + 1], now)
    ensures Due(h.pending[0], now) == Flat(h.taken[..k]) + Due(h.pending[k], now)
    ensures NotDue(h.pending[k], now) == NotDue(h.pending[0], now)
    ensures |Flat(h.taken[..k])| == (if k <= |Due(h.pending[0], now)| then k else |Due(h.pending[0], now)|)
  {
    var due := seq(|h.pending|, i requires 0 <= i < |h.pending| => Due(h.pending[i], now));
    assert Consumed(due, h.taken) by {
      forall i | 0 <= i < |h.taken|
        ensures due[i] == h.taken[i] + due[i + 1] && |h.taken[i]| == (if due[i] == [] then 0 else 1)
      {
        assert Delivers(h.pending[i], h.taken[i], h.pending[i + 1], now);
      }
    }
    ConsumedSoFar(due, h.taken, k);
    NotDueStays(h, now, k);
  }

  lemma {:induction false} ClockStandsStill(tr: Trace, queue: string, k: nat)
    requires OnlyDueTakes(tr, queue) && k <= |tr.steps|
    ensures tr.worlds[k].now == tr.worlds[0].now
    decreases k
  {
    if k == 0 {
    } else {
      ClockStandsStill(tr, queue, k - 1);
      assert tr.steps[k - 1] == TakeDueFrom(queue) && tr.worlds[k - 1 + 1] == Next(tr.worlds[k - 1], tr.steps[k - 1]);
    }
  }

  lemma DueTakesDeliver(tr: Trace, queue: string, i: nat)
    requires OnlyDueTakes(tr, queue) && i < |tr.steps|
    ensures var h := tr.Of(queue); Delivers(h.pending[i], h.taken[i], h.pending[i + 1], tr.worlds[0].now)
  {
    assert tr.steps[i] == TakeDueFrom(queue);
    TraceStep(tr, queue, i);
    DueTakeStep(tr.worlds[i], queue);
    ClockStandsStill(tr, queue, i);
  }

  /**
    Repeating the due-take at a fixed clock delivers exactly the due messages, in order, and then stops: the first takes
    return the due messages one by one; after them the queue holds exactly the messages that are not due, in order, and
    further takes return nothing and change nothing.
   */
  lemma DueTakesDeliverExactlyTheDue(tr: Trace, queue: string)
    requires OnlyDueTakes(tr, queue)
    ensures var now := tr.worlds[0].now; var n := |tr.steps|;
            var due := Due(tr.Pending(queue, 0), now); var left := tr.Pending(queue, n);
            && Flat(tr.Of(queue).taken) == due[..if n <= |due| then n else |due|]
            && NotDue(left, now) == NotDue(tr.Pending(queue, 0), now)
            && (n >= |due| ==> left == NotDue(tr.Pending(queue, 0), now))
  {
    var h, now, n := tr.Of(queue), tr.worlds[0].now, |tr.steps|;
    forall i | 0 <= i < n
      ensures Delivers(h.pending[i], h.taken[i], h.pending[i + 1], now)
    {
      DueTakesDeliver(tr, queue, i);
    }
    DeliveredHistory(h, now, n);
    assert h.taken[..n] == h.taken;
    if Due(h.pending[n], now) == [] {
      NoneDueAllStay(h.pending[n], now);
    }
  }

  // ----- What a drain does -----

  lemma OneMore(pending: seq<Message>, n: nat)
    requires n < |pending|
    ensures pending[..n] + [pending[n..][0]] == pending[..n + 1] && pending[n..][1..] == pending[n + 1..]
  {
  }

  /** A handler that leaves the recorder alone is given exactly the pending messages, in order. */
  lemma {:induction false} IdleHandlerGetsPending(w: World, queue: string, script: seq<seq<QueueStep>>, n: nat,
                                                  other: string)
    requires n <= |script| && n <= |PendingOf(w.queues, queue)| && other != queue
    requires forall k | 0 <= k < |script| :: script[k] == []
    ensures var pending := PendingOf(w.queues, queue); var after := DrainWorld(w, queue, script, n);
            && DrainHandled(w, queue, script, n) == pending[..n]
            && PendingOf(after.queues, queue) == pending[n..]
            && PendingOf(after.queues, other) == PendingOf(w.queues, other)
  {
    if n == 0 {
    } else {
      IdleHandlerGetsPending(w, queue, script, n - 1, other);
      OneMore(PendingOf(w.queues, queue), n - 1);
    }
  }

  predicate AnyBody(body: Body) {
    true
  }

  /** A shift is a take that accepts everything. */
  lemma ShiftIsTake(w: World, queue: string)
    ensures Next(w, TakeFrom(queue, AnyBody)) == Shifted(w, queue)
    ensures TakenBy(w, TakeFrom(queue, AnyBody), queue) == First(w, queue)
  {
    var pending := PendingOf(w.queues, queue);
    if pending != [] {
      assert FirstAccepted(pending, AnyBody) == 0;
      assert RemoveAt(pending, 0) == pending[1..];
    }
  }

  /** The steps of a drain: each call starts with a shift. */
  function DrainSteps(queue: string, script: seq<seq<QueueStep>>, k: nat): seq<QueueStep>
    requires k <= |script|
  {
    if k == 0 then [] else DrainSteps(queue, script, k - 1) + [TakeFrom(queue, AnyBody)] + script[k - 1]
  }

  lemma AfterStepsAppend(w: World, steps: seq<QueueStep>, step: QueueStep)
    ensures AfterSteps(w, steps + [step]) == Next(AfterSteps(w, steps), step)
  {
    assert (steps + [step])[..|steps|] == steps;
  }

  lemma {:induction false} AfterStepsConcat(w: World, a: seq<QueueStep>, b: seq<QueueStep>)
    ensures AfterSteps(w, a + b) == AfterSteps(AfterSteps(w, a), b)
    decreases |b|
  {
    if b == [] {
      assert a + b == a;
    } else {
      var init, last := b[..|b| - 1], b[|b| - 1];
      AfterStepsConcat(w, a, init);
      AfterStepsAppend(w, a + init, last);
      AfterStepsAppend(AfterSteps(w, a), init, last);
      assert init + [last] == b && a + init + [last] == a + b;
    }
  }

  lemma CallIsSteps(w: World, before: seq<QueueStep>, here: World, queue: string, call: seq<QueueStep>,
                    all: seq<QueueStep>)
    requires AfterSteps(w, before) == here && all == before + [TakeFrom(queue, AnyBody)] + call
    ensures AfterSteps(w, all) == AfterCall(here, queue, call)
  {
    var shift := TakeFrom(queue, AnyBody);
    AfterStepsConcat(w, before + [shift], call);
    AfterStepsAppend(w, before, shift);
    ShiftIsTake(here, queue);
  }

  /** A drain is a run of shifts and handler steps, so the run theorems hold of it. */
  lemma {:induction false} DrainIsRun(w: World, queue: string, script: seq<seq<QueueStep>>, k: nat)
    requires k <= |script|
    ensures DrainWorld(w, queue, script, k) == AfterSteps(w, DrainSteps(queue, script, k))
  {
    if k == 0 {
    } else {
      DrainIsRun(w, queue, script, k - 1);
      CallIsSteps(w, DrainSteps(queue, script, k - 1), DrainWorld(w, queue, script, k - 1), queue, script[k - 1],
                  DrainSteps(queue, script, k));
    }
  }

  /** The run of a list of steps. */
  ghost function RunOf(w: World, steps: seq<QueueStep>): Trace {
    Trace(seq(|steps| + 1, k requires 0 <= k <= |steps| => AfterSteps(w, steps[..k])), steps)
  }

  lemma RunOfIsValid(w: World, steps: seq<QueueStep>)
    ensures RunOf(w, steps).Valid()
    ensures RunOf(w, steps).worlds[0] == w && RunOf(w, steps).worlds[|steps|] == AfterSteps(w, steps)
  {
    forall k | 0 <= k < |steps|
      ensures AfterSteps(w, steps[..k + 1]) == Next(AfterSteps(w, steps[..k]), steps[k])
    {
      assert steps[..k + 1][..k] == steps[..k];
    }
    assert steps[..|steps|] == steps;
  }

  /** Whatever a handler sends and takes meanwhile, a drain loses no message and duplicates none, in any queue. */
  lemma DrainConserves(w: World, queue: string, script: seq<seq<QueueStep>>, k: nat, q: string)
    requires k <= |script|
    ensures var tr := RunOf(w, DrainSteps(queue, script, k));
            && tr.Valid()
            && multiset(PendingOf(w.queues, q)) + multiset(Flat(tr.Of(q).sent))
               == multiset(Flat(tr.Of(q).taken)) + multiset(PendingOf(DrainWorld(w, queue, script, k).queues, q))
  {
    var steps := DrainSteps(queue, script, k);
    RunOfIsValid(w, steps);
    DrainIsRun(w, queue, script, k);
    MessagesAreConserved(RunOf(w, steps), q);
  }
}
