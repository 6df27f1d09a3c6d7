/**
  The fixed-window rate counter: calls are counted per user, counter name and window bucket. The model proves what the
  answer means and the bound a caller that refuses counts above a limit really gets for an arbitrary span of one window.
 */
module RateLimits {
  import opened Computers

  datatype Call = Call(userId: string, name: string, at: Time, windowSeconds: int)

  /** What a quotient of floating-point numbers rounded down can be: a window of no seconds divides by zero. */
  datatype WindowIndex = At(index: int) | Infinity | MinusInfinity | NotANumber

  /** The window a second falls in. Dividing by a negative number rounds down too. */
  function WindowOf(second: int, windowSeconds: int): WindowIndex {
    if windowSeconds > 0 then At(second / windowSeconds)
    else if windowSeconds < 0 then At(-second / -windowSeconds)
    else if second > 0 then Infinity
    else if second < 0 then MinusInfinity
    else NotANumber
  }

  type Bucket = (string, string, WindowIndex)

  function BucketOf(call: Call): Bucket {
    (call.userId, call.name, WindowOf(call.at / 1000, call.windowSeconds))
  }

  /** The window in seconds that organization creation is counted by. */
  function CreationWindowSeconds(windowMilliseconds: int): (seconds: int)
    ensures 0 < seconds
    ensures windowMilliseconds < 1000 ==> seconds == 1
    ensures 1000 <= windowMilliseconds ==> windowMilliseconds - 1000 < seconds * 1000 <= windowMilliseconds
  {
    if windowMilliseconds / 1000 < 1 then 1 else windowMilliseconds / 1000
  }

  /** What one call answers, given the counters so far. */
  function Answer(counters: map<Bucket, nat>, bucket: Bucket): nat {
    (if bucket in counters then counters[bucket] else 0) + 1
  }

  /** The counters after a sequence of calls, from an empty store. */
  ghost function Counters(calls: seq<Call>): map<Bucket, nat>
  {
    if calls == [] then map[]
    else
      var before := Counters(calls[..|calls| - 1]);
      var bucket := BucketOf(calls[|calls| - 1]);
      before[bucket := Answer(before, bucket)]
  }

  /** The answer the `i`-th call of a run gets. */
  ghost function AnswerAt(calls: seq<Call>, i: nat): nat
    requires i < |calls|
  {
    Answer(Counters(calls[..i]), BucketOf(calls[i]))
  }

  /** The earlier calls that fall in a bucket. */
  ghost function Earlier(calls: seq<Call>, i: nat, bucket: Bucket): set<nat>
    requires i <= |calls|
  {
    set k: nat | k < i && BucketOf(calls[k]) == bucket
  }

  lemma {:induction false} CountersCount(calls: seq<Call>, i: nat, bucket: Bucket)
    requires i <= |calls|
    ensures var counters := Counters(calls[..i]);
            (if bucket in counters then counters[bucket] else 0) == |Earlier(calls, i, bucket)|
    decreases i
  {
    if i == 0 {
    } else {
      CountersCount(calls, i - 1, bucket);
      assert calls[..i][..i - 1] == calls[..i - 1];
      if BucketOf(calls[i - 1]) == bucket {
        assert Earlier(calls, i, bucket) == Earlier(calls, i - 1, bucket) + {i - 1};
      } else {
        assert Earlier(calls, i, bucket) == Earlier(calls, i - 1, bucket);
      }
    }
  }

  /** The answer is one more than the number of earlier calls in the same bucket. */
  lemma AnswerCountsEarlierCalls(calls: seq<Call>, i: nat)
    requires i < |calls|
    ensures AnswerAt(calls, i) == 1 + |Earlier(calls, i, BucketOf(calls[i]))|
  {
    CountersCount(calls, i, BucketOf(calls[i]));
  }

  lemma AnswersGrow(calls: seq<Call>, i: nat, j: nat)
    requires i < j < |calls| && BucketOf(calls[i]) == BucketOf(calls[j])
    ensures AnswerAt(calls, i) < AnswerAt(calls, j)
  {
    AnswerCountsEarlierCalls(calls, i);
    AnswerCountsEarlierCalls(calls, j);
    var bucket := BucketOf(calls[i]);
    SubsetIsSmaller(Earlier(calls, i, bucket) + {i}, Earlier(calls, j, bucket));
  }

  lemma {:induction false} SubsetIsSmaller(a: set<nat>, b: set<nat>)
    requires a <= b
    ensures |a| <= |b|
  {
    if a == {} {
    } else {
      var x :| x in a;
      SubsetIsSmaller(a - {x}, b - {x});
    }
  }

  /** Calls of one bucket that are answered at most `limit` are at most `limit` many. */
  lemma {:induction false} AtMostLimitPerBucket(calls: seq<Call>, chosen: set<nat>, bucket: Bucket, limit: nat)
    requires forall i | i in chosen :: i < |calls| && BucketOf(calls[i]) == bucket && AnswerAt(calls, i) <= limit
    ensures |chosen| <= limit
    decreases limit
  {
    if limit == 0 {
      if i :| i in chosen {
        assert AnswerAt(calls, i) <= limit;
      }
    } else if i :| i in chosen && AnswerAt(calls, i) == limit {
      forall k | k in chosen - {i}
        ensures AnswerAt(calls, k) <= limit - 1
      {
        if k < i {
          AnswersGrow(calls, k, i);
        } else {
          AnswersGrow(calls, i, k);
        }
      }
      AtMostLimitPerBucket(calls, chosen - {i}, bucket, limit - 1);
    } else {
      AtMostLimitPerBucket(calls, chosen, bucket, limit - 1);
    }
  }

  /** Two moments less than `w` seconds apart fall in the same window or in neighbouring ones. */
  lemma NeighbouringWindows(a: int, b: int, w: int)
    requires w != 0 && a <= b < a + 1000 * Abs(w)
    ensures var first := WindowOf(a / 1000, w); WindowOf(b / 1000, w) in {first, Neighbour(first, w)}
  {
    SecondsBetween(a, b, Abs(w));
    if w > 0 {
      WindowAfter(a / 1000, b / 1000, w);
    } else {
      WindowBefore(a / 1000, b / 1000, -w);
    }
  }

  lemma WindowAfter(s: int, u: int, d: int)
    requires 0 < d && s <= u <= s + d
    ensures WindowOf(u, d) in {WindowOf(s, d), Neighbour(WindowOf(s, d), d)}
  {
    QuotientSteps(s, u, d);
  }

  lemma WindowBefore(s: int, u: int, d: int)
    requires 0 < d && s <= u <= s + d
    ensures WindowOf(u, -d) in {WindowOf(s, -d), Neighbour(WindowOf(s, -d), -d)}
  {
    QuotientSteps(-u, -s, d);
  }

  lemma SecondsBetween(a: int, b: int, d: int)
    requires a <= b < a + 1000 * d
    ensures a / 1000 <= b / 1000 <= a / 1000 + d
  {
  }

  lemma QuotientSteps(s: int, u: int, d: int)
    requires 0 < d && s <= u <= s + d
    ensures s / d <= u / d <= s / d + 1
  {
    var q := s / d;
    assert q * d <= s < (q + 1) * d;
    QuotientBetween(u, d, q, q + 1);
  }

  function Abs(w: int): int {
    if w < 0 then -w else w
  }

  /** The window after a given one. */
  function Neighbour(window: WindowIndex, w: int): WindowIndex {
    if window.At? then At(if w > 0 then window.index + 1 else window.index - 1) else window
  }

  lemma QuotientBetween(u: int, w: int, low: int, high: int)
    requires 0 < w && low * w <= u < (high + 1) * w
    ensures low <= u / w <= high
  {
    var q := u / w;
    assert q * w <= u < (q + 1) * w;
    FactorsCompare(low, q + 1, w);
    FactorsCompare(q, high + 1, w);
  }

  lemma FactorsCompare(a: int, b: int, w: int)
    requires 0 < w && a * w < b * w
    ensures a < b
  {
  }

  /**
    The real bound of a fixed window: whatever calls are made, among the calls of one user, counter name and window that
    lie in any span shorter than the window, at most twice the limit are answered with a count up to the limit.
   */
  lemma AtMostTwiceTheLimitInAnyWindow(calls: seq<Call>, chosen: set<nat>, user: string, name: string, w: int,
                                       from: Time, limit: nat)
    requires w != 0
    requires forall i | i in chosen :: i < |calls|
    requires forall i | i in chosen ::
               && calls[i].userId == user && calls[i].name == name && calls[i].windowSeconds == w
               && from <= calls[i].at < from + 1000 * Abs(w)
               && AnswerAt(calls, i) <= limit
    ensures |chosen| <= 2 * limit
  {
    var b := WindowOf(from / 1000, w);
    var here := set i | i in chosen && BucketOf(calls[i]) == (user, name, b);
    var next := set i | i in chosen && BucketOf(calls[i]) == (user, name, Neighbour(b, w));
    forall i | i in chosen
      ensures i in here || i in next
    {
      NeighbouringWindows(from, calls[i].at, w);
    }
    assert chosen == here + next;
    AtMostLimitPerBucket(calls, here, (user, name, b), limit);
    AtMostLimitPerBucket(calls, next, (user, name, Neighbour(b, w)), limit);
  }

  /** A window of no seconds never rolls over: all calls from the second after the epoch on share one bucket. */
  lemma ZeroWindowNeverRolls(calls: seq<Call>, chosen: set<nat>, user: string, name: string, limit: nat)
    requires forall i | i in chosen :: i < |calls|
    requires forall i | i in chosen ::
               && calls[i].userId == user && calls[i].name == name && calls[i].windowSeconds == 0 && 1000 <= calls[i].at
               && AnswerAt(calls, i) <= limit
    ensures |chosen| <= limit
  {
    AtMostLimitPerBucket(calls, chosen, (user, name, Infinity), limit);
  }

  /** `limit` calls in the last millisecond of one bucket, then `limit` calls in the first of the next. */
  ghost function Burst(user: string, name: string, w: int, limit: nat): seq<Call> {
    seq(2 * limit, k => Call(user, name, if k < limit then 1000 * w - 1 else 1000 * w, w))
  }

  ghost function Range(low: nat, high: nat): (r: set<nat>)
    ensures forall k: nat :: k in r <==> low <= k < high
    ensures |r| == if low <= high then high - low else 0
    decreases high
  {
    if low >= high then {} else Range(low, high - 1) + {high - 1}
  }

  lemma BurstBuckets(user: string, name: string, w: int, limit: nat, k: nat)
    requires 0 < w && k < 2 * limit
    ensures BucketOf(Burst(user, name, w, limit)[k]) == (user, name, At(if k < limit then 0 else 1))
  {
    assert (1000 * w - 1) / 1000 == w - 1 && (1000 * w) / 1000 == w;
    QuotientBetween(w - 1, w, 0, 0);
    QuotientBetween(w, w, 1, 1);
  }

  /**
    The bound is reached: twice the limit of calls within two milliseconds are all answered with a count up to the
    limit.
   */
  lemma TwiceTheLimitIsReached(user: string, name: string, w: int, limit: nat, i: nat)
    requires 0 < w && i < 2 * limit
    ensures var calls := Burst(user, name, w, limit);
            && |calls| == 2 * limit
            && 1000 * w - 1 <= calls[i].at < 1000 * w - 1 + 2
            && AnswerAt(calls, i) <= limit
  {
    var calls := Burst(user, name, w, limit);
    AnswerCountsEarlierCalls(calls, i);
    BurstBuckets(user, name, w, limit, i);
    var first := if i < limit then 0 else limit;
    forall k | k in Earlier(calls, i, BucketOf(calls[i]))
      ensures k in Range(first, i)
    {
      BurstBuckets(user, name, w, limit, k);
    }
    SubsetIsSmaller(Earlier(calls, i, BucketOf(calls[i])), Range(first, i));
  }
}
