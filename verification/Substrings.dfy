/**
  Finding a text in a text: the leftmost place (`indexOf`), and the greedy count of places that do not overlap
  (`split`).
 */
module Substrings {
  import opened Utf16

  predicate MatchAt(text: JsString, pattern: JsString, i: int) {
    0 <= i && i + |pattern| <= |text| && text[i..i + |pattern|] == pattern
  }

  /** The leftmost place of `pattern` at or after `from`, or -1. */
  function IndexFrom(text: JsString, pattern: JsString, from: nat): (r: int)
    ensures r == -1 || from <= r <= |text| - |pattern|
    decreases |text| - from
  {
    if from + |pattern| > |text| then -1
    else if MatchAt(text, pattern, from) then from
    else if from == |text| then -1
    else IndexFrom(text, pattern, from + 1)
  }

  function IndexOf(text: JsString, pattern: JsString): int {
    IndexFrom(text, pattern, 0)
  }

  /** Every match starts before `bound`. */
  ghost predicate MatchesBefore(text: JsString, pattern: JsString, bound: int) {
    forall i :: MatchAt(text, pattern, i) ==> i < bound
  }

  /** No match starts from `from` up to, not including, `to`. */
  ghost predicate NoMatchBetween(text: JsString, pattern: JsString, from: int, to: int) {
    forall i | from <= i < to :: !MatchAt(text, pattern, i)
  }

  /** The search answers the first match from `from` on, and -1 exactly when there is none. */
  lemma {:induction false} IndexFromIsLeftmost(text: JsString, pattern: JsString, from: nat)
    ensures var r := IndexFrom(text, pattern, from);
            if r == -1 then MatchesBefore(text, pattern, from)
            else MatchAt(text, pattern, r) && NoMatchBetween(text, pattern, from, r)
    decreases |text| - from
  {
    if from + |pattern| <= |text| && !MatchAt(text, pattern, from) && from < |text| {
      IndexFromIsLeftmost(text, pattern, from + 1);
    }
  }

  lemma IndexOfIsLeftmost(text: JsString, pattern: JsString)
    ensures var r := IndexOf(text, pattern);
            && (r == -1 || 0 <= r)
            && (r >= 0 ==> MatchAt(text, pattern, r))
            && forall i :: MatchAt(text, pattern, i) ==> 0 <= r <= i
  {
    IndexFromIsLeftmost(text, pattern, 0);
  }

  /** The parts between the greedy matches of a separator, from `from` on. */
  function SplitFrom(text: JsString, separator: JsString, from: nat): (r: seq<JsString>)
    requires separator != [] && from <= |text|
    ensures |r| >= 1
    decreases |text| - from
  {
    var i := IndexFrom(text, separator, from);
    if i == -1 then [text[from..]] else [text[from..i]] + SplitFrom(text, separator, i + |separator|)
  }

  function Occurrences(text: JsString, pattern: JsString): nat
    requires pattern != []
  {
    |SplitFrom(text, pattern, 0)| - 1
  }

  /** Nothing more is split off exactly when no further match starts. */
  lemma SplitEndsIffNoMatch(text: JsString, pattern: JsString, from: nat)
    requires pattern != [] && from <= |text|
    ensures |SplitFrom(text, pattern, from)| == 1 <==> MatchesBefore(text, pattern, from)
  {
    IndexFromIsLeftmost(text, pattern, from);
  }

  /** The count is zero exactly when there is no match. */
  lemma NoOccurrenceIffNoMatch(text: JsString, pattern: JsString)
    requires pattern != []
    ensures Occurrences(text, pattern) == 0 <==> forall i :: !MatchAt(text, pattern, i)
  {
    SplitEndsIffNoMatch(text, pattern, 0);
  }

  /**
    What "occurs once" means for the greedy count: there is a leftmost match, and every match overlaps it. In particular
    two overlapping matches count once.
   */
  lemma OccursOnceIffAllMatchesOverlap(text: JsString, pattern: JsString)
    requires pattern != []
    ensures var i := IndexOf(text, pattern);
            Occurrences(text, pattern) == 1 <==>
              MatchAt(text, pattern, i) && forall q :: MatchAt(text, pattern, q) ==> i <= q < i + |pattern|
  {
    var i := IndexOf(text, pattern);
    IndexOfIsLeftmost(text, pattern);
    if i >= 0 {
      SplitEndsIffNoMatch(text, pattern, i + |pattern|);
    }
  }

  /** The count exceeds one exactly when two matches do not overlap. */
  lemma OccursOftenIffDisjointMatches(text: JsString, pattern: JsString)
    requires pattern != []
    ensures Occurrences(text, pattern) > 1 <==>
              exists i, q :: MatchAt(text, pattern, i) && MatchAt(text, pattern, q) && i + |pattern| <= q
  {
    OccursOnceIffAllMatchesOverlap(text, pattern);
    NoOccurrenceIffNoMatch(text, pattern);
    IndexOfIsLeftmost(text, pattern);
  }

  // ----- What the count is -----

  /** Places of matches, from `from` on, that do not overlap. */
  ghost predicate Disjoint(text: JsString, pattern: JsString, from: int, places: seq<int>) {
    && (forall k | 0 <= k < |places| :: MatchAt(text, pattern, places[k]))
    && (places != [] ==> from <= places[0])
    && (forall j, k | 0 <= j < k < |places| :: places[j] + |pattern| <= places[k])
  }

  lemma FoundIsMatch(text: JsString, pattern: JsString, from: nat)
    requires IndexFrom(text, pattern, from) != -1
    ensures MatchAt(text, pattern, IndexFrom(text, pattern, from))
  {
    IndexFromIsLeftmost(text, pattern, from);
  }

  lemma DisjointTail(text: JsString, pattern: JsString, from: int, places: seq<int>, next: int)
    requires Disjoint(text, pattern, from, places) && places != [] && next <= places[0] + |pattern|
    ensures Disjoint(text, pattern, next, places[1..])
  {
    var rest := places[1..];
    assert forall k | 0 <= k < |rest| :: rest[k] == places[k + 1];
  }

  lemma DisjointCons(text: JsString, pattern: JsString, from: int, i: int, rest: seq<int>)
    requires from <= i && MatchAt(text, pattern, i) && Disjoint(text, pattern, i + |pattern|, rest)
    ensures Disjoint(text, pattern, from, [i] + rest)
  {
    var places := [i] + rest;
    assert forall k | 0 < k < |places| :: places[k] == rest[k - 1];
  }

  /** No choice of disjoint matches has more than the greedy one. */
  lemma {:induction false} GreedyIsMost(text: JsString, pattern: JsString, from: nat, places: seq<int>)
    requires pattern != [] && from <= |text| && Disjoint(text, pattern, from, places)
    ensures |places| <= |SplitFrom(text, pattern, from)| - 1
    decreases |text| - from
  {
    if places == [] {
    } else {
      IndexFromIsLeftmost(text, pattern, from);
      var i := IndexFrom(text, pattern, from);
      assert MatchAt(text, pattern, places[0]);
      DisjointTail(text, pattern, from, places, i + |pattern|);
      GreedyIsMost(text, pattern, i + |pattern|, places[1..]);
    }
  }

  /** The matches that the split takes, one after the other. */
  ghost function GreedyPlaces(text: JsString, pattern: JsString, from: nat): seq<int>
    requires pattern != [] && from <= |text|
    decreases |text| - from
  {
    var i := IndexFrom(text, pattern, from);
    if i == -1 then [] else [i] + GreedyPlaces(text, pattern, i + |pattern|)
  }

  lemma SplitStep(text: JsString, pattern: JsString, from: nat)
    requires pattern != [] && from <= |text|
    ensures var i := IndexFrom(text, pattern, from);
            if i == -1 then
              |SplitFrom(text, pattern, from)| == 1 && |GreedyPlaces(text, pattern, from)| == 0
            else
              && |SplitFrom(text, pattern, from)| == 1 + |SplitFrom(text, pattern, i + |pattern|)|
              && |GreedyPlaces(text, pattern, from)| == 1 + |GreedyPlaces(text, pattern, i + |pattern|)|
  {
  }

  lemma {:induction false} GreedyPlacesCount(text: JsString, pattern: JsString, from: nat)
    requires pattern != [] && from <= |text|
    ensures |GreedyPlaces(text, pattern, from)| == |SplitFrom(text, pattern, from)| - 1
    decreases |text| - from
  {
    SplitStep(text, pattern, from);
    var i := IndexFrom(text, pattern, from);
    if i == -1 {
    } else {
      GreedyPlacesCount(text, pattern, i + |pattern|);
    }
  }

  lemma {:induction false} GreedyPlacesAreDisjoint(text: JsString, pattern: JsString, from: nat)
    requires pattern != [] && from <= |text|
    ensures Disjoint(text, pattern, from, GreedyPlaces(text, pattern, from))
    decreases |text| - from
  {
    var i := IndexFrom(text, pattern, from);
    if i == -1 {
    } else {
      FoundIsMatch(text, pattern, from);
      GreedyPlacesAreDisjoint(text, pattern, i + |pattern|);
      DisjointCons(text, pattern, from, i, GreedyPlaces(text, pattern, i + |pattern|));
    }
  }

  /** The count is the largest number of places where the pattern stands without overlapping. */
  lemma OccurrencesIsMostDisjoint(text: JsString, pattern: JsString)
    requires pattern != []
    ensures exists places :: Disjoint(text, pattern, 0, places) && |places| == Occurrences(text, pattern)
    ensures forall places :: Disjoint(text, pattern, 0, places) ==> |places| <= Occurrences(text, pattern)
  {
    GreedyPlacesCount(text, pattern, 0);
    GreedyPlacesAreDisjoint(text, pattern, 0);
    forall places | Disjoint(text, pattern, 0, places)
      ensures |places| <= Occurrences(text, pattern)
    {
      GreedyIsMost(text, pattern, 0, places);
    }
  }

  // ----- Borders -----

  /** No proper part of the pattern is both its beginning and its end. */
  ghost predicate Unbordered(pattern: JsString) {
    forall k | 0 < k < |pattern| :: pattern[..k] != pattern[|pattern| - k..]
  }

  ghost predicate OnlyMatch(text: JsString, pattern: JsString, i: int) {
    MatchAt(text, pattern, i) && forall q :: MatchAt(text, pattern, q) ==> q == i
  }

  /** Overlapping matches show a border. */
  lemma OverlapIsBorder(text: JsString, pattern: JsString, i: int, q: int)
    requires MatchAt(text, pattern, i) && MatchAt(text, pattern, q) && i < q < i + |pattern|
    ensures var k := i + |pattern| - q; pattern[..k] == pattern[|pattern| - k..]
  {
    var k := i + |pattern| - q;
    assert pattern[..k] == text[q..q + |pattern|][..k] == text[q..q + k];
    assert pattern[|pattern| - k..] == text[i..i + |pattern|][|pattern| - k..] == text[q..q + k];
  }

  lemma UnborderedOccursOnce(text: JsString, pattern: JsString)
    requires pattern != [] && Unbordered(pattern) && Occurrences(text, pattern) == 1
    ensures OnlyMatch(text, pattern, IndexOf(text, pattern))
  {
    var i := IndexOf(text, pattern);
    OccursOnceIffAllMatchesOverlap(text, pattern);
    forall q | MatchAt(text, pattern, q)
      ensures q == i
    {
      if i < q {
        OverlapIsBorder(text, pattern, i, q);
      }
    }
  }

  /** A bordered pattern has a text in which it counts once and yet stands at two places. */
  lemma BorderedCountsOverlapOnce(pattern: JsString, k: nat)
    requires 0 < k < |pattern| && pattern[..k] == pattern[|pattern| - k..]
    ensures var text := pattern + pattern[k..];
            && Occurrences(text, pattern) == 1
            && MatchAt(text, pattern, 0) && MatchAt(text, pattern, |pattern| - k)
  {
    var text := pattern + pattern[k..];
    var m := |pattern| - k;
    assert text[0..|pattern|] == pattern;
    assert text[m..m + |pattern|] == pattern[m..] + pattern[k..] == pattern[..k] + pattern[k..] == pattern;
    IndexOfIsLeftmost(text, pattern);
    OccursOnceIffAllMatchesOverlap(text, pattern);
  }

  /** "Counted once" means "stands at exactly one place" for every text if and only if the pattern has no border. */
  lemma CountedOnceIsUniqueIffUnbordered(pattern: JsString)
    requires pattern != []
    ensures Unbordered(pattern) <==>
              forall text :: Occurrences(text, pattern) == 1 ==> OnlyMatch(text, pattern, IndexOf(text, pattern))
  {
    if Unbordered(pattern) {
      forall text | Occurrences(text, pattern) == 1
        ensures OnlyMatch(text, pattern, IndexOf(text, pattern))
      {
        UnborderedOccursOnce(text, pattern);
      }
    } else {
      var k :| 0 < k < |pattern| && pattern[..k] == pattern[|pattern| - k..];
      BorderedCountsOverlapOnce(pattern, k);
      var text := pattern + pattern[k..];
      assert !OnlyMatch(text, pattern, IndexOf(text, pattern));
    }
  }
}
