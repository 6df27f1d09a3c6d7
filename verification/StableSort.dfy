/**
  A stable sort by a total preorder: its result is sorted, holds what was sorted, keeps the order of elements that the
  preorder does not tell apart, and is the only sorted list of its elements when there are no such elements.
 */
module StableSort {

  ghost predicate TotalPreorder<T(!new)>(notAfter: (T, T) -> bool) {
    && (forall x, y :: notAfter(x, y) || notAfter(y, x))
    && (forall x, y, z :: notAfter(x, y) && notAfter(y, z) ==> notAfter(x, z))
  }

  /** Insert after every element that is not after `d`. */
  function Insert<T>(sorted: seq<T>, d: T, notAfter: (T, T) -> bool): seq<T> {
    if sorted == [] || notAfter(sorted[|sorted| - 1], d) then sorted + [d]
    else Insert(sorted[..|sorted| - 1], d, notAfter) + [sorted[|sorted| - 1]]
  }

  function Sort<T>(ds: seq<T>, notAfter: (T, T) -> bool): seq<T> {
    if ds == [] then [] else Insert(Sort(ds[..|ds| - 1], notAfter), ds[|ds| - 1], notAfter)
  }

  ghost predicate Sorted<T>(ds: seq<T>, notAfter: (T, T) -> bool) {
    forall i, j | 0 <= i < j < |ds| :: notAfter(ds[i], ds[j])
  }

  /** Nothing is lost and nothing is added. */
  lemma {:induction false} InsertIsPermutation<T>(sorted: seq<T>, d: T, notAfter: (T, T) -> bool)
    ensures multiset(Insert(sorted, d, notAfter)) == multiset(sorted) + multiset{d}
  {
    if sorted == [] {
    } else {
      var n := |sorted| - 1;
      assert sorted == sorted[..n] + [sorted[n]];
      InsertIsPermutation(sorted[..n], d, notAfter);
    }
  }

  lemma {:induction false} SortIsPermutation<T>(ds: seq<T>, notAfter: (T, T) -> bool)
    ensures multiset(Sort(ds, notAfter)) == multiset(ds)
  {
    if ds == [] {
    } else {
      var n := |ds| - 1;
      SortIsPermutation(ds[..n], notAfter);
      InsertIsPermutation(Sort(ds[..n], notAfter), ds[n], notAfter);
      assert ds == ds[..n] + [ds[n]];
    }
  }

  lemma InsertMembers<T>(sorted: seq<T>, d: T, notAfter: (T, T) -> bool, i: nat)
    requires i < |Insert(sorted, d, notAfter)|
    ensures Insert(sorted, d, notAfter)[i] == d || Insert(sorted, d, notAfter)[i] in sorted
  {
    InsertIsPermutation(sorted, d, notAfter);
    assert Insert(sorted, d, notAfter)[i] in multiset(Insert(sorted, d, notAfter));
  }

  lemma {:induction false} InsertIsSorted<T(!new)>(sorted: seq<T>, d: T, notAfter: (T, T) -> bool)
    requires TotalPreorder(notAfter) && Sorted(sorted, notAfter)
    ensures Sorted(Insert(sorted, d, notAfter), notAfter)
  {
    if sorted == [] {
    } else {
      var n := |sorted| - 1;
      var last := sorted[n];
      if !notAfter(last, d) {
        var shorter := Insert(sorted[..n], d, notAfter);
        InsertIsSorted(sorted[..n], d, notAfter);
        forall i | 0 <= i < |shorter|
          ensures notAfter(shorter[i], last)
        {
          InsertMembers(sorted[..n], d, notAfter, i);
        }
      }
    }
  }

  lemma {:induction false} SortIsSorted<T(!new)>(ds: seq<T>, notAfter: (T, T) -> bool)
    requires TotalPreorder(notAfter)
    ensures Sorted(Sort(ds, notAfter), notAfter)
  {
    if ds == [] {
    } else {
      var n := |ds| - 1;
      SortIsSorted(ds[..n], notAfter);
      InsertIsSorted(Sort(ds[..n], notAfter), ds[n], notAfter);
    }
  }

  /** Elements of `ds` that the order does not tell apart are equal. */
  ghost predicate OrderIdentifies<T>(ds: seq<T>, notAfter: (T, T) -> bool) {
    forall x, y | x in ds && y in ds && notAfter(x, y) && notAfter(y, x) :: x == y
  }

  /** Sorted lists of the same elements start with the same element. */
  lemma HeadsAgree<T(!new)>(a: seq<T>, b: seq<T>, notAfter: (T, T) -> bool)
    requires TotalPreorder(notAfter) && Sorted(a, notAfter) && Sorted(b, notAfter) && OrderIdentifies(a, notAfter)
    requires a != [] && b != [] && a[0] in b && b[0] in a
    ensures a[0] == b[0]
  {
    assert notAfter(a[0], b[0]) && notAfter(b[0], a[0]);
  }

  lemma MembersAgree<T>(a: seq<T>, b: seq<T>)
    requires multiset(a) == multiset(b)
    ensures |a| == |b| && forall x :: x in a <==> x in b
  {
    assert |multiset(a)| == |a| && |multiset(b)| == |b|;
    forall x
      ensures x in a <==> x in b
    {
      assert x in a <==> x in multiset(a);
      assert x in b <==> x in multiset(b);
    }
  }

  lemma TailsAgree<T>(a: seq<T>, b: seq<T>)
    requires multiset(a) == multiset(b) && a != [] && b != [] && a[0] == b[0]
    ensures multiset(a[1..]) == multiset(b[1..])
  {
    assert a == [a[0]] + a[1..] && b == [b[0]] + b[1..];
    assert multiset(a[1..]) == multiset(a) - multiset{a[0]};
    assert multiset(b[1..]) == multiset(b) - multiset{b[0]};
  }

  /** Only one sorted list holds given elements. */
  lemma {:induction false} SortedIsUnique<T(!new)>(a: seq<T>, b: seq<T>, notAfter: (T, T) -> bool)
    requires TotalPreorder(notAfter) && Sorted(a, notAfter) && Sorted(b, notAfter)
    requires multiset(a) == multiset(b) && OrderIdentifies(a, notAfter)
    ensures a == b
  {
    MembersAgree(a, b);
    if a == [] {
    } else {
      HeadsAgree(a, b, notAfter);
      TailsAgree(a, b);
      SortedIsUnique(a[1..], b[1..], notAfter);
      assert a == [a[0]] + a[1..] && b == [b[0]] + b[1..];
    }
  }

  lemma SortKeepsMembers<T>(ds: seq<T>, notAfter: (T, T) -> bool)
    ensures forall d :: d in Sort(ds, notAfter) <==> d in ds
  {
    SortIsPermutation(ds, notAfter);
    MembersAgree(Sort(ds, notAfter), ds);
  }

  /** The order does not tell `d` and `e` apart. */
  ghost predicate Alike<T(!new)>(d: T, e: T, notAfter: (T, T) -> bool) {
    && notAfter(d, e) && notAfter(e, d)
    && forall x :: notAfter(x, d) <==> notAfter(x, e)
  }

  /** Such elements, inserted one after the other, end up side by side in the order they came in. */
  lemma {:induction false} InsertKeepsOrder<T(!new)>(sorted: seq<T>, d: T, e: T, notAfter: (T, T) -> bool)
      returns (before: seq<T>, after: seq<T>)
    requires Alike(d, e, notAfter)
    ensures Insert(Insert(sorted, d, notAfter), e, notAfter) == before + [d, e] + after
    ensures Insert(Insert(sorted, e, notAfter), d, notAfter) == before + [e, d] + after
  {
    if sorted == [] || notAfter(sorted[|sorted| - 1], d) {
      before, after := sorted, [];
      assert (sorted + [d])[|sorted|] == d && (sorted + [e])[|sorted|] == e;
    } else {
      var init, last := sorted[..|sorted| - 1], sorted[|sorted| - 1];
      before, after := InsertKeepsOrder(init, d, e, notAfter);
      after := after + [last];
      InsertBeforeLast(Insert(init, d, notAfter), last, e, notAfter);
      InsertBeforeLast(Insert(init, e, notAfter), last, d, notAfter);
    }
  }

  lemma InsertBeforeLast<T>(init: seq<T>, last: T, d: T, notAfter: (T, T) -> bool)
    requires !notAfter(last, d)
    ensures Insert(init + [last], d, notAfter) == Insert(init, d, notAfter) + [last]
  {
    assert (init + [last])[..|init|] == init;
  }

  /** Two elements at the end that the order does not tell apart stand in the result in the order they came in. */
  lemma SortKeepsOrder<T(!new)>(rest: seq<T>, d: T, e: T, notAfter: (T, T) -> bool)
    returns (before: seq<T>, after: seq<T>)
    requires TotalPreorder(notAfter) && notAfter(d, e) && notAfter(e, d)
    ensures Sort(rest + [d, e], notAfter) == before + [d, e] + after
    ensures Sort(rest + [e, d], notAfter) == before + [e, d] + after
  {
    AlikeFromTie(d, e, notAfter);
    before, after := InsertKeepsOrder(Sort(rest, notAfter), d, e, notAfter);
    SortAppend(rest, d, notAfter);
    SortAppend(rest, e, notAfter);
    SortAppend(rest + [d], e, notAfter);
    SortAppend(rest + [e], d, notAfter);
    assert rest + [d] + [e] == rest + [d, e] && rest + [e] + [d] == rest + [e, d];
  }

  lemma AlikeFromTie<T(!new)>(d: T, e: T, notAfter: (T, T) -> bool)
    requires TotalPreorder(notAfter) && notAfter(d, e) && notAfter(e, d)
    ensures Alike(d, e, notAfter)
  {
  }

  lemma SortAppend<T>(rest: seq<T>, d: T, notAfter: (T, T) -> bool)
    ensures Sort(rest + [d], notAfter) == Insert(Sort(rest, notAfter), d, notAfter)
  {
    assert (rest + [d])[..|rest|] == rest;
  }

  // ----- Stability -----

  predicate Tied<T>(x: T, y: T, notAfter: (T, T) -> bool) {
    notAfter(x, y) && notAfter(y, x)
  }

  /** The elements that the order does not tell apart from `x`, in the order of the list. */
  function Ties<T>(ds: seq<T>, x: T, notAfter: (T, T) -> bool): seq<T> {
    if ds == [] then [] else Ties(ds[..|ds| - 1], x, notAfter) + TieOf(ds[|ds| - 1], x, notAfter)
  }

  function TieOf<T>(d: T, x: T, notAfter: (T, T) -> bool): seq<T> {
    if Tied(d, x, notAfter) then [d] else []
  }

  lemma TiesAppend<T>(ds: seq<T>, d: T, x: T, notAfter: (T, T) -> bool)
    ensures Ties(ds + [d], x, notAfter) == Ties(ds, x, notAfter) + TieOf(d, x, notAfter)
  {
    assert (ds + [d])[..|ds|] == ds;
  }

  /** Elements tied with `x` are tied with each other. */
  ghost predicate TiesAgree<T(!new)>(x: T, notAfter: (T, T) -> bool) {
    forall y, z :: Tied(y, x, notAfter) && Tied(z, x, notAfter) ==> notAfter(y, z)
  }

  lemma PreorderTiesAgree<T(!new)>(x: T, notAfter: (T, T) -> bool)
    requires TotalPreorder(notAfter)
    ensures TiesAgree(x, notAfter)
  {
  }

  lemma {:induction false} InsertKeepsTies<T(!new)>(sorted: seq<T>, d: T, x: T, notAfter: (T, T) -> bool)
    requires TiesAgree(x, notAfter)
    ensures Ties(Insert(sorted, d, notAfter), x, notAfter) == Ties(sorted, x, notAfter) + TieOf(d, x, notAfter)
  {
    if sorted == [] || notAfter(sorted[|sorted| - 1], d) {
      TiesAppend(sorted, d, x, notAfter);
    } else {
      var init, last := sorted[..|sorted| - 1], sorted[|sorted| - 1];
      InsertKeepsTies(init, d, x, notAfter);
      TiesAppend(Insert(init, d, notAfter), last, x, notAfter);
      assert !(Tied(last, x, notAfter) && Tied(d, x, notAfter));
      SwapEmpty(Ties(init, x, notAfter), TieOf(d, x, notAfter), TieOf(last, x, notAfter));
    }
  }

  lemma SwapEmpty<T>(front: seq<T>, a: seq<T>, b: seq<T>)
    requires a == [] || b == []
    ensures front + a + b == front + b + a
  {
  }

  lemma {:induction false} SortKeepsTies<T(!new)>(ds: seq<T>, x: T, notAfter: (T, T) -> bool)
    requires TiesAgree(x, notAfter)
    ensures Ties(Sort(ds, notAfter), x, notAfter) == Ties(ds, x, notAfter)
  {
    if ds == [] {
    } else {
      SortKeepsTies(ds[..|ds| - 1], x, notAfter);
      InsertKeepsTies(Sort(ds[..|ds| - 1], notAfter), ds[|ds| - 1], x, notAfter);
    }
  }

  /** Stable: elements that the order does not tell apart stand in the result as they stood in the input. */
  lemma SortIsStable<T(!new)>(ds: seq<T>, x: T, notAfter: (T, T) -> bool)
    requires TotalPreorder(notAfter)
    ensures Ties(Sort(ds, notAfter), x, notAfter) == Ties(ds, x, notAfter)
  {
    PreorderTiesAgree(x, notAfter);
    SortKeepsTies(ds, x, notAfter);
  }

  /** A sorted list stays as it is. */
  lemma {:induction false} SortOfSorted<T>(ds: seq<T>, notAfter: (T, T) -> bool)
    requires Sorted(ds, notAfter)
    ensures Sort(ds, notAfter) == ds
  {
    if ds == [] {
    } else {
      var init, last := ds[..|ds| - 1], ds[|ds| - 1];
      SortOfSorted(init, notAfter);
      assert init != [] ==> notAfter(init[|init| - 1], last);
    }
  }
}
