/** Facts about sequences that several components share. */
module Sequences {

  /** The images of the elements, one after the other. */
  function ConcatMap<T, U>(f: T -> seq<U>, xs: seq<T>): (r: seq<U>) {
    if xs == [] then [] else ConcatMap(f, xs[..|xs| - 1]) + f(xs[|xs| - 1])
  }

  lemma ConcatMapAppend<T, U>(f: T -> seq<U>, xs: seq<T>, x: T)
    ensures ConcatMap(f, xs + [x]) == ConcatMap(f, xs) + f(x)
  {
    assert (xs + [x])[..|xs|] == xs;
  }

  lemma ConcatMapNothing<T, U>(f: T -> seq<U>)
    ensures ConcatMap(f, []) == []
  {
  }

  lemma {:induction false} ConcatMapConcat<T, U>(f: T -> seq<U>, xs: seq<T>, ys: seq<T>)
    ensures ConcatMap(f, xs + ys) == ConcatMap(f, xs) + ConcatMap(f, ys)
  {
    hide ConcatMap;
    if ys == [] {
      ConcatMapNothing(f);
      assert xs + ys == xs;
    } else {
      var front, y := ys[..|ys| - 1], ys[|ys| - 1];
      ConcatMapConcat(f, xs, front);
      assert xs + ys == (xs + front) + [y] && ys == front + [y];
      ConcatMapAppend(f, xs + front, y);
      ConcatMapAppend(f, front, y);
    }
  }

  lemma ConcatMapCons<T, U>(f: T -> seq<U>, x: T, xs: seq<T>)
    ensures ConcatMap(f, [x] + xs) == f(x) + ConcatMap(f, xs)
  {
    ConcatMapConcat(f, [x], xs);
    ConcatMapAppend(f, [], x);
    assert [] + [x] == [x];
  }

  /** Stable insertion into a list ordered by `leq`. */
  function InsertBy<T>(leq: (T, T) -> bool, sorted: seq<T>, x: T): seq<T> {
    if sorted == [] || leq(sorted[|sorted| - 1], x) then sorted + [x]
    else InsertBy(leq, sorted[..|sorted| - 1], x) + [sorted[|sorted| - 1]]
  }

  function SortBy<T>(leq: (T, T) -> bool, xs: seq<T>): seq<T> {
    if xs == [] then [] else InsertBy(leq, SortBy(leq, xs[..|xs| - 1]), xs[|xs| - 1])
  }

  lemma {:induction false} InsertByContents<T>(leq: (T, T) -> bool, sorted: seq<T>, x: T)
    ensures multiset(InsertBy(leq, sorted, x)) == multiset(sorted) + multiset{x}
  {
    if sorted != [] && !leq(sorted[|sorted| - 1], x) {
      InsertByContents(leq, sorted[..|sorted| - 1], x);
      assert sorted == sorted[..|sorted| - 1] + [sorted[|sorted| - 1]];
    }
  }

  /** Sorting rearranges. */
  lemma {:induction false} SortByContents<T>(leq: (T, T) -> bool, xs: seq<T>)
    ensures multiset(SortBy(leq, xs)) == multiset(xs)
  {
    if xs != [] {
      SortByContents(leq, xs[..|xs| - 1]);
      InsertByContents(leq, SortBy(leq, xs[..|xs| - 1]), xs[|xs| - 1]);
      assert xs == xs[..|xs| - 1] + [xs[|xs| - 1]];
    }
  }

  ghost predicate TotalOrder<T(!new)>(leq: (T, T) -> bool) {
    (forall x, y :: leq(x, y) || leq(y, x)) && forall x, y, z :: leq(x, y) && leq(y, z) ==> leq(x, z)
  }

  ghost predicate OrderedBy<T>(leq: (T, T) -> bool, xs: seq<T>) {
    forall i, j :: 0 <= i < j < |xs| ==> leq(xs[i], xs[j])
  }

  lemma {:induction false} InsertByOrders<T(!new)>(leq: (T, T) -> bool, sorted: seq<T>, x: T)
    requires TotalOrder(leq) && OrderedBy(leq, sorted)
    ensures OrderedBy(leq, InsertBy(leq, sorted, x))
  {
    if sorted != [] && !leq(sorted[|sorted| - 1], x) {
      var front, last := sorted[..|sorted| - 1], sorted[|sorted| - 1];
      InsertByOrders(leq, front, x);
      InsertByContents(leq, front, x);
      var inserted := InsertBy(leq, front, x);
      forall i | 0 <= i < |inserted|
        ensures leq(inserted[i], last)
      {
        assert inserted[i] in multiset(inserted);
        assert inserted[i] in front || inserted[i] == x;
      }
    }
  }

  /** The result is in order. */
  lemma {:induction false} SortByOrders<T(!new)>(leq: (T, T) -> bool, xs: seq<T>)
    requires TotalOrder(leq)
    ensures OrderedBy(leq, SortBy(leq, xs))
  {
    if xs != [] {
      SortByOrders(leq, xs[..|xs| - 1]);
      InsertByOrders(leq, SortBy(leq, xs[..|xs| - 1]), xs[|xs| - 1]);
    }
  }

  /** The elements that an order does not tell from a given one. */
  function Alike<T>(leq: (T, T) -> bool, xs: seq<T>, e: T): seq<T> {
    if xs == [] then []
    else
      var x := xs[|xs| - 1];
      Alike(leq, xs[..|xs| - 1], e) + if leq(x, e) && leq(e, x) then [x] else []
  }

  lemma {:induction false} InsertByKeeps<T(!new)>(leq: (T, T) -> bool, sorted: seq<T>, x: T, e: T)
    requires TotalOrder(leq)
    ensures Alike(leq, InsertBy(leq, sorted, x), e) == Alike(leq, sorted, e)
      + if leq(x, e) && leq(e, x) then [x] else []
  {
    if sorted == [] || leq(sorted[|sorted| - 1], x) {
      assert (sorted + [x])[..|sorted|] == sorted;
    } else {
      var front, last := sorted[..|sorted| - 1], sorted[|sorted| - 1];
      InsertByKeeps(leq, front, x, e);
      var inserted := InsertBy(leq, front, x);
      assert (inserted + [last])[..|inserted|] == inserted;
    }
  }

  /** Elements that the order does not tell apart keep their order. */
  lemma {:induction false} SortByStable<T(!new)>(leq: (T, T) -> bool, xs: seq<T>, e: T)
    requires TotalOrder(leq)
    ensures Alike(leq, SortBy(leq, xs), e) == Alike(leq, xs, e)
  {
    if xs != [] {
      SortByStable(leq, xs[..|xs| - 1], e);
      InsertByKeeps(leq, SortBy(leq, xs[..|xs| - 1]), xs[|xs| - 1], e);
    }
  }

  /** Mapping and rearranging commute, as far as contents go. */
  lemma {:induction false} ConcatMapContents<T, U>(f: T -> seq<U>, xs: seq<T>, ys: seq<T>)
    requires multiset(xs) == multiset(ys)
    ensures multiset(ConcatMap(f, xs)) == multiset(ConcatMap(f, ys))
    decreases |xs|
  {
    assert |multiset(xs)| == |xs| && |multiset(ys)| == |ys|;
    if xs != [] {
      var front, last := xs[..|xs| - 1], xs[|xs| - 1];
      assert xs == front + [last];
      assert last in multiset(ys);
      var i :| 0 <= i < |ys| && ys[i] == last;
      var before, after := ys[..i], ys[i + 1..];
      assert ys == before + ([last] + after);
      RemovedOne(before, after, front, last);
      ConcatMapContents(f, front, before + after);
      ConcatMapConcat(f, before, [last] + after);
      ConcatMapCons(f, last, after);
      ConcatMapConcat(f, before, after);
    }
  }

  lemma RemovedOne<T>(before: seq<T>, after: seq<T>, front: seq<T>, last: T)
    requires multiset(front + [last]) == multiset(before + ([last] + after))
    ensures multiset(front) == multiset(before + after)
  {
    assert multiset(front + [last]) - multiset{last} == multiset(front);
    assert multiset(before + ([last] + after)) == multiset(before) + multiset{last} + multiset(after);
  }

  /** How many of the first `n` elements have a property. */
  function Number<T>(s: seq<T>, p: T -> bool, n: nat): nat
    requires n <= |s|
  {
    if n == 0 then 0 else Number(s, p, n - 1) + if p(s[n - 1]) then 1 else 0
  }

  lemma {:induction false} NumberIs<T>(s: seq<T>, p: T -> bool, n: nat) returns (ks: set<int>)
    requires n <= |s|
    ensures Number(s, p, n) == |ks| && forall k :: k in ks <==> 0 <= k < n && p(s[k])
  {
    if n == 0 {
      ks := {};
    } else {
      var before := NumberIs(s, p, n - 1);
      ks := before + if p(s[n - 1]) then {n - 1} else {};
    }
  }
}
