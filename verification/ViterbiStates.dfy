/** The decoder keeps no table of states: states are told apart only by the order in which they are
    produced. Here the states of a position are enumerated in lexicographic order. */
module ViterbiStates {
  import opened Arithmetic
  import opened ViterbiSpec

  lemma {:induction false} CombinationsPositive(t: Lattice, len: nat, k: nat)
    requires t.Valid() && k <= len <= |t.sizes|
    ensures t.Combinations(len, k) >= 1
  {
    if k > 0 {
      CombinationsPositive(t, len - 1, k - 1);
      assert t.sizes[len - 1] * t.Combinations(len - 1, k - 1) >= 1 * t.Combinations(len - 1, k - 1);
    }
  }

  lemma RecentPrepend(t: Lattice, len: nat, tag: nat, w: seq<int>)
    requires t.IsRecent(len, w) && len < |t.sizes| && tag < t.sizes[len]
    ensures t.IsRecent(len + 1, [tag] + w)
  {
  }

  lemma RecentTail(t: Lattice, len: nat, w: seq<int>)
    requires t.IsRecent(len, w) && w != []
    ensures t.IsRecent(len - 1, w[1..])
  {
    forall j | 0 <= j < |w| - 1
      ensures 0 <= w[1..][j] < t.sizes[len - 1 - 1 - j]
    {
      assert w[1..][j] == w[j + 1];
    }
  }

  /** The `r`-th list of the `k` latest tags before position `len`. */
  function Tuple(t: Lattice, len: nat, k: nat, r: nat): (w: seq<int>)
    requires t.Valid() && k <= len <= |t.sizes| && r < t.Combinations(len, k)
    ensures |w| == k && t.IsRecent(len, w)
  {
    if k == 0 then []
    else
      var rest := t.Combinations(len - 1, k - 1);
      FirstDigit(t, len, k, r);
      var tail := Tuple(t, len - 1, k - 1, r % rest);
      RecentPrepend(t, len - 1, r / rest, tail);
      [r / rest] + tail
  }

  lemma FirstDigit(t: Lattice, len: nat, k: nat, r: nat)
    requires t.Valid() && 1 <= k <= len <= |t.sizes| && r < t.Combinations(len, k)
    ensures var rest := t.Combinations(len - 1, k - 1);
      rest >= 1 && 0 <= r / rest < t.sizes[len - 1] && 0 <= r % rest < rest
  {
    var rest := t.Combinations(len - 1, k - 1);
    CombinationsPositive(t, len - 1, k - 1);
    DivBound(r, t.sizes[len - 1], rest);
    DivMonotone(0, r, rest);
    Division(r, rest);
  }

  /** Lexicographic order, the latest tag being the most significant. */
  predicate LexBefore(v: seq<int>, w: seq<int>)
    requires |v| == |w|
  {
    v != [] && (v[0] < w[0] || (v[0] == w[0] && LexBefore(v[1..], w[1..])))
  }

  /** The enumeration is strictly increasing, hence without repetition. */
  lemma {:induction false} TupleOrder(t: Lattice, len: nat, k: nat, q: nat, r: nat)
    requires t.Valid() && k <= len <= |t.sizes| && q < r < t.Combinations(len, k)
    ensures LexBefore(Tuple(t, len, k, q), Tuple(t, len, k, r))
  {
    if k > 0 {
      var rest := t.Combinations(len - 1, k - 1);
      CombinationsPositive(t, len - 1, k - 1);
      var v, w := Tuple(t, len, k, q), Tuple(t, len, k, r);
      Division(q, rest);
      Division(r, rest);
      DivMonotone(q, r, rest);
      if q / rest == r / rest {
        TupleOrder(t, len - 1, k - 1, q % rest, r % rest);
        assert v[1..] == Tuple(t, len - 1, k - 1, q % rest) && w[1..] == Tuple(t, len - 1, k - 1, r % rest);
      }
    }
  }

  lemma {:induction false} LexBeforeDistinct(v: seq<int>, w: seq<int>)
    requires |v| == |w| && LexBefore(v, w)
    ensures v != w
  {
    if v[0] == w[0] { LexBeforeDistinct(v[1..], w[1..]); }
  }

  /** Prepending a tag to the `q`-th tuple gives a tuple of the next position. */
  lemma TuplePrepend(t: Lattice, len: nat, k: nat, tag: nat, q: nat)
    requires t.Valid() && k <= len < |t.sizes| && tag < t.sizes[len] && q < t.Combinations(len, k)
    ensures tag * t.Combinations(len, k) + q < t.Combinations(len + 1, k + 1)
    ensures Tuple(t, len + 1, k + 1, tag * t.Combinations(len, k) + q) == [tag] + Tuple(t, len, k, q)
  {
    var count := t.Combinations(len, k);
    ProductBound(tag, t.sizes[len], q, count);
    DivModUnique(tag * count + q, tag, q, count);
  }

  /** Every list of recent tags is one of the enumerated tuples. */
  lemma {:induction false} TupleComplete(t: Lattice, len: nat, w: seq<int>) returns (r: nat)
    requires t.Valid() && t.IsRecent(len, w)
    ensures r < t.Combinations(len, |w|) && Tuple(t, len, |w|, r) == w
  {
    hide Tuple, Lattice.Combinations;
    if w == [] {
      r := 0;
      CombinationsPositive(t, len, 0);
    } else {
      RecentTail(t, len, w);
      var q := TupleComplete(t, len - 1, w[1..]);
      TuplePrepend(t, len - 1, |w| - 1, w[0], q);
      r := w[0] * t.Combinations(len - 1, |w| - 1) + q;
    }
  }

  lemma {:induction false} CombinationsSplit(t: Lattice, len: nat, k: nat)
    requires 1 <= k <= len <= |t.sizes|
    ensures t.Combinations(len, k) == t.Combinations(len, k - 1) * t.sizes[len - k]
  {
    if k > 1 {
      CombinationsSplit(t, len - 1, k - 1);
      var a, b, c := t.sizes[len - 1], t.Combinations(len - 1, k - 2), t.sizes[len - k];
      assert a * (b * c) == (a * b) * c;
    }
  }

  lemma TupleUnfolds(t: Lattice, len: nat, k: nat, r: nat)
    requires t.Valid() && 1 <= k <= len <= |t.sizes| && r < t.Combinations(len, k)
    ensures var rest := t.Combinations(len - 1, k - 1);
      rest >= 1 && 0 <= r % rest < rest && Tuple(t, len, k, r) == [r / rest] + Tuple(t, len - 1, k - 1, r % rest)
  {
    CombinationsPositive(t, len - 1, k - 1);
  }

  /** The oldest tag of a tuple is the last digit of its number. */
  lemma {:induction false} TupleSplit(t: Lattice, len: nat, k: nat, r: nat)
    requires t.Valid() && 1 <= k <= len <= |t.sizes| && r < t.Combinations(len, k)
    ensures 0 <= r / t.sizes[len - k] < t.Combinations(len, k - 1)
    ensures Tuple(t, len, k, r) == Tuple(t, len, k - 1, r / t.sizes[len - k]) + [r % t.sizes[len - k]]
  {
    hide Tuple, Lattice.Combinations;
    var g := t.sizes[len - k];
    CombinationsSplit(t, len, k);
    DivBound(r, t.Combinations(len, k - 1), g);
    Division(r, g);
    DivMonotone(0, r, g);
    TupleUnfolds(t, len, k, r);
    if k == 1 {
      SingleDigit(t, len, r);
    } else {
      var rest, b := t.Combinations(len - 1, k - 1), t.Combinations(len - 1, k - 2);
      CombinationsSplit(t, len - 1, k - 1);
      TupleUnfolds(t, len, k - 1, r / g);
      DivDiv(r, b, g);
      TupleSplit(t, len - 1, k - 1, r % rest);
    }
  }

  lemma SingleDigit(t: Lattice, len: nat, r: nat)
    requires t.Valid() && 1 <= len <= |t.sizes| && r < t.Combinations(len, 1)
    ensures Tuple(t, len, 1, r) == [r] && r < t.sizes[len - 1]
    ensures r / t.sizes[len - 1] == 0 && r % t.sizes[len - 1] == r
  {
    assert t.Combinations(len - 1, 0) == 1;
    DivModUnique(r, r, 0, 1);
    DivModUnique(r, 0, r, t.sizes[len - 1]);
  }
}
