/** The path that decoding returns, and its optimality. */
module ViterbiResult {
  import opened ViterbiSpec
  import opened ViterbiStates
  import opened ViterbiOptimality
  import opened TaggerLattice
  import FS = FeatureSequences

  /** The path kept for the `r`-th state of position `len`. */
  function Kept(t: Lattice, len: nat, r: nat): (p: seq<int>)
    requires t.Valid() && len <= |t.sizes| && r < t.Combinations(len, t.Context(len))
    ensures t.IsPath(p) && |p| == len
  {
    t.Best(len, Tuple(t, len, t.Context(len), r))
  }

  /** The first of the best paths among the first `m` states. */
  function FirstBest(t: Lattice, len: nat, m: nat): (p: seq<int>)
    requires t.Valid() && len <= |t.sizes| && 1 <= m <= t.Combinations(len, t.Context(len))
    ensures t.IsPath(p) && |p| == len
  {
    if m == 1 then Kept(t, len, 0)
    else
      var best, next := FirstBest(t, len, m - 1), Kept(t, len, m - 1);
      if t.PathScore(next) > t.PathScore(best) then next else best
  }

  /** The result of decoding a whole sentence. */
  function Decoded(t: Lattice): (p: seq<int>)
    requires t.Valid()
    ensures t.IsPath(p) && |p| == |t.sizes|
  {
    CombinationsPositive(t, |t.sizes|, t.Context(|t.sizes|));
    FirstBest(t, |t.sizes|, t.Combinations(|t.sizes|, t.Context(|t.sizes|)))
  }

  lemma {:induction false} NotAfterByTuple(p: seq<int>, q: seq<int>, k: nat)
    requires |p| == |q| && k <= |p| && LexBefore(Window(p, k), Window(q, k))
    ensures NotAfter(p, q)
  {
    var v, w := Window(p, k), Window(q, k);
    var last := |p| - 1;
    assert v[0] == p[last] && w[0] == q[last];
    if v[0] == w[0] {
      WindowExtend(p[..last], p[last], k);
      WindowExtend(q[..last], q[last], k);
      assert p == p[..last] + [p[last]] && q == q[..last] + [q[last]];
      assert v[1..] == Window(p[..last], k - 1) && w[1..] == Window(q[..last], k - 1);
      NotAfterByTuple(p[..last], q[..last], k - 1);
    }
  }

  /** Some enumerated state before `m` holds the result, no later state having replaced it. */
  lemma {:induction false} FirstBestIsKept(t: Lattice, len: nat, m: nat) returns (r: nat)
    requires t.Valid() && len <= |t.sizes| && 1 <= m <= t.Combinations(len, t.Context(len))
    ensures r < m && FirstBest(t, len, m) == Kept(t, len, r)
  {
    hide Kept, Lattice.PathScore;
    r := m - 1;
    if m > 1 && FirstBest(t, len, m) != Kept(t, len, m - 1) { r := FirstBestIsKept(t, len, m - 1); }
  }

  lemma KeptNotAfter(t: Lattice, len: nat, q: nat, r: nat)
    requires t.Valid() && len <= |t.sizes| && q < r < t.Combinations(len, t.Context(len))
    ensures NotAfter(Kept(t, len, q), Kept(t, len, r))
  {
    TupleOrder(t, len, t.Context(len), q, r);
    NotAfterByTuple(Kept(t, len, q), Kept(t, len, r), t.Context(len));
  }

  lemma {:induction false} FirstBestIsOptimal(t: Lattice, len: nat, m: nat, r: nat, p: seq<int>)
    requires Exact(t) && len <= |t.sizes| && r < m <= t.Combinations(len, t.Context(len))
    requires t.IsPath(p) && |p| == len && Window(p, t.Context(len)) == Tuple(t, len, t.Context(len), r)
    ensures Preferred(t, FirstBest(t, len, m), p)
  {
    hide Kept, Lattice.PathScore, NotAfter, Tuple;
    if r == m - 1 { KeptIsOptimal(t, len, r, p); }
    if m > 1 {
      var best, next := FirstBest(t, len, m - 1), Kept(t, len, m - 1);
      if r < m - 1 { FirstBestIsOptimal(t, len, m - 1, r, p); }
      var q := FirstBestIsKept(t, len, m - 1);
      KeptNotAfter(t, len, q, m - 1);
      PreferredChoice(t, best, next, p);
    }
  }

  lemma KeptIsOptimal(t: Lattice, len: nat, r: nat, p: seq<int>)
    requires Exact(t) && len <= |t.sizes| && r < t.Combinations(len, t.Context(len))
    requires t.IsPath(p) && |p| == len && Window(p, t.Context(len)) == Tuple(t, len, t.Context(len), r)
    ensures Preferred(t, Kept(t, len, r), p)
  {
    hide Preferred, Tuple;
    BestIsOptimal(t, len, Tuple(t, len, t.Context(len), r), p);
  }

  /** Exact decoding maximises the total score over the whole product of analyses; among the
      maximisers it returns the one that is smallest when read from the last word to the first. */
  lemma DecodedIsOptimal(t: Lattice, p: seq<int>)
    requires Exact(t) && t.IsPath(p) && |p| == |t.sizes|
    ensures PreferredTotal(t, Decoded(t), p)
  {
    hide FirstBest, Tuple, Preferred, PreferredTotal;
    var len := |t.sizes|;
    var k := t.Context(len);
    assert t.IsRecent(len, Window(p, k));
    var r := TupleComplete(t, len, Window(p, k));
    FirstBestIsOptimal(t, len, t.Combinations(len, k), r, p);
    PreferredInTotal(t, Decoded(t), p);
  }

  /** The tagger with a window as long as its decoding order and without dynamic features finds an
      optimal tag sequence of every sentence. */
  lemma TaggingIsOptimal(model: FS.Model, st: FS.Sentence, order: nat, p: seq<int>)
    requires order >= 2 && model.Valid(order) && st.Valid(model)
    requires forall i :: 0 <= i < |st.perForm| ==> |st.perTag[i]| >= 1
    requires forall s <- model.sequences :: NoDynamic(s.elements)
    requires TagPath(st, p) && |p| == |st.perForm|
    ensures var t := LatticeOf(model, st, order, order);
      t.Valid() && PreferredTotal(t, Decoded(t), p)
  {
    hide Decoded, PreferredTotal, Exact;
    var t := LatticeOf(model, st, order, order);
    LatticeIsExact(model, st, order);
    DecodedIsOptimal(t, p);
  }
}
