/** When the decoding order spans the whole window and no dynamic feature takes part,
    the decoder's table holds optimal paths. */
module ViterbiOptimality {
  import opened Arithmetic
  import opened ViterbiSpec

  /** Two paths of one length that agree on all tags of the decoder's window. */
  predicate SameWindow(t: Lattice, p: seq<int>, q: seq<int>) {
    t.IsPath(p) && t.IsPath(q) && |p| == |q| >= 1 && Window(p, t.order) == Window(q, t.order)
  }

  /** The score of a position depends on no more tags than the decoder's states distinguish. */
  ghost predicate Exact(t: Lattice) {
    t.Valid() && forall p, q {:trigger SameWindow(t, p, q)} :: SameWindow(t, p, q) ==> t.step(p) == t.step(q)
  }

  /** Reading from the last word to the first, `p` does not come after `q`. */
  ghost predicate NotAfter(p: seq<int>, q: seq<int>)
    requires |p| == |q|
  {
    p == [] || (var last := |p| - 1; p[last] < q[last] || (p[last] == q[last] && NotAfter(p[..last], q[..last])))
  }

  /** `p` is preferred to `q`: a higher score, or the same score and not after it. */
  ghost predicate Preferred(t: Lattice, p: seq<int>, q: seq<int>)
    requires t.Valid() && t.IsPath(p) && t.IsPath(q) && |p| == |q|
  {
    t.PathScore(p) > t.PathScore(q) || (t.PathScore(p) == t.PathScore(q) && NotAfter(p, q))
  }

  lemma {:induction false} NotAfterReflexive(p: seq<int>)
    ensures NotAfter(p, p)
  {
    if p != [] { NotAfterReflexive(p[..|p| - 1]); }
  }

  lemma {:induction false} NotAfterTransitive(p: seq<int>, q: seq<int>, r: seq<int>)
    requires |p| == |q| == |r| && NotAfter(p, q) && NotAfter(q, r)
    ensures NotAfter(p, r)
  {
    if p != [] {
      var last := |p| - 1;
      if p[last] == q[last] == r[last] { NotAfterTransitive(p[..last], q[..last], r[..last]); }
    }
  }

  /** NotAfter is antisymmetric: the preferred path is unique. */
  lemma {:induction false} NotAfterAntisymmetric(p: seq<int>, q: seq<int>)
    requires |p| == |q| && NotAfter(p, q) && NotAfter(q, p)
    ensures p == q
  {
    if p != [] {
      var last := |p| - 1;
      NotAfterAntisymmetric(p[..last], q[..last]);
      assert p == p[..last] + [p[last]] && q == q[..last] + [q[last]];
    }
  }

  /** Paths that agree on the `k` latest tags are ordered by the next one. */
  lemma {:induction false} NotAfterByTag(p: seq<int>, q: seq<int>, k: nat)
    requires |p| == |q| && k < |p|
    requires Window(p, k) == Window(q, k) && p[|p| - 1 - k] < q[|p| - 1 - k]
    ensures NotAfter(p, q)
  {
    if k > 0 {
      var last := |p| - 1;
      assert p[last] == Window(p, k)[0] == Window(q, k)[0] == q[last];
      WindowExtend(p[..last], p[last], k);
      WindowExtend(q[..last], q[last], k);
      assert p == p[..last] + [p[last]] && q == q[..last] + [q[last]];
      assert Window(p, k)[1..] == Window(p[..last], k - 1) && Window(q, k)[1..] == Window(q[..last], k - 1);
      assert Window(p[..last], k - 1) == Window(q[..last], k - 1);
      NotAfterByTag(p[..last], q[..last], k - 1);
    }
  }

  lemma WindowDetermines(p: seq<int>, q: seq<int>)
    requires |p| == |q| && Window(p, |p|) == Window(q, |q|)
    ensures p == q
  {
    forall j | 0 <= j < |p|
      ensures p[j] == q[j]
    {
      assert Window(p, |p|)[|p| - 1 - j] == Window(q, |q|)[|p| - 1 - j];
    }
  }

  /** The tags of a state and the next older tag are what a path ending in that state fixes. */
  lemma RecentOfPrefix(t: Lattice, len: nat, w: seq<int>, p: seq<int>)
    requires t.Valid() && t.IsState(len, w) && len >= t.order
    requires t.IsPath(p) && |p| == len && Window(p, |w|) == w
    ensures 0 <= p[len - t.order] < t.sizes[len - t.order]
    ensures Window(p[..len - 1], |w|) == w[1..] + [p[len - t.order]]
    ensures p == p[..len - 1] + [w[0]]
  {
    assert p[len - 1] == Window(p, |w|)[0];
    var q := p[..len - 1];
    forall j | 0 <= j < |w|
      ensures Window(q, |w|)[j] == (w[1..] + [p[len - t.order]])[j]
    {
      if j < |w| - 1 { assert Window(p, |w|)[j + 1] == w[j + 1]; }
    }
  }

  lemma BestUnfolds(t: Lattice, len: nat, w: seq<int>)
    requires t.Valid() && t.IsState(len, w)
    ensures len == 0 ==> t.Best(len, w) == []
    ensures 0 < len < t.order ==> t.IsState(len - 1, w[1..]) && t.Best(len, w) == t.Best(len - 1, w[1..]) + [w[0]]
    ensures len >= t.order ==> t.Best(len, w) == t.BestOf(len, w, t.sizes[len - t.order])
  {
    hide Lattice.PathScore, Lattice.BestOf, Lattice.Extension;
  }

  lemma BestOfUnfolds(t: Lattice, len: nat, w: seq<int>, m: nat)
    requires t.Valid() && t.IsState(len, w) && len >= t.order && 1 <= m <= t.sizes[len - t.order]
    ensures var candidate := t.Extension(len, w, m - 1);
      t.BestOf(len, w, m) ==
        if m == 1 then candidate
        else if t.PathScore(candidate) <= t.PathScore(t.BestOf(len, w, m - 1)) then t.BestOf(len, w, m - 1)
          else candidate
  {
  }

  lemma ExtensionUnfolds(t: Lattice, len: nat, w: seq<int>, x: nat)
    requires t.Valid() && t.IsState(len, w) && len >= t.order && x < t.sizes[len - t.order]
    ensures t.IsState(len - 1, w[1..] + [x])
    ensures t.Extension(len, w, x) == t.Best(len - 1, w[1..] + [x]) + [w[0]]
  {
  }

  lemma {:induction false} BestIsOptimal(t: Lattice, len: nat, w: seq<int>, p: seq<int>)
    requires Exact(t) && t.IsState(len, w)
    requires t.IsPath(p) && |p| == len && Window(p, |w|) == w
    ensures Preferred(t, t.Best(len, w), p)
    decreases len, 1, 0
  {
    hide Lattice.Best, Lattice.BestOf, Lattice.Extension, Lattice.PathScore, NotAfter;
    BestUnfolds(t, len, w);
    if len < t.order {
      var best := t.Best(len, w);
      WindowDetermines(best, p);
      NotAfterReflexive(p);
    } else {
      RecentOfPrefix(t, len, w, p);
      BestOfIsOptimal(t, len, w, t.sizes[len - t.order], p);
    }
  }

  /** Keeping the first of the best candidates keeps a preferred one. */
  lemma PreferredChoice(t: Lattice, best: seq<int>, candidate: seq<int>, p: seq<int>)
    requires t.Valid() && t.IsPath(best) && t.IsPath(candidate) && t.IsPath(p) && |best| == |candidate| == |p|
    requires NotAfter(best, candidate)
    requires Preferred(t, best, p) || Preferred(t, candidate, p)
    ensures Preferred(t, if t.PathScore(candidate) <= t.PathScore(best) then best else candidate, p)
  {
    if NotAfter(candidate, p) { NotAfterTransitive(best, candidate, p); }
  }

  lemma {:induction false} BestOfIsOptimal(t: Lattice, len: nat, w: seq<int>, m: nat, p: seq<int>)
    requires Exact(t) && t.IsState(len, w) && len >= t.order && 1 <= m <= t.sizes[len - t.order]
    requires t.IsPath(p) && |p| == len && Window(p, |w|) == w
    requires 0 <= p[len - t.order] < m
    ensures Preferred(t, t.BestOf(len, w, m), p)
    decreases len, 0, m
  {
    hide Lattice.Best, Lattice.BestOf, Lattice.Extension, Lattice.PathScore, NotAfter;
    BestOfUnfolds(t, len, w, m);
    var x := p[len - t.order];
    var candidate := t.Extension(len, w, m - 1);
    if x == m - 1 {
      ExtensionIsOptimal(t, len, w, m - 1, p);
    }
    if m > 1 {
      var best := t.BestOf(len, w, m - 1);
      if x < m - 1 {
        BestOfIsOptimal(t, len, w, m - 1, p);
      }
      EarlierComesFirst(t, len, w, m - 1);
      PreferredChoice(t, best, candidate, p);
    }
  }

  /** Appending a tag after paths with equal recent tags keeps the preference. */
  lemma PreferredExtend(t: Lattice, r: seq<int>, q: seq<int>, tag: int)
    requires Exact(t) && t.IsPath(r + [tag]) && t.IsPath(q + [tag]) && |r| == |q|
    requires Window(r, t.order - 1) == Window(q, t.order - 1)
    requires t.IsPath(r) && t.IsPath(q) && Preferred(t, r, q)
    ensures Preferred(t, r + [tag], q + [tag])
  {
    assert (r + [tag])[..|r|] == r && (q + [tag])[..|q|] == q;
    WindowExtend(r, tag, t.order);
    WindowExtend(q, tag, t.order);
    assert SameWindow(t, r + [tag], q + [tag]);
  }

  lemma {:induction false} ExtensionIsOptimal(t: Lattice, len: nat, w: seq<int>, x: nat, p: seq<int>)
    requires Exact(t) && t.IsState(len, w) && len >= t.order && x < t.sizes[len - t.order]
    requires t.IsPath(p) && |p| == len && Window(p, |w|) == w && p[len - t.order] == x
    ensures Preferred(t, t.Extension(len, w, x), p)
    decreases len, 0, 0
  {
    hide Lattice.Best, Lattice.BestOf, Lattice.Extension, Lattice.PathScore, NotAfter;
    ExtensionUnfolds(t, len, w, x);
    RecentOfPrefix(t, len, w, p);
    var q, v := p[..len - 1], w[1..] + [x];
    BestIsOptimal(t, len - 1, v, q);
    PreferredExtend(t, t.Best(len - 1, v), q, w[0]);
  }

  /** The tag just before the state's own tags tells which predecessor was extended. */
  lemma ExtensionTag(t: Lattice, len: nat, w: seq<int>, x: nat)
    requires t.Valid() && t.IsState(len, w)
    requires len >= t.order && x < t.sizes[len - t.order]
    ensures t.Extension(len, w, x)[len - t.order] == x
  {
    var v := w[1..] + [x];
    assert Window(t.Best(len - 1, v), |v|)[|v| - 1] == v[|v| - 1];
  }

  lemma {:induction false} BestOfTag(t: Lattice, len: nat, w: seq<int>, m: nat)
    requires t.Valid() && t.IsState(len, w)
    requires len >= t.order && 1 <= m <= t.sizes[len - t.order]
    ensures 0 <= t.BestOf(len, w, m)[len - t.order] < m
    decreases m
  {
    ExtensionTag(t, len, w, m - 1);
    if m > 1 { BestOfTag(t, len, w, m - 1); }
  }

  /** Whatever is kept among the first `x` predecessors comes before the next extension. */
  lemma EarlierComesFirst(t: Lattice, len: nat, w: seq<int>, x: nat)
    requires t.Valid() && t.IsState(len, w) && len >= t.order && 1 <= x < t.sizes[len - t.order]
    ensures NotAfter(t.BestOf(len, w, x), t.Extension(len, w, x))
  {
    var p, q := t.BestOf(len, w, x), t.Extension(len, w, x);
    assert p[len - t.order] < x == q[len - t.order] by {
      BestOfTag(t, len, w, x);
      ExtensionTag(t, len, w, x);
    }
    NotAfterByTag(p, q, |w|);
  }

  lemma {:induction false} SingleCombination(t: Lattice, len: nat, k: nat, j: nat)
    requires t.Valid() && k <= len <= |t.sizes| && t.Combinations(len, k) == 1
    requires len - k <= j < len
    ensures t.sizes[j] == 1
  {
    var rest := t.Combinations(len - 1, k - 1);
    assert t.sizes[len - 1] >= 1 && t.sizes[len - 1] * rest == 1;
    ProductOne(t.sizes[len - 1], rest);
    if j < len - 1 { SingleCombination(t, len - 1, k - 1, j); }
  }

  /** At a position with a single combination all paths have the same window. */
  lemma SkippedSameWindow(t: Lattice, p: seq<int>, q: seq<int>)
    requires t.Valid() && t.IsPath(p) && t.IsPath(q) && |p| == |q| >= 1 && t.Skipped(|p| - 1)
    ensures SameWindow(t, p, q)
  {
    hide Lattice.Combinations;
    var last := |p| - 1;
    forall j | 0 <= j < t.order
      ensures Window(p, t.order)[j] == Window(q, t.order)[j]
    {
      if 0 < j <= last { SingleCombination(t, last, t.Context(last), last - j); }
    }
  }

  /** Not scoring a position with a single combination changes every path by the same amount. */
  lemma {:induction false} SkippingIsConstant(t: Lattice, p: seq<int>, q: seq<int>)
    requires Exact(t) && t.IsPath(p) && t.IsPath(q) && |p| == |q|
    ensures t.TotalScore(p) - t.PathScore(p) == t.TotalScore(q) - t.PathScore(q)
  {
    if p != [] {
      var last := |p| - 1;
      SkippingIsConstant(t, p[..last], q[..last]);
      if t.Skipped(last) {
        SkippedSameWindow(t, p, q);
      }
    }
  }

  /** `p` is preferred to `q` when all positions are scored. */
  ghost predicate PreferredTotal(t: Lattice, p: seq<int>, q: seq<int>)
    requires |p| == |q|
  {
    t.TotalScore(p) > t.TotalScore(q) || (t.TotalScore(p) == t.TotalScore(q) && NotAfter(p, q))
  }

  lemma PreferredInTotal(t: Lattice, p: seq<int>, q: seq<int>)
    requires Exact(t) && t.IsPath(p) && t.IsPath(q) && |p| == |q|
    ensures Preferred(t, p, q) <==> PreferredTotal(t, p, q)
  {
    hide Lattice.TotalScore, Lattice.PathScore, NotAfter;
    SkippingIsConstant(t, p, q);
  }
}
