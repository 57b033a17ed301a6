/** What decoding maximises, said of the sums of the scores along a path (src/tagger/viterbi.h). */
module DecodingLaws {
  import opened Bytes
  import opened ViterbiSpec
  import opened ViterbiOptimality
  import opened TaggerLattice
  import opened ViterbiResult
  import FS = FeatureSequences

  /** What a position contributes: the score of its tag and those before it, latest first and -1 before the
      sentence, with the dynamic features that the tagger's function gives when applied tag by tag. */
  lemma StepIs(model: FS.Model, st: FS.Sentence, order: nat, windowSize: nat, p: seq<int>, window: seq<int>,
               dynamics: seq<FS.Values>)
    requires model.Valid(windowSize) && st.Valid(model) && 1 <= |p| <= |st.perForm| && |window| == windowSize
    requires forall j :: 0 <= j < |p| ==> 0 <= p[j] < |st.perTag[j]|
    requires forall j :: 0 <= j < windowSize ==> window[j] == if j < |p| then p[|p| - 1 - j] else -1
    requires |dynamics| == |p| && dynamics[0] == st.nextDynamic(0, p[0], None)
    requires forall n :: 0 < n < |p| ==> dynamics[n] == st.nextDynamic(n, p[n], Some(dynamics[n - 1]))
    ensures st.WindowOk(|p| - 1, window) && |dynamics[|p| - 1]| == model.dynamicWidth
    ensures LatticeOf(model, st, order, windowSize).step(p)
         == FS.Score(model, st, windowSize, |p| - 1, window, dynamics[|p| - 1])
  {
    assert window == Window(p, windowSize);
    DynamicIs(st, p, dynamics);
  }

  lemma {:induction false} DynamicIs(st: FS.Sentence, p: seq<int>, dynamics: seq<FS.Values>)
    requires TagPath(st, p) && |dynamics| == |p| >= 1 && dynamics[0] == st.nextDynamic(0, p[0], None)
    requires forall n :: 0 < n < |p| ==> dynamics[n] == st.nextDynamic(n, p[n], Some(dynamics[n - 1]))
    ensures DynamicOf(st, p) == dynamics[|p| - 1]
  {
    var last := |p| - 1;
    if last > 0 { DynamicIs(st, p[..last], dynamics[..last]); }
  }

  /** The score of a path is what adding up its positions one after the other comes to. */
  lemma {:induction false} TotalIs(t: Lattice, p: seq<int>, sums: seq<int>)
    requires |sums| == |p| + 1 && sums[0] == 0
    requires forall n :: 0 < n <= |p| ==> sums[n] == sums[n - 1] + t.step(p[..n])
    ensures t.TotalScore(p) == sums[|p|]
  {
    if p != [] {
      var last := |p| - 1;
      forall n | 0 < n <= last
        ensures sums[n] == sums[n - 1] + t.step(p[..last][..n])
      {
        assert p[..last][..n] == p[..n];
      }
      TotalIs(t, p[..last], sums[..|p|]);
      assert p[..|p|] == p;
    }
  }

  lemma {:induction false} LastDifference(p: seq<int>, q: seq<int>) returns (n: nat)
    requires |p| == |q| && NotAfter(p, q) && p != q
    ensures n < |p| && p[n] < q[n] && forall m :: n < m < |p| ==> p[m] == q[m]
  {
    n := |p| - 1;
    if p[n] == q[n] {
      assert p == p[..n] + [p[n]] && q == q[..n] + [q[n]];
      n := LastDifference(p[..n], q[..n]);
    }
  }

  lemma {:induction false} NotAfterByDifference(p: seq<int>, q: seq<int>, n: nat)
    requires |p| == |q| && n < |p| && p[n] < q[n] && forall m :: n < m < |p| ==> p[m] == q[m]
    ensures NotAfter(p, q)
  {
    var last := |p| - 1;
    if n < last { NotAfterByDifference(p[..last], q[..last], n); }
  }

  /** Reading from the last word to the first, one path does not come after another exactly if they are equal or it
      has the smaller analysis at the last word at which they differ. */
  lemma NotAfterMeans(p: seq<int>, q: seq<int>)
    requires |p| == |q|
    ensures NotAfter(p, q) <==>
      p == q || exists n :: 0 <= n < |p| && p[n] < q[n] && forall m :: n < m < |p| ==> p[m] == q[m]
  {
    hide NotAfter;
    NotAfterReflexive(p);
    if NotAfter(p, q) && p != q { var _ := LastDifference(p, q); }
    if n :| 0 <= n < |p| && p[n] < q[n] && forall m :: n < m < |p| ==> p[m] == q[m] {
      NotAfterByDifference(p, q, n);
    }
  }

  /** Decoding finds the greatest sum. With a window as long as the decoding order and no dynamic features, the
      scores of the decoded path add up to at least as much as those of any other choice of analyses; and to more,
      unless the decoded path has the smaller analysis at the last word at which the two differ. */
  lemma TaggingMaximises(model: FS.Model, st: FS.Sentence, order: nat, p: seq<int>, sums: seq<int>, best: seq<int>,
                         bestSums: seq<int>)
    requires order >= 2 && model.Valid(order) && st.Valid(model)
    requires forall i :: 0 <= i < |st.perForm| ==> |st.perTag[i]| >= 1
    requires forall s <- model.sequences :: forall e <- s.elements :: !e.kind.Dynamic?
    requires |p| == |st.perForm| && forall j :: 0 <= j < |p| ==> 0 <= p[j] < |st.perTag[j]|
    requires var t := LatticeOf(model, st, order, order);
      && t.Valid() && best == Decoded(t)
      && |sums| == |p| + 1 && sums[0] == 0
      && (forall n :: 0 < n <= |p| ==> sums[n] == sums[n - 1] + t.step(p[..n]))
      && |bestSums| == |best| + 1 && bestSums[0] == 0
      && (forall n :: 0 < n <= |best| ==> bestSums[n] == bestSums[n - 1] + t.step(best[..n]))
    ensures |best| == |p| && sums[|p|] <= bestSums[|p|]
    ensures best != p && sums[|p|] == bestSums[|p|] ==>
      exists n :: 0 <= n < |p| && best[n] < p[n] && forall m :: n < m < |p| ==> best[m] == p[m]
  {
    hide Decoded, FS.Model.Valid, StepScore, Lattice.TotalScore, NotAfter;
    var t := LatticeOf(model, st, order, order);
    assert forall s <- model.sequences :: NoDynamic(s.elements);
    TaggingIsOptimal(model, st, order, p);
    TotalIs(t, p, sums);
    TotalIs(t, best, bestSums);
    NotAfterMeans(best, p);
  }

  /** No choice of analyses scores at least as well as the decoded one at every word, and better at some word. */
  lemma NothingDominates(model: FS.Model, st: FS.Sentence, order: nat, p: seq<int>, k: nat)
    requires order >= 2 && model.Valid(order) && st.Valid(model)
    requires forall i :: 0 <= i < |st.perForm| ==> |st.perTag[i]| >= 1
    requires forall s <- model.sequences :: forall e <- s.elements :: !e.kind.Dynamic?
    requires |p| == |st.perForm| && forall j :: 0 <= j < |p| ==> 0 <= p[j] < |st.perTag[j]|
    requires 0 < k <= |p|
    ensures var t := LatticeOf(model, st, order, order);
      && t.Valid()
      && ((forall n :: 0 < n <= |p| ==> t.step(p[..n]) >= t.step(Decoded(t)[..n]))
            ==> t.step(p[..k]) == t.step(Decoded(t)[..k]))
  {
    hide Decoded, FS.Model.Valid, StepScore, Lattice.TotalScore, NotAfter;
    var t := LatticeOf(model, st, order, order);
    assert forall s <- model.sequences :: NoDynamic(s.elements);
    TaggingIsOptimal(model, st, order, p);
    if forall n :: 0 < n <= |p| ==> t.step(p[..n]) >= t.step(Decoded(t)[..n]) {
      BetterEverywhere(t, p, Decoded(t), |p|, k);
      assert p[..|p|] == p && Decoded(t)[..|p|] == Decoded(t);
    }
  }

  lemma {:induction false} BetterEverywhere(t: Lattice, p: seq<int>, q: seq<int>, m: nat, k: nat)
    requires |p| == |q| && m <= |p| && 0 < k
    requires forall n :: 0 < n <= m ==> t.step(p[..n]) >= t.step(q[..n])
    ensures t.TotalScore(p[..m]) >= t.TotalScore(q[..m])
    ensures k <= m && t.step(p[..k]) != t.step(q[..k]) ==> t.TotalScore(p[..m]) > t.TotalScore(q[..m])
  {
    if m > 0 {
      BetterEverywhere(t, p, q, m - 1, k);
      assert p[..m][..m - 1] == p[..m - 1] && q[..m][..m - 1] == q[..m - 1];
    }
  }
}
