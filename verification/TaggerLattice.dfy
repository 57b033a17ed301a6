/** The lattice of a sentence: analyses of its words, scored by the tagger's feature sequences. */
module TaggerLattice {
  import opened Bytes
  import FS = FeatureSequences
  import opened ViterbiSpec
  import opened ViterbiOptimality

  predicate TagPath(st: FS.Sentence, p: seq<int>) {
    |p| <= |st.perForm| <= |st.perTag| && forall j :: 0 <= j < |p| ==> 0 <= p[j] < |st.perTag[j]|
  }

  /** Dynamic features at the end of a path: the fold of the tagger's function along it. */
  function DynamicOf(st: FS.Sentence, p: seq<int>): FS.Values
    requires TagPath(st, p) && |p| >= 1
  {
    var last := |p| - 1;
    st.nextDynamic(last, p[last], if last == 0 then None else Some(DynamicOf(st, p[..last])))
  }

  lemma WindowInside(st: FS.Sentence, p: seq<int>, windowSize: nat)
    requires TagPath(st, p) && |p| >= 1
    ensures st.WindowOk(|p| - 1, Window(p, windowSize))
  {
  }

  /** What the last position of a path contributes, computed from scratch. */
  ghost function StepScore(model: FS.Model, st: FS.Sentence, windowSize: nat, p: seq<int>): int {
    if model.Valid(windowSize) && st.Valid(model) && TagPath(st, p) && |p| >= 1 then
      WindowInside(st, p, windowSize);
      FS.Score(model, st, windowSize, |p| - 1, Window(p, windowSize), DynamicOf(st, p))
    else 0
  }

  /** Numbers of analyses of the words. */
  function Sizes(st: FS.Sentence): (s: seq<nat>)
    requires |st.perForm| <= |st.perTag|
    ensures |s| == |st.perForm|
  {
    seq(|st.perForm|, i requires 0 <= i < |st.perForm| => |st.perTag[i]|)
  }

  ghost function LatticeOf(model: FS.Model, st: FS.Sentence, order: nat, windowSize: nat): Lattice
    requires |st.perForm| <= |st.perTag|
  {
    Lattice(Sizes(st), order, p => StepScore(model, st, windowSize, p))
  }

  ghost predicate NoDynamic(elements: seq<FS.Element>) {
    forall e <- elements :: !e.kind.Dynamic?
  }

  lemma {:induction false} RangeWithoutDynamic(model: FS.Model, elements: seq<FS.Element>, windowSize: nat)
    requires windowSize >= 1 && NoDynamic(elements) && FS.ElementsOk(model, elements, windowSize)
    ensures FS.RangeOf(elements, windowSize) <= windowSize
  {
    if elements != [] {
      assert elements[|elements| - 1] in elements;
      RangeWithoutDynamic(model, elements[..|elements| - 1], windowSize);
    }
  }

  lemma {:induction false} ScoreWithoutDynamic(model: FS.Model, st: FS.Sentence, windowSize: nat, count: nat,
                                               i: nat, w: seq<int>, d: FS.Values, e: FS.Values)
    requires model.Valid(windowSize) && st.Valid(model) && windowSize >= 1 && count <= |model.sequences|
    requires forall s <- model.sequences :: NoDynamic(s.elements)
    requires |w| == windowSize && st.WindowOk(i, w) && |d| == |e| == model.dynamicWidth
    ensures FS.FullScore(model, st, windowSize, count, i, w, d) == FS.FullScore(model, st, windowSize, count, i, w, e)
  {
    hide FS.Key, FS.RangeOf;
    if count > 0 {
      var s := model.sequences[count - 1];
      assert s in model.sequences;
      ScoreWithoutDynamic(model, st, windowSize, count - 1, i, w, d, e);
      RangeWithoutDynamic(model, s.elements, windowSize);
      FS.KeyDependsOnRange(model, st, s.elements, i, w, w, windowSize, d, e);
    }
  }

  /** The hypotheses under which decoding is exact: the decoding order spans the window and no
      sequence contains a dynamic feature. */
  lemma LatticeIsExact(model: FS.Model, st: FS.Sentence, order: nat)
    requires order >= 2 && model.Valid(order) && st.Valid(model)
    requires forall i :: 0 <= i < |st.perForm| ==> |st.perTag[i]| >= 1
    requires forall s <- model.sequences :: NoDynamic(s.elements)
    ensures Exact(LatticeOf(model, st, order, order))
  {
    hide FS.FullScore;
    var t := LatticeOf(model, st, order, order);
    forall p, q | SameWindow(t, p, q)
      ensures t.step(p) == t.step(q)
    {
      assert TagPath(st, p) && TagPath(st, q);
      WindowInside(st, p, order);
      ScoreWithoutDynamic(model, st, order, |model.sequences|, |p| - 1, Window(p, order), DynamicOf(st, p),
        DynamicOf(st, q));
    }
  }
}
