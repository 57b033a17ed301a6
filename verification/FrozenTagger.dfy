/** Renumbering features changes no decision: a tagger over renumbered features decodes every sentence exactly
    like one that scores by the same weights before renumbering (src/tagger/feature_sequences_optimizer.h). These
    are the averaged weights, while decoding during training scores by the latest ones. */
module FrozenTagger {
  import opened Bytes
  import opened FeatureSequences
  import opened FeatureOptimizer
  import opened TaggerLattice
  import opened ViterbiSpec
  import opened ViterbiStates
  import opened ViterbiOptimality
  import opened ViterbiResult

  /** The elementary map of a feature, or -1 when its values are not ids of strings. */
  type MapIndex = (Kind, nat) -> int

  function IndicesOf(indexOf: MapIndex, elements: seq<Element>): (r: MapIndices)
    ensures |r| == |elements|
    ensures forall j :: 0 <= j < |r| ==> r[j] == indexOf(elements[j].kind, elements[j].elementaryIndex)
  {
    seq(|elements|, j requires 0 <= j < |elements| => indexOf(elements[j].kind, elements[j].elementaryIndex))
  }

  ghost predicate IndexOk(indexOf: MapIndex, tables: seq<Renumbering>) {
    forall kind, e :: indexOf(kind, e) < |tables|
  }

  /** One row of feature values under the renumbering. */
  ghost function Row(indexOf: MapIndex, tables: seq<Renumbering>, kind: Kind, row: Values): (r: Values)
    requires IndexOk(indexOf, tables)
    ensures |r| == |row|
    ensures forall e :: 0 <= e < |row| ==> r[e] == RenumberValue(tables, indexOf(kind, e), row[e])
  {
    seq(|row|, e requires 0 <= e < |row| => RenumberValue(tables, indexOf(kind, e), row[e]))
  }

  ghost function PreviousRow(indexOf: MapIndex, tables: seq<Renumbering>, previous: Option<Values>): Option<Values>
    requires IndexOk(indexOf, tables)
  {
    match previous
    case None => None
    case Some(row) => Some(Row(indexOf, tables, Dynamic, row))
  }

  /** The same sentence, its features looked up in the optimized maps. */
  ghost predicate FrozenSentence(indexOf: MapIndex, tables: seq<Renumbering>, st: Sentence, frozen: Sentence)
    requires IndexOk(indexOf, tables)
  {
    && |frozen.perForm| == |st.perForm| && |frozen.perTag| == |st.perTag|
    && (forall i :: 0 <= i < |st.perForm| ==> frozen.perForm[i] == Row(indexOf, tables, PerForm, st.perForm[i]))
    && (forall i :: 0 <= i < |st.perTag| ==> |frozen.perTag[i]| == |st.perTag[i]|)
    && (forall i, t :: 0 <= i < |st.perTag| && 0 <= t < |st.perTag[i]| ==>
          frozen.perTag[i][t] == Row(indexOf, tables, PerTag, st.perTag[i][t]))
    && forall i, t, previous ::
         frozen.nextDynamic(i, t, PreviousRow(indexOf, tables, previous)) ==
           Row(indexOf, tables, Dynamic, st.nextDynamic(i, t, previous))
  }

  /** The same sequences, with the score maps that the optimization guarantees. */
  ghost predicate FrozenModel(indexOf: MapIndex, tables: seq<Renumbering>, model: Model, frozen: Model)
    requires IndexOk(indexOf, tables)
  {
    && frozen.sequences == model.sequences && |frozen.scores| == |model.scores| == |model.sequences|
    && frozen.formWidth == model.formWidth && frozen.tagWidth == model.tagWidth
      && frozen.dynamicWidth == model.dynamicWidth
    && TablesOk(tables)
    && forall s, values :: 0 <= s < |model.sequences| && |values| == |model.sequences[s].elements| ==>
         SameWeight(model, frozen, tables, IndicesOf(indexOf, model.sequences[s].elements), s, values)
  }

  ghost predicate SameWeight(model: Model, frozen: Model, tables: seq<Renumbering>, indices: MapIndices, s: nat,
                             values: seq<UInt32>)
    requires s < |model.scores| == |frozen.scores| && |values| == |indices| && IndicesOk(indices, |tables|)
  {
    Lookup(frozen.scores[s], KeyOf(RenumberAll(tables, indices, values))) == Lookup(model.scores[s], KeyOf(values))
  }

  lemma FrozenIsValid(indexOf: MapIndex, tables: seq<Renumbering>, model: Model, frozenModel: Model,
                      st: Sentence, frozen: Sentence, windowSize: nat)
    requires IndexOk(indexOf, tables) && FrozenModel(indexOf, tables, model, frozenModel)
    requires FrozenSentence(indexOf, tables, st, frozen)
    requires model.Valid(windowSize) && st.Valid(model)
    ensures frozenModel.Valid(windowSize)
    ensures forall i, t, d :: |frozen.nextDynamic(i, t, PreviousRow(indexOf, tables, d))| == model.dynamicWidth
  {
    hide SameWeight;
  }

  /** Values read from the frozen sentence are the renumbered values. */
  lemma FrozenValues(indexOf: MapIndex, tables: seq<Renumbering>, model: Model, frozenModel: Model, st: Sentence,
                     frozen: Sentence,
                     elements: seq<Element>, i: nat, w: seq<int>, dyn: Values)
    requires IndexOk(indexOf, tables) && FrozenModel(indexOf, tables, model, frozenModel)
    requires FrozenSentence(indexOf, tables, st, frozen)
    requires st.Valid(model) && frozen.Valid(frozenModel)
    requires ElementsOk(model, elements, |w|) && ElementsOk(frozenModel, elements, |w|)
    requires st.WindowOk(i, w) && frozen.WindowOk(i, w) && |dyn| == model.dynamicWidth
    ensures ValuesOf(frozenModel, frozen, elements, i, w, Row(indexOf, tables, Dynamic, dyn)) ==
            RenumberAll(tables, IndicesOf(indexOf, elements), ValuesOf(model, st, elements, i, w, dyn))
  {
    hide SameWeight;
    var frozenDyn := Row(indexOf, tables, Dynamic, dyn);
    var x, y := ValuesOf(frozenModel, frozen, elements, i, w, frozenDyn), ValuesOf(model, st, elements, i, w, dyn);
    forall j | 0 <= j < |elements|
      ensures x[j] == RenumberValue(tables, indexOf(elements[j].kind, elements[j].elementaryIndex), y[j])
    {
      assert elements[j] in elements;
      FrozenValue(indexOf, tables, model, frozenModel, st, frozen, elements[j], i, w, dyn);
    }
  }

  lemma FrozenValue(indexOf: MapIndex, tables: seq<Renumbering>, model: Model, frozenModel: Model, st: Sentence,
                    frozen: Sentence,
                    e: Element, i: nat, w: seq<int>, dyn: Values)
    requires IndexOk(indexOf, tables) && FrozenModel(indexOf, tables, model, frozenModel)
    requires FrozenSentence(indexOf, tables, st, frozen)
    requires st.Valid(model) && frozen.Valid(frozenModel)
    requires model.ElementOk(e, |w|) && frozenModel.ElementOk(e, |w|)
    requires st.WindowOk(i, w) && frozen.WindowOk(i, w) && |dyn| == model.dynamicWidth
    ensures Value(frozenModel, frozen, e, i, w, Row(indexOf, tables, Dynamic, dyn)) ==
            RenumberValue(tables, indexOf(e.kind, e.elementaryIndex), Value(model, st, e, i, w, dyn))
  {
    hide SameWeight;
    var index := indexOf(e.kind, e.elementaryIndex);
    if index >= 0 { assert TableOk(tables[index]); }
  }

  lemma {:induction false} FrozenFullScore(indexOf: MapIndex, tables: seq<Renumbering>, model: Model,
                                           frozenModel: Model,
                                           st: Sentence, frozen: Sentence, windowSize: nat, count: nat, i: nat,
                                             w: seq<int>, dyn: Values)
    requires IndexOk(indexOf, tables) && FrozenModel(indexOf, tables, model, frozenModel)
    requires FrozenSentence(indexOf, tables, st, frozen)
    requires model.Valid(windowSize) && frozenModel.Valid(windowSize) && st.Valid(model) && frozen.Valid(frozenModel)
    requires |w| == windowSize && st.WindowOk(i, w) && frozen.WindowOk(i, w) && |dyn| == model.dynamicWidth
    requires count <= |model.sequences|
    ensures FullScore(frozenModel, frozen, windowSize, count, i, w, Row(indexOf, tables, Dynamic, dyn)) ==
            FullScore(model, st, windowSize, count, i, w, dyn)
  {
    hide ValuesOf, KeyOf, Lookup, RangeOf, RenumberAll, IndicesOf, Row, FrozenSentence;
    if count > 0 {
      var s := model.sequences[count - 1];
      assert s in model.sequences;
      FrozenFullScore(indexOf, tables, model, frozenModel, st, frozen, windowSize, count - 1, i, w, dyn);
      FrozenValues(indexOf, tables, model, frozenModel, st, frozen, s.elements, i, w, dyn);
      var values := ValuesOf(model, st, s.elements, i, w, dyn);
      assert SameWeight(model, frozenModel, tables, IndicesOf(indexOf, s.elements), count - 1, values);
    }
  }

  lemma {:induction false} FrozenDynamic(indexOf: MapIndex, tables: seq<Renumbering>, st: Sentence, frozen: Sentence,
                                         p: seq<int>)
    requires IndexOk(indexOf, tables) && FrozenSentence(indexOf, tables, st, frozen)
    requires TagPath(st, p) && TagPath(frozen, p) && |p| >= 1
    ensures DynamicOf(frozen, p) == Row(indexOf, tables, Dynamic, DynamicOf(st, p))
  {
    hide Row;
    var last := |p| - 1;
    if last == 0 {
      assert PreviousRow(indexOf, tables, None) == None;
    } else {
      FrozenDynamic(indexOf, tables, st, frozen, p[..last]);
      assert PreviousRow(indexOf, tables, Some(DynamicOf(st, p[..last]))) == Some(DynamicOf(frozen, p[..last]));
    }
  }

  /** Every position of every path gets the same score. */
  lemma FrozenStep(indexOf: MapIndex, tables: seq<Renumbering>, model: Model, frozenModel: Model,
                   st: Sentence, frozen: Sentence, windowSize: nat, p: seq<int>)
    requires IndexOk(indexOf, tables) && FrozenModel(indexOf, tables, model, frozenModel)
    requires FrozenSentence(indexOf, tables, st, frozen)
    requires model.Valid(windowSize) && frozenModel.Valid(windowSize) && st.Valid(model) && frozen.Valid(frozenModel)
    ensures StepScore(frozenModel, frozen, windowSize, p) == StepScore(model, st, windowSize, p)
  {
    hide FullScore, Row, SameWeight, RangeOf;
    assert TagPath(frozen, p) <==> TagPath(st, p);
    if TagPath(st, p) && |p| >= 1 {
      WindowInside(st, p, windowSize);
      WindowInside(frozen, p, windowSize);
      FrozenDynamic(indexOf, tables, st, frozen, p);
      FrozenFullScore(indexOf, tables, model, frozenModel, st, frozen, windowSize, |model.sequences|,
                      |p| - 1, Window(p, windowSize), DynamicOf(st, p));
    }
  }

  /** Lattices of the same shape in which every position of every path has the same score. */
  ghost predicate Alike(t: Lattice, u: Lattice) {
    t.Valid() && u.Valid() && t.sizes == u.sizes && t.order == u.order && forall p :: t.step(p) == u.step(p)
  }

  lemma {:induction false} AlikeCombinations(t: Lattice, u: Lattice, len: nat, k: nat)
    requires t.sizes == u.sizes && k <= len <= |t.sizes|
    ensures t.Combinations(len, k) == u.Combinations(len, k)
  {
    if k > 0 { AlikeCombinations(t, u, len - 1, k - 1); }
  }

  lemma {:induction false} AlikePathScore(t: Lattice, u: Lattice, p: seq<int>)
    requires Alike(t, u) && t.IsPath(p)
    ensures u.IsPath(p) && t.PathScore(p) == u.PathScore(p) && t.TotalScore(p) == u.TotalScore(p)
  {
    if p != [] {
      AlikePathScore(t, u, p[..|p| - 1]);
      AlikeCombinations(t, u, |p| - 1, t.Context(|p| - 1));
    }
  }

  lemma {:induction false} AlikeBest(t: Lattice, u: Lattice, len: nat, w: seq<int>)
    requires Alike(t, u) && t.IsState(len, w)
    ensures u.IsState(len, w) && t.Best(len, w) == u.Best(len, w)
    decreases len, 1, 0
  {
    hide Lattice.PathScore, Alike, Lattice.Best, Lattice.BestOf, Lattice.Extension;
    AlikeShape(t, u);
    AlikeStates(t, u, len, w);
    BestUnfolds(t, len, w);
    BestUnfolds(u, len, w);
    if 0 < len < t.order {
      AlikeBest(t, u, len - 1, w[1..]);
    } else if len >= t.order {
      AlikeBestOf(t, u, len, w, t.sizes[len - t.order]);
    }
  }

  lemma {:induction false} AlikeBestOf(t: Lattice, u: Lattice, len: nat, w: seq<int>, m: nat)
    requires Alike(t, u) && t.IsState(len, w) && u.IsState(len, w) && len >= t.order && 1 <= m <= t.sizes[len - t.order]
    ensures t.BestOf(len, w, m) == u.BestOf(len, w, m)
    decreases len, 0, m
  {
    hide Lattice.PathScore, Alike, Lattice.Best, Lattice.BestOf, Lattice.Extension;
    AlikeShape(t, u);
    BestOfUnfolds(t, len, w, m);
    BestOfUnfolds(u, len, w, m);
    AlikeExtension(t, u, len, w, m - 1);
    AlikePathScore(t, u, t.Extension(len, w, m - 1));
    if m > 1 {
      AlikeBestOf(t, u, len, w, m - 1);
      AlikePathScore(t, u, t.BestOf(len, w, m - 1));
    }
  }

  lemma AlikeStates(t: Lattice, u: Lattice, len: nat, w: seq<int>)
    requires t.sizes == u.sizes && t.order == u.order >= 1 && t.IsState(len, w)
    ensures u.IsState(len, w)
  {
  }

  lemma AlikeShape(t: Lattice, u: Lattice)
    requires Alike(t, u)
    ensures t.Valid() && u.Valid() && t.sizes == u.sizes && t.order == u.order
  {
  }

  lemma {:induction false} AlikeExtension(t: Lattice, u: Lattice, len: nat, w: seq<int>, x: nat)
    requires Alike(t, u) && t.IsState(len, w) && u.IsState(len, w) && len >= t.order && x < t.sizes[len - t.order]
    ensures t.Extension(len, w, x) == u.Extension(len, w, x)
    decreases len, 0, 0
  {
    hide Lattice.Best, Lattice.BestOf, Lattice.PathScore, Alike;
    AlikeShape(t, u);
    AlikeBest(t, u, len - 1, w[1..] + [x]);
  }

  lemma {:induction false} AlikeTuple(t: Lattice, u: Lattice, len: nat, k: nat, r: nat)
    requires t.Valid() && u.Valid() && t.sizes == u.sizes && k <= len <= |t.sizes|
    requires r < t.Combinations(len, k) && r < u.Combinations(len, k)
    ensures Tuple(t, len, k, r) == Tuple(u, len, k, r)
  {
    if k > 0 {
      var rest := t.Combinations(len - 1, k - 1);
      AlikeCombinations(t, u, len - 1, k - 1);
      CombinationsPositive(t, len - 1, k - 1);
      AlikeTuple(t, u, len - 1, k - 1, r % rest);
    }
  }

  lemma {:induction false} AlikeFirstBest(t: Lattice, u: Lattice, len: nat, m: nat)
    requires Alike(t, u) && len <= |t.sizes| && 1 <= m <= t.Combinations(len, t.Context(len))
    requires m <= u.Combinations(len, u.Context(len))
    ensures FirstBest(t, len, m) == FirstBest(u, len, m)
  {
    hide Lattice.Best, Lattice.BestOf, Lattice.PathScore, Tuple, Lattice.Combinations, Alike;
    AlikeShape(t, u);
    AlikeTuple(t, u, len, t.Context(len), m - 1);
    AlikeBest(t, u, len, Tuple(t, len, t.Context(len), m - 1));
    AlikePathScore(t, u, Kept(t, len, m - 1));
    if m > 1 {
      AlikeFirstBest(t, u, len, m - 1);
      AlikePathScore(t, u, FirstBest(t, len, m - 1));
    }
  }

  /** Renumbering the features of a tagger changes neither the score of any tag path nor the decoded path. */
  lemma FrozenDecodesAlike(indexOf: MapIndex, tables: seq<Renumbering>, model: Model, frozenModel: Model,
                           st: Sentence, frozen: Sentence, order: nat, windowSize: nat)
    requires IndexOk(indexOf, tables) && FrozenModel(indexOf, tables, model, frozenModel)
    requires FrozenSentence(indexOf, tables, st, frozen)
    requires model.Valid(windowSize) && st.Valid(model) && frozen.Valid(frozenModel)
    requires LatticeOf(model, st, order, windowSize).Valid()
    ensures frozenModel.Valid(windowSize) && LatticeOf(frozenModel, frozen, order, windowSize).Valid()
    ensures forall p :: TagPath(st, p) ==>
      LatticeOf(frozenModel, frozen, order, windowSize).TotalScore(p) ==
        LatticeOf(model, st, order, windowSize).TotalScore(p)
    ensures Decoded(LatticeOf(frozenModel, frozen, order, windowSize)) ==
      Decoded(LatticeOf(model, st, order, windowSize))
  {
    hide FirstBest, StepScore, SameWeight, Lattice.TotalScore, Lattice.Combinations;
    FrozenIsValid(indexOf, tables, model, frozenModel, st, frozen, windowSize);
    var t, u := LatticeOf(model, st, order, windowSize), LatticeOf(frozenModel, frozen, order, windowSize);
    forall p: seq<int>
      ensures t.step(p) == u.step(p)
    {
      FrozenStep(indexOf, tables, model, frozenModel, st, frozen, windowSize, p);
    }
    assert Sizes(st) == Sizes(frozen);
    assert Alike(t, u);
    forall p | TagPath(st, p)
      ensures u.TotalScore(p) == t.TotalScore(p)
    {
      AlikePathScore(t, u, p);
    }
    var n := |t.sizes|;
    AlikeCombinations(t, u, n, t.Context(n));
    CombinationsPositive(t, n, t.Context(n));
    AlikeFirstBest(t, u, n, t.Combinations(n, t.Context(n)));
  }
}
