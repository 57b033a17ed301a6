/** Keys and scores of feature sequences, said of the rows of a sentence and of the stored weights themselves
    (src/tagger/feature_sequences.h, src/tagger/training_maps.h). */
module FeatureLaws {
  import opened Bytes
  import Vli
  import FS = FeatureSequences
  import FO = FeatureOptimizer

  /** Which values the key of a sequence is made of. A form feature with offset `k` is that of word `i + k`, or 1
      outside of the sentence. A tag feature with offset `-k` is that of the tag `k` places back in the window, or 1
      before the sentence. The key is the code of these values in order, and empty if one of them is 0. */
  lemma KeyIs(model: FS.Model, st: FS.Sentence, elements: seq<FS.Element>, i: nat, window: seq<int>, dyn: FS.Values,
              vs: seq<UInt32>)
    requires st.Valid(model) && st.WindowOk(i, window)
    requires |dyn| == model.dynamicWidth && |vs| == |elements|
    requires forall j :: 0 <= j < |elements| && elements[j].kind.PerForm? ==>
      var e := elements[j];
      var word := i + e.sequenceIndex;
      && model.ElementOk(e, |window|)
      && vs[j] == if 0 <= word < |st.perForm| then st.perForm[word][e.elementaryIndex] else 1
    requires forall j :: 0 <= j < |elements| && elements[j].kind.PerTag? ==>
      var e := elements[j];
      var back := -e.sequenceIndex;
      && model.ElementOk(e, |window|)
      && vs[j] == if back <= i then st.perTag[i - back][window[back]][e.elementaryIndex] else 1
    requires forall j :: 0 <= j < |elements| && elements[j].kind.Dynamic? ==>
      var e := elements[j];
      model.ElementOk(e, |window|) && vs[j] == dyn[e.elementaryIndex]
    ensures FS.Key(model, st, elements, i, window, dyn) == if 0 in vs then [] else Vli.EncodeAll(vs)
  {
    var us := FS.ValuesOf(model, st, elements, i, window, dyn);
    forall j | 0 <= j < |elements|
      ensures us[j] == vs[j]
    {
      assert elements[j] in elements;
    }
    assert us == vs;
  }

  /** Changing the form features of word `j` changes no key whose form offsets all lead to other words. */
  lemma OtherForms(model: FS.Model, st: FS.Sentence, elements: seq<FS.Element>, i: nat, window: seq<int>,
                   dyn: FS.Values, j: nat, row: FS.Values)
    requires st.Valid(model) && FS.ElementsOk(model, elements, |window|) && st.WindowOk(i, window)
    requires |dyn| == model.dynamicWidth && j < |st.perForm| && |row| == model.formWidth
    requires forall e <- elements :: e.kind.PerForm? ==> e.sequenceIndex != j - i
    ensures FS.Key(model, st.(perForm := st.perForm[j := row]), elements, i, window, dyn)
         == FS.Key(model, st, elements, i, window, dyn)
  {
    var other := st.(perForm := st.perForm[j := row]);
    var vs, us := FS.ValuesOf(model, st, elements, i, window, dyn), FS.ValuesOf(model, other, elements, i, window, dyn);
    forall n | 0 <= n < |elements|
      ensures us[n] == vs[n]
    {
      assert elements[n] in elements;
    }
    assert us == vs;
  }

  /** Changing the features of the analyses of word `j` changes no key whose tag offsets all lead to other words, and
      other tags in the window do not matter where no tag offset leads. */
  lemma OtherTags(model: FS.Model, st: FS.Sentence, elements: seq<FS.Element>, i: nat, v: seq<int>, w: seq<int>,
                  dyn: FS.Values, j: nat, rows: seq<FS.Values>)
    requires st.Valid(model) && |v| == |w| && FS.ElementsOk(model, elements, |v|) && st.WindowOk(i, v)
    requires |dyn| == model.dynamicWidth && j < |st.perTag| && forall row <- rows :: |row| == model.tagWidth
    requires st.(perTag := st.perTag[j := rows]).WindowOk(i, w)
    requires forall e <- elements :: e.kind.PerTag? ==>
      e.sequenceIndex != j - i && v[-e.sequenceIndex] == w[-e.sequenceIndex]
    ensures FS.Key(model, st.(perTag := st.perTag[j := rows]), elements, i, w, dyn)
         == FS.Key(model, st, elements, i, v, dyn)
  {
    var other := st.(perTag := st.perTag[j := rows]);
    var vs, us := FS.ValuesOf(model, st, elements, i, v, dyn), FS.ValuesOf(model, other, elements, i, w, dyn);
    forall n | 0 <= n < |elements|
      ensures us[n] == vs[n]
    {
      assert elements[n] in elements;
    }
    assert us == vs;
  }

  /** Dynamic features matter only where a dynamic element reads them. */
  lemma OtherDynamic(model: FS.Model, st: FS.Sentence, elements: seq<FS.Element>, i: nat, window: seq<int>,
                     d: FS.Values, e: FS.Values)
    requires st.Valid(model) && FS.ElementsOk(model, elements, |window|) && st.WindowOk(i, window)
    requires |d| == |e| == model.dynamicWidth
    requires forall el <- elements :: el.kind.Dynamic? ==> d[el.elementaryIndex] == e[el.elementaryIndex]
    ensures FS.Key(model, st, elements, i, window, d) == FS.Key(model, st, elements, i, window, e)
  {
    var vs, us := FS.ValuesOf(model, st, elements, i, window, d), FS.ValuesOf(model, st, elements, i, window, e);
    forall n | 0 <= n < |elements|
      ensures us[n] == vs[n]
    {
      assert elements[n] in elements;
    }
    assert us == vs;
  }

  /** A key that is not empty tells the form features it was made of: after a change of one of them to another
      known value the key is another one. */
  lemma KeyTellsForm(model: FS.Model, st: FS.Sentence, elements: seq<FS.Element>, i: nat, window: seq<int>,
                     dyn: FS.Values, n: nat, row: FS.Values)
    requires st.Valid(model) && FS.ElementsOk(model, elements, |window|) && st.WindowOk(i, window)
    requires |dyn| == model.dynamicWidth && |row| == model.formWidth && n < |elements| && elements[n].kind.PerForm?
    requires model.ElementOk(elements[n], |window|)
    requires 0 <= i + elements[n].sequenceIndex < |st.perForm|
    requires FS.Key(model, st, elements, i, window, dyn) != []
    requires row[elements[n].elementaryIndex] != st.perForm[i + elements[n].sequenceIndex][elements[n].elementaryIndex]
    ensures var j := i + elements[n].sequenceIndex;
      FS.Key(model, st.(perForm := st.perForm[j := row]), elements, i, window, dyn)
        != FS.Key(model, st, elements, i, window, dyn)
  {
    var other := st.(perForm := st.perForm[i + elements[n].sequenceIndex := row]);
    var vs, us := FS.ValuesOf(model, st, elements, i, window, dyn), FS.ValuesOf(model, other, elements, i, window, dyn);
    assert us[n] != vs[n];
    if Vli.EncodeAll(us) == Vli.EncodeAll(vs) { Vli.EncodeAllInjective(us, vs); }
  }

  /** Without weights every window scores zero. */
  lemma {:induction false} NoWeights(model: FS.Model, st: FS.Sentence, windowSize: nat, count: nat, i: nat,
                                     window: seq<int>, dyn: FS.Values)
    requires model.Valid(windowSize) && count <= |model.sequences| && forall scores <- model.scores :: scores == map[]
    requires st.Valid(model) && |window| == windowSize && st.WindowOk(i, window) && |dyn| == model.dynamicWidth
    ensures FS.FullScore(model, st, windowSize, count, i, window, dyn) == 0
    ensures count == |model.sequences| ==> FS.Score(model, st, windowSize, i, window, dyn) == 0
  {
    hide FS.Key, FS.RangeOf;
    if count > 0 {
      assert model.scores[count - 1] in model.scores;
      NoWeights(model, st, windowSize, count - 1, i, window, dyn);
    }
  }

  /** Weights are added as they are stored. Raising the weight of one key of the sequence `s` by `d`, from zero if
      the key was not stored, raises the score of a window by exactly `d` if the key is the code of the values of
      that window for `s`, none of them unknown; and it does not change the score otherwise. */
  lemma WeightRaised(model: FS.Model, st: FS.Sentence, windowSize: nat, i: nat, window: seq<int>, dyn: FS.Values,
                     s: nat, key: seq<Byte>, d: int, vs: seq<UInt32>)
    requires model.Valid(windowSize) && s < |model.sequences| && |vs| == |model.sequences[s].elements|
    requires st.Valid(model) && |window| == windowSize && st.WindowOk(i, window) && |dyn| == model.dynamicWidth
    requires forall j :: 0 <= j < |vs| ==> model.ElementOk(model.sequences[s].elements[j], windowSize)
    requires forall j :: 0 <= j < |vs| && model.sequences[s].elements[j].kind.PerForm? ==>
      var e := model.sequences[s].elements[j];
      var word := i + e.sequenceIndex;
      vs[j] == if 0 <= word < |st.perForm| then st.perForm[word][e.elementaryIndex] else 1
    requires forall j :: 0 <= j < |vs| && model.sequences[s].elements[j].kind.PerTag? ==>
      var e := model.sequences[s].elements[j];
      var back := -e.sequenceIndex;
      vs[j] == if back <= i then st.perTag[i - back][window[back]][e.elementaryIndex] else 1
    requires forall j :: 0 <= j < |vs| && model.sequences[s].elements[j].kind.Dynamic? ==>
      vs[j] == dyn[model.sequences[s].elements[j].elementaryIndex]
    ensures var before := if key in model.scores[s] then model.scores[s][key] else 0;
      var raised := model.(scores := model.scores[s := model.scores[s][key := before + d]]);
      FS.Score(raised, st, windowSize, i, window, dyn) == FS.Score(model, st, windowSize, i, window, dyn)
        + if key != [] && 0 !in vs && key == Vli.EncodeAll(vs) then d else 0
  {
    KeyIs(model, st, model.sequences[s].elements, i, window, dyn, vs);
    RaisedScore(model, st, windowSize, |model.sequences|, i, window, dyn, s, key, d);
  }

  lemma {:induction false} RaisedScore(model: FS.Model, st: FS.Sentence, windowSize: nat, count: nat, i: nat,
                                       window: seq<int>, dyn: FS.Values, s: nat, key: seq<Byte>, d: int)
    requires model.Valid(windowSize) && s < |model.sequences| && count <= |model.sequences|
    requires st.Valid(model) && |window| == windowSize && st.WindowOk(i, window) && |dyn| == model.dynamicWidth
    requires FS.ElementsOk(model, model.sequences[s].elements, windowSize)
    ensures var before := if key in model.scores[s] then model.scores[s][key] else 0;
      var raised := model.(scores := model.scores[s := model.scores[s][key := before + d]]);
      FS.FullScore(raised, st, windowSize, count, i, window, dyn)
        == FS.FullScore(model, st, windowSize, count, i, window, dyn)
        + if s < count && key != [] && key == FS.Key(model, st, model.sequences[s].elements, i, window, dyn) then d
          else 0
  {
    hide FS.RangeOf, FS.KeyOf, FS.ValuesOf;
    if count > 0 {
      assert model.sequences[count - 1] in model.sequences;
      RaisedScore(model, st, windowSize, count - 1, i, window, dyn, s, key, d);
      var before := if key in model.scores[s] then model.scores[s][key] else 0;
      var raised := model.(scores := model.scores[s := model.scores[s][key := before + d]]);
      SameKey(model, raised, st, model.sequences[count - 1].elements, i, window, dyn);
    }
  }

  /** Keys do not depend on weights. */
  lemma SameKey(model: FS.Model, other: FS.Model, st: FS.Sentence, elements: seq<FS.Element>, i: nat,
                window: seq<int>, dyn: FS.Values)
    requires other == model.(scores := other.scores)
    requires st.Valid(model) && FS.ElementsOk(model, elements, |window|) && st.WindowOk(i, window)
    requires |dyn| == model.dynamicWidth
    ensures st.Valid(other) && FS.ElementsOk(other, elements, |window|)
    ensures FS.Key(other, st, elements, i, window, dyn) == FS.Key(model, st, elements, i, window, dyn)
  {
    var vs, us := FS.ValuesOf(model, st, elements, i, window, dyn), FS.ValuesOf(other, st, elements, i, window, dyn);
    forall n | 0 <= n < |elements|
      ensures us[n] == vs[n]
    {
      assert elements[n] in elements;
    }
    assert us == vs;
  }

  /** The strings that an optimized map keeps are those whose id is kept, with the new id. */
  lemma FeatureKept(ids: FO.IdMap, optimized: FO.IdMap, table: FO.Renumbering, feature: string)
    requires FO.TableOk(table) && FO.IdOf(optimized, feature) == FO.Renumber(table, FO.IdOf(ids, feature))
    ensures (feature in optimized && optimized[feature] != 0) <==>
      feature in ids && ids[feature] < |table| && table[ids[feature]] != 0
    ensures feature in optimized && optimized[feature] != 0 ==> optimized[feature] == table[ids[feature]]
  {
  }

  /** Every vector of known values keeps its weight. What has no weight before has none after, and what is renumbered to
      an unknown value had none. */
  lemma WeightKept(scores: FS.ScoreMap, optimized: FS.ScoreMap, tables: seq<FO.Renumbering>, indices: FO.MapIndices,
                   values: seq<UInt32>, renumbered: seq<UInt32>)
    requires FO.IndicesOk(indices, |tables|) && |values| == |renumbered| == |indices| > 0 && 0 !in values
    requires FS.Lookup(optimized, FS.KeyOf(FO.RenumberAll(tables, indices, values)))
          == FS.Lookup(scores, FS.KeyOf(values))
    requires forall j :: 0 <= j < |values| ==>
      renumbered[j] ==
        if indices[j] < 0 then values[j]
        else if values[j] < |tables[indices[j]]| then tables[indices[j]][values[j]] else 0
    ensures (if Vli.EncodeAll(values) in scores then scores[Vli.EncodeAll(values)] else 0) ==
      if 0 in renumbered || Vli.EncodeAll(renumbered) !in optimized then 0 else optimized[Vli.EncodeAll(renumbered)]
  {
    hide Vli.EncodeAll;
    assert FO.RenumberAll(tables, indices, values) == renumbered;
    Vli.EncodeAllLength(values);
    Vli.EncodeAllLength(renumbered);
  }
}
