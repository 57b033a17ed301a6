/** The averaged perceptron: sums of weights that are only updated when a weight changes
    (src/tagger/perceptron_tagger_trainer.h). What the decoder returns is arbitrary. */
module LazyAveraging {

  type Key = seq<int>

  /** The weight, its sum so far, and the sentence up to which the sum is complete. */
  datatype Info = Info(alpha: int, gamma: int, last: nat)

  /** The keys of the decoded and of the gold tags: for each word, one key of each feature sequence; an
      empty key stands for no feature. */
  datatype Sentence = Sentence(decoded: seq<seq<Key>>, gold: seq<seq<Key>>)

  type Row = map<Key, Info>

  type Weights = seq<Row>

  function Alpha(row: Row, key: Key): int {
    if key in row then row[key].alpha else 0
  }

  function RowAt(scores: Weights, f: nat): Row {
    if f < |scores| then scores[f] else map[]
  }

  /** Sum of the weights of a feature after each of the sentences trained on. */
  function Sum(history: seq<Weights>, f: nat, key: Key): int {
    if history == [] then 0 else Sum(history[..|history| - 1], f, key) + Alpha(RowAt(history[|history| - 1], f), key)
  }

  lemma SumAppend(history: seq<Weights>, w: Weights, f: nat, key: Key)
    ensures Sum(history + [w], f, key) == Sum(history, f, key) + Alpha(RowAt(w, f), key)
  {
    assert (history + [w])[..|history|] == history;
  }

  /** What the sum of a feature lacks before sentence `s`: the sentences since its last update. */
  ghost predicate SumComplete(row: Row, s: nat, key: Key, sum: int) {
    if key in row then row[key].last <= s && row[key].gamma + row[key].alpha * (s - row[key].last) == sum else sum == 0
  }

  ghost predicate RowComplete(row: Row, history: seq<Weights>, s: nat, f: nat) {
    forall key :: SumComplete(row, s, key, Sum(history, f, key))
  }

  ghost predicate AllComplete(scores: Weights, history: seq<Weights>, s: nat) {
    forall f :: 0 <= f < |scores| ==> RowComplete(scores[f], history, s, f)
  }

  /** The sums are exact. */
  ghost predicate RowExact(row: Row, history: seq<Weights>, f: nat) {
    forall key ::
      if key in row then row[key].last == 0 && row[key].gamma == Sum(history, f, key) else Sum(history, f, key) == 0
  }

  predicate SentenceOk(sentence: Sentence, features: nat) {
    && |sentence.decoded| == |sentence.gold|
    && (forall i :: 0 <= i < |sentence.decoded| ==> |sentence.decoded[i]| == features)
    && forall i :: 0 <= i < |sentence.gold| ==> |sentence.gold[i]| == features
  }

  /** The effect of one update on the weights of a feature sequence. */
  ghost predicate Changed(before: Row, after: Row, key: Key, delta: int, created: bool) {
    if key == [] || (key !in before && !created) then after == before
    else
      && after.Keys == before.Keys + {key}
      && forall k :: Alpha(after, k) == Alpha(before, k) + if k == key then delta else 0
  }

  function One(b: bool): int {
    if b then 1 else 0
  }

  /** By how much the first `n` words of a sentence move a weight: up for gold, down for decoded, and not at
      all where the two agree. */
  function Delta(sentence: Sentence, features: nat, n: nat, f: nat, key: Key): int
    requires SentenceOk(sentence, features) && n <= |sentence.decoded| && f < features
  {
    if n == 0 then 0 else
      var decoded, gold := sentence.decoded[n - 1][f], sentence.gold[n - 1][f];
      Delta(sentence, features, n - 1, f, key) + One(gold == key) - One(decoded == key)
  }

  /** The keys that the first `n` words update. */
  function Touched(sentence: Sentence, features: nat, n: nat, f: nat): set<Key>
    requires SentenceOk(sentence, features) && n <= |sentence.decoded| && f < features
  {
    if n == 0 then {} else
      var decoded, gold := sentence.decoded[n - 1][f], sentence.gold[n - 1][f];
      Touched(sentence, features, n - 1, f) + if decoded == gold then {} else {decoded, gold} - {[]}
  }

  /** The weights of a feature sequence after the first `n` words. Pruned features stay out. */
  ghost predicate RowMoved(before: Row, after: Row, prune: bool, sentence: Sentence, features: nat, n: nat, f: nat)
    requires SentenceOk(sentence, features) && n <= |sentence.decoded| && f < features
  {
    && after.Keys == before.Keys + (if prune then {} else Touched(sentence, features, n, f))
    && (forall key :: Alpha(after, key) ==
          Alpha(before, key)
            + if key != [] && (key in before || !prune) then Delta(sentence, features, n, f, key) else 0)
  }

  /** One sentence takes the weights from one state to the next. */
  ghost predicate Follows(before: Weights, after: Weights, prune: bool, sentence: Sentence) {
    && |after| == |before| && SentenceOk(sentence, |before|)
    && forall f :: 0 <= f < |before| ==> RowMoved(before[f], after[f], prune, sentence, |before|, |sentence.decoded|, f)
  }

  /** The history from `n` on is what the sentences make of the weights, one after the other. */
  ghost predicate FollowsAll(start: Weights, history: seq<Weights>, n: nat, prune: bool, sentences: seq<Sentence>) {
    |history| == n + |sentences| && forall s :: 0 <= s < |sentences| ==>
      Follows(if s == 0 then start else history[n + s - 1], history[n + s], prune, sentences[s])
  }

  /** The same keys with the same weights; sums may differ. */
  ghost predicate SameAlphas(a: Weights, b: Weights) {
    |a| == |b| && forall f ::
      0 <= f < |a| ==> a[f].Keys == b[f].Keys && forall key :: Alpha(a[f], key) == Alpha(b[f], key)
  }

  lemma FollowsOneMore(start: Weights, history: seq<Weights>, n: nat, prune: bool, sentences: seq<Sentence>, s: nat,
                       before: Weights, after: Weights)
    requires s < |sentences| && FollowsAll(start, history, n, prune, sentences[..s])
    requires before == (if s == 0 then start else history[|history| - 1]) && Follows(before, after, prune, sentences[s])
    ensures FollowsAll(start, history + [after], n, prune, sentences[..s + 1])
  {
    hide Follows;
  }

  lemma RowNotMoved(row: Row, prune: bool, sentence: Sentence, features: nat, f: nat)
    requires SentenceOk(sentence, features) && f < features
    ensures RowMoved(row, row, prune, sentence, features, 0, f)
  {
  }

  /** One more word. */
  lemma RowMovedNext(before: Row, a: Row, b: Row, c: Row, prune: bool, sentence: Sentence, features: nat, n: nat,
                     f: nat)
    requires SentenceOk(sentence, features) && n < |sentence.decoded| && f < features
    requires RowMoved(before, a, prune, sentence, features, n, f)
    requires if sentence.decoded[n][f] == sentence.gold[n][f] then c == a
      else Changed(a, b, sentence.decoded[n][f], -1, !prune) && Changed(b, c, sentence.gold[n][f], 1, !prune)
    ensures RowMoved(before, c, prune, sentence, features, n + 1, f)
  {
    hide Touched, Alpha, Delta, Changed;
    KeysMovedNext(before, a, b, c, prune, sentence, features, n, f);
    forall key
      ensures Alpha(c, key) ==
        Alpha(before, key)
          + if key != [] && (key in before || !prune) then Delta(sentence, features, n + 1, f, key) else 0
    {
      AlphaMovedNext(before, a, b, c, prune, sentence, features, n, f, key);
    }
  }

  lemma AlphaMovedNext(before: Row, a: Row, b: Row, c: Row, prune: bool, sentence: Sentence, features: nat, n: nat,
                       f: nat, key: Key)
    requires SentenceOk(sentence, features) && n < |sentence.decoded| && f < features
    requires RowMoved(before, a, prune, sentence, features, n, f)
    requires if sentence.decoded[n][f] == sentence.gold[n][f] then c == a
      else Changed(a, b, sentence.decoded[n][f], -1, !prune) && Changed(b, c, sentence.gold[n][f], 1, !prune)
    ensures Alpha(c, key) ==
      Alpha(before, key)
        + if key != [] && (key in before || !prune) then Delta(sentence, features, n + 1, f, key) else 0
  {
    hide Touched;
  }

  lemma KeysMovedNext(before: Row, a: Row, b: Row, c: Row, prune: bool, sentence: Sentence, features: nat, n: nat,
                      f: nat)
    requires SentenceOk(sentence, features) && n < |sentence.decoded| && f < features
    requires a.Keys == before.Keys + (if prune then {} else Touched(sentence, features, n, f))
    requires if sentence.decoded[n][f] == sentence.gold[n][f] then c == a
      else Changed(a, b, sentence.decoded[n][f], -1, !prune) && Changed(b, c, sentence.gold[n][f], 1, !prune)
    ensures c.Keys == before.Keys + (if prune then {} else Touched(sentence, features, n + 1, f))
  {
    hide Alpha, Delta;
  }

  class Trainer {
    const pruneFeatures: bool
    var scores: Weights
    ghost var history: seq<Weights>

    constructor (features: nat, pruneFeatures: bool)
      ensures AllComplete(scores, history, 0) && |scores| == features && history == []
      ensures this.pruneFeatures == pruneFeatures
      ensures forall f :: 0 <= f < features ==> scores[f] == map[]
    {
      this.pruneFeatures := pruneFeatures;
      scores := seq(features, _ => map[]);
      history := [];
    }

    /** Features that occur in the gold data are created beforehand when others are to be pruned. */
    method CreateFeature(f: nat, key: Key)
      requires AllComplete(scores, history, 0) && f < |scores|
      modifies `scores
      ensures AllComplete(scores, history, 0) && key in RowAt(scores, f)
      ensures scores == old(scores)[f := RowAt(scores, f)]
      ensures forall k :: Alpha(scores[f], k) == Alpha(old(scores)[f], k)
    {
      if key !in scores[f] {
        RowCreated(scores[f], history, 0, f, key);
        scores := scores[f := scores[f][key := Info(0, 0, 0)]];
      }
    }

    /** Changes one weight, after bringing its sum up to date. */
    method Update(f: nat, key: Key, s: nat, delta: int)
      requires AllComplete(scores, history, s) && f < |scores|
      modifies `scores
      ensures AllComplete(scores, history, s) && |scores| == |old(scores)|
      ensures scores == old(scores)[f := scores[f]] && Changed(old(scores)[f], scores[f], key, delta, !pruneFeatures)
    {
      if key != [] {
        if key !in scores[f] && !pruneFeatures {
          RowCreated(scores[f], history, s, f, key);
          scores := scores[f := scores[f][key := Info(0, 0, 0)]];
        }
        if key in scores[f] {
          var info := scores[f][key];
          RowUpdated(scores[f], history, s, f, key, delta);
          info := info.(gamma := info.gamma + info.alpha * (s - info.last));
          info := info.(last := s);
          info := info.(alpha := info.alpha + delta);
          scores := scores[f := scores[f][key := info]];
        }
      }
    }

    /** Updates after decoding one sentence: down for the decoded features, up for the gold ones. */
    method UpdateSentence(sentence: Sentence, s: nat)
      requires AllComplete(scores, history, s) && SentenceOk(sentence, |scores|)
      modifies this
      ensures AllComplete(scores, history, s + 1) && history == old(history) + [scores]
      ensures Follows(old(scores), scores, pruneFeatures, sentence)
    {
      hide AllComplete, Changed, RowMoved;
      ghost var before, features := scores, |scores|;
      forall f | 0 <= f < |scores|
        ensures RowMoved(before[f], scores[f], pruneFeatures, sentence, features, 0, f)
      {
        RowNotMoved(scores[f], pruneFeatures, sentence, features, f);
      }
      for i := 0 to |sentence.decoded|
        invariant AllComplete(scores, history, s) && |scores| == features && history == old(history)
        invariant forall f ::
          0 <= f < features ==> RowMoved(before[f], scores[f], pruneFeatures, sentence, features, i, f)
      {
        for f := 0 to |scores|
          invariant AllComplete(scores, history, s) && |scores| == features && history == old(history)
          invariant forall g ::
            0 <= g < f ==> RowMoved(before[g], scores[g], pruneFeatures, sentence, features, i + 1, g)
          invariant forall g ::
            f <= g < features ==> RowMoved(before[g], scores[g], pruneFeatures, sentence, features, i, g)
        {
          ghost var a := scores[f];
          ghost var b := a;
          if sentence.decoded[i][f] != sentence.gold[i][f] {
            Update(f, sentence.decoded[i][f], s, -1);
            b := scores[f];
            Update(f, sentence.gold[i][f], s, 1);
          }
          RowMovedNext(before[f], a, b, scores[f], pruneFeatures, sentence, features, i, f);
        }
      }
      SentencePassed(scores, history, s);
      history := history + [scores];
    }

    /** One iteration over the training data: the weights move sentence by sentence, and in the end every sum is
        exact. */
    method TrainIteration(sentences: seq<Sentence>)
      requires AllComplete(scores, history, 0) && forall t <- sentences :: SentenceOk(t, |scores|)
      modifies this
      ensures AllComplete(scores, history, 0) && old(history) <= history
      ensures FollowsAll(old(scores), history, |old(history)|, pruneFeatures, sentences)
      ensures SameAlphas(scores, if sentences == [] then old(scores) else history[|history| - 1])
      ensures forall f, key :: 0 <= f < |scores| && key in scores[f] ==> scores[f][key].gamma == Sum(history, f, key)
    {
      hide SumComplete, Sum, Follows;
      for s := 0 to |sentences|
        invariant AllComplete(scores, history, s) && |scores| == |old(scores)| && old(history) <= history
        invariant FollowsAll(old(scores), history, |old(history)|, pruneFeatures, sentences[..s])
        invariant scores == if s == 0 then old(scores) else history[|history| - 1]
      {
        assert sentences[s] in sentences;
        ghost var before, past := scores, history;
        UpdateSentence(sentences[s], s);
        FollowsLength(before, scores, pruneFeatures, sentences[s]);
        FollowsOneMore(old(scores), past, |old(history)|, pruneFeatures, sentences, s, before, scores);
      }
      assert sentences[..|sentences|] == sentences;
      Finish(|sentences|);
    }

    /** Brings all sums up to date. */
    method Finish(n: nat)
      requires AllComplete(scores, history, n)
      modifies `scores
      ensures AllComplete(scores, history, 0) && SameAlphas(scores, old(scores))
      ensures forall f, key :: 0 <= f < |scores| && key in scores[f] ==> scores[f][key].gamma == Sum(history, f, key)
    {
      hide SumComplete, Sum;
      for f := 0 to |scores|
        invariant |scores| == |old(scores)|
        invariant forall g :: 0 <= g < f ==> RowExact(scores[g], history, g) && scores[g] == FinalRow(old(scores)[g], n)
        invariant forall g :: f <= g < |scores| ==> scores[g] == old(scores)[g]
      {
        assert RowComplete(scores[f], history, n, f);
        RowFinished(scores[f], history, n, f);
        scores := scores[f := FinalRow(scores[f], n)];
      }
      forall f | 0 <= f < |scores|
        ensures RowComplete(scores[f], history, 0, f)
      {
        ExactComplete(scores[f], history, f);
      }
    }
  }

  lemma FollowsLength(before: Weights, after: Weights, prune: bool, sentence: Sentence)
    requires Follows(before, after, prune, sentence)
    ensures |after| == |before|
  {
  }

  /** The row after bringing all sums up to date. */
  function FinalRow(row: Row, n: nat): Row {
    map key | key in row :: row[key].(gamma := row[key].gamma + row[key].alpha * (n - row[key].last), last := 0)
  }

  lemma RowCreated(row: Row, history: seq<Weights>, s: nat, f: nat, key: Key)
    requires RowComplete(row, history, s, f) && key !in row
    ensures RowComplete(row[key := Info(0, 0, 0)], history, s, f)
  {
    hide Sum;
    forall k
      ensures SumComplete(row[key := Info(0, 0, 0)], s, k, Sum(history, f, k))
    {
      assert SumComplete(row, s, k, Sum(history, f, k));
    }
  }

  lemma RowUpdated(row: Row, history: seq<Weights>, s: nat, f: nat, key: Key, delta: int)
    requires RowComplete(row, history, s, f) && key in row
    ensures RowComplete(row[key :=
      Info(row[key].alpha + delta, row[key].gamma + row[key].alpha * (s - row[key].last), s)], history, s, f)
  {
    hide Sum;
    var after := row[key := Info(row[key].alpha + delta, row[key].gamma + row[key].alpha * (s - row[key].last), s)];
    forall k
      ensures SumComplete(after, s, k, Sum(history, f, k))
    {
      assert SumComplete(row, s, k, Sum(history, f, k));
    }
  }

  /** One more sentence adds the present weights. */
  lemma SentencePassed(scores: Weights, history: seq<Weights>, s: nat)
    requires AllComplete(scores, history, s)
    ensures AllComplete(scores, history + [scores], s + 1)
  {
    hide Sum;
    forall f, key | 0 <= f < |scores|
      ensures SumComplete(scores[f], s + 1, key, Sum(history + [scores], f, key))
    {
      assert RowComplete(scores[f], history, s, f);
      assert SumComplete(scores[f], s, key, Sum(history, f, key));
      SumAppend(history, scores, f, key);
      if key in scores[f] {
        var info := scores[f][key];
        assert info.alpha * (s + 1 - info.last) == info.alpha * (s - info.last) + info.alpha;
      }
    }
  }

  lemma RowFinished(row: Row, history: seq<Weights>, n: nat, f: nat)
    requires RowComplete(row, history, n, f)
    ensures RowExact(FinalRow(row, n), history, f)
  {
    hide Sum;
    forall key
      ensures if key in FinalRow(row, n) then FinalRow(row, n)[key].last == 0
        && FinalRow(row, n)[key].gamma == Sum(history, f, key)
              else Sum(history, f, key) == 0
    {
      assert SumComplete(row, n, key, Sum(history, f, key));
    }
  }

  lemma ExactComplete(row: Row, history: seq<Weights>, f: nat)
    requires RowExact(row, history, f)
    ensures RowComplete(row, history, 0, f)
  {
    hide Sum;
  }

  /** By how much a sentence moves a weight, as a number of words: those whose gold tag has the key, less those whose
      decoded tag has it. */
  lemma {:induction false} DeltaCounts(sentence: Sentence, features: nat, n: nat, f: nat, key: Key)
    requires SentenceOk(sentence, features) && n <= |sentence.decoded| && f < features
    ensures Delta(sentence, features, n, f, key)
         == |set i | 0 <= i < n && sentence.gold[i][f] == key| - |set i | 0 <= i < n && sentence.decoded[i][f] == key|
  {
    if n > 0 {
      DeltaCounts(sentence, features, n - 1, f, key);
      CountNext(sentence.gold, features, n - 1, f, key);
      CountNext(sentence.decoded, features, n - 1, f, key);
    }
  }

  lemma CountNext(words: seq<seq<Key>>, features: nat, n: nat, f: nat, key: Key)
    requires n < |words| && f < features && forall i :: 0 <= i < |words| ==> |words[i]| == features
    ensures |set i | 0 <= i < n + 1 && words[i][f] == key|
         == |set i | 0 <= i < n && words[i][f] == key| + One(words[n][f] == key)
  {
    var before, after := set i | 0 <= i < n && words[i][f] == key, set i | 0 <= i < n + 1 && words[i][f] == key;
    assert after == before + if words[n][f] == key then {n} else {};
  }

  /** The keys that a sentence updates are those of words whose two keys differ. */
  lemma {:induction false} TouchedMeans(sentence: Sentence, features: nat, n: nat, f: nat, key: Key)
    requires SentenceOk(sentence, features) && n <= |sentence.decoded| && f < features
    ensures key in Touched(sentence, features, n, f) <==>
      && key != []
      && exists i ::
           && 0 <= i < n && sentence.decoded[i][f] != sentence.gold[i][f]
           && (key == sentence.decoded[i][f] || key == sentence.gold[i][f])
  {
    if n > 0 { TouchedMeans(sentence, features, n - 1, f, key); }
  }

  /** The sum of a weight, added up sentence by sentence; a feature that is not stored weighs nothing. */
  lemma {:induction false} SumIs(history: seq<Weights>, f: nat, key: Key, sums: seq<int>)
    requires |sums| == |history| + 1 && sums[0] == 0
    requires forall n :: 0 < n < |sums| ==>
      sums[n] == sums[n - 1] +
        if f < |history[n - 1]| && key in history[n - 1][f] then history[n - 1][f][key].alpha else 0
    ensures Sum(history, f, key) == sums[|history|]
  {
    if history != [] { SumIs(history[..|history| - 1], f, key, sums[..|history|]); }
  }

  /** What one sentence does to one weight: for each word whose gold tag has the key it grows by one, and for each word
      whose decoded tag has it it shrinks by one, unless features are pruned and the key is not stored. It is stored
      afterwards if it was before, or if it belongs to a word whose two keys differ and features are not pruned. */
  lemma SentenceMoves(before: Weights, after: Weights, prune: bool, sentence: Sentence, f: nat, key: Key)
    requires Follows(before, after, prune, sentence) && f < |before|
    ensures |after| == |before| && |sentence.decoded| == |sentence.gold|
    ensures forall i :: 0 <= i < |sentence.gold| ==> |sentence.decoded[i]| == |sentence.gold[i]| == |before|
    ensures var was := if key in before[f] then before[f][key].alpha else 0;
      var now := if key in after[f] then after[f][key].alpha else 0;
      && (key == [] || (key !in before[f] && prune) ==> now == was)
      && (key != [] && (key in before[f] || !prune) ==>
            now == was + |set i | 0 <= i < |sentence.decoded| && sentence.gold[i][f] == key|
              - |set i | 0 <= i < |sentence.decoded| && sentence.decoded[i][f] == key|)
    ensures key in after[f] <==>
      || key in before[f]
      || (!prune && key != [] && exists i ::
            && 0 <= i < |sentence.decoded| && sentence.decoded[i][f] != sentence.gold[i][f]
            && (key == sentence.decoded[i][f] || key == sentence.gold[i][f]))
  {
    hide Delta, Touched;
    assert RowMoved(before[f], after[f], prune, sentence, |before|, |sentence.decoded|, f);
    DeltaCounts(sentence, |before|, |sentence.decoded|, f, key);
    TouchedMeans(sentence, |before|, |sentence.decoded|, f, key);
  }
}
