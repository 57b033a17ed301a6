/** Feature sequences and their incremental score (src/tagger/feature_sequences.h). */
module FeatureSequences {
  import opened Bytes
  import opened Sequences
  import Vli

  datatype Kind = PerForm | PerTag | Dynamic

  /** One component of a key: an elementary feature at an offset from the current position. */
  datatype Element = Element(kind: Kind, elementaryIndex: nat, sequenceIndex: int)

  datatype Sequence = Sequence(elements: seq<Element>, dependantRange: int)

  type ScoreMap = map<seq<Byte>, int>
  type Values = seq<UInt32>

  const UNKNOWN: UInt32 := 0
  const EMPTY: UInt32 := 1

  function Max(a: int, b: int): int { if a < b then b else a }

  /** How many leading tags of the window the elements read; one more than the whole window
      when a dynamic feature takes part. */
  function RangeOf(elements: seq<Element>, windowSize: nat): (r: int)
    ensures r >= 1
    ensures forall e <- elements :: e.kind.Dynamic? ==> r > windowSize
    ensures forall e <- elements :: e.kind.PerTag? ==> r >= 1 - e.sequenceIndex
  {
    if elements == [] then 1
    else
      var rest := RangeOf(elements[..|elements| - 1], windowSize);
      var e := elements[|elements| - 1];
      assert elements == elements[..|elements| - 1] + [e];
      match e.kind
      case PerForm => rest
      case PerTag => Max(rest, 1 - e.sequenceIndex)
      case Dynamic => Max(rest, windowSize + 1)
  }

  /** Sequences with their score maps; the widths are the numbers of elementary features. */
  datatype Model = Model(formWidth: nat, tagWidth: nat, dynamicWidth: nat,
                         sequences: seq<Sequence>, scores: seq<ScoreMap>)
  {
    predicate ElementOk(e: Element, windowSize: nat) {
      match e.kind
      case PerForm => e.elementaryIndex < formWidth
      case PerTag => e.elementaryIndex < tagWidth && 0 <= -e.sequenceIndex < windowSize
      case Dynamic => e.elementaryIndex < dynamicWidth
    }

    /** What parsing the feature templates establishes. */
    ghost predicate Valid(windowSize: nat) {
      && |scores| == |sequences|
      && (forall s <- sequences :: s.dependantRange == RangeOf(s.elements, windowSize))
      && (forall s <- sequences :: forall e <- s.elements :: ElementOk(e, windowSize))
      && forall s, t :: 0 <= s < t < |sequences| ==> sequences[s].dependantRange >= sequences[t].dependantRange
    }
  }

  /** The elementary features of one sentence. `nextDynamic` is the tagger's own function of the
      position, the tag and the dynamic features of the previous position. */
  datatype Sentence = Sentence(perForm: seq<Values>, perTag: seq<seq<Values>>,
                               nextDynamic: (nat, nat, Option<Values>) -> Values)
  {
    ghost predicate Valid(model: Model) {
      && |perForm| <= |perTag|
      && (forall i :: 0 <= i < |perForm| ==> |perForm[i]| == model.formWidth)
      && (forall i, t :: 0 <= i < |perTag| && 0 <= t < |perTag[i]| ==> |perTag[i][t]| == model.tagWidth)
      && forall i, t, d :: |nextDynamic(i, t, d)| == model.dynamicWidth
    }

    /** The leading tags of the window that lie inside the sentence are analyses of their words. */
    ghost predicate WindowOk(i: nat, window: seq<int>) {
      && i < |perForm| <= |perTag|
      && forall k :: 0 <= k < |window| && k <= i ==> 0 <= window[k] < |perTag[i - k]|
    }
  }

  /** The value one element takes for a window of tags, read directly from the sentence. */
  function Value(model: Model, st: Sentence, e: Element, i: nat, window: seq<int>, dyn: Values): UInt32
    requires st.Valid(model) && model.ElementOk(e, |window|) && st.WindowOk(i, window)
    requires |dyn| == model.dynamicWidth
  {
    match e.kind
    case PerForm =>
      if i + e.sequenceIndex < 0 || i + e.sequenceIndex >= |st.perForm| then EMPTY
      else st.perForm[i + e.sequenceIndex][e.elementaryIndex]
    case PerTag =>
      if i + e.sequenceIndex < 0 then EMPTY
      else st.perTag[i + e.sequenceIndex][window[-e.sequenceIndex]][e.elementaryIndex]
    case Dynamic => dyn[e.elementaryIndex]
  }

  ghost predicate ElementsOk(model: Model, elements: seq<Element>, windowSize: nat) {
    forall e <- elements :: model.ElementOk(e, windowSize)
  }

  function ValuesOf(model: Model, st: Sentence, elements: seq<Element>, i: nat, window: seq<int>,
                    dyn: Values): (vs: seq<UInt32>)
    requires st.Valid(model) && ElementsOk(model, elements, |window|) && st.WindowOk(i, window)
    requires |dyn| == model.dynamicWidth
    ensures |vs| == |elements|
    ensures forall j :: 0 <= j < |elements| ==> vs[j] == Value(model, st, elements[j], i, window, dyn)
  {
    if elements == [] then []
    else
      var last := |elements| - 1;
      assert elements[last] in elements;
      ValuesOf(model, st, elements[..last], i, window, dyn) + [Value(model, st, elements[last], i, window, dyn)]
  }

  /** The key under which a sequence is looked up; empty as soon as one value is unknown. */
  function Key(model: Model, st: Sentence, elements: seq<Element>, i: nat, window: seq<int>, dyn: Values): seq<Byte>
    requires st.Valid(model) && ElementsOk(model, elements, |window|) && st.WindowOk(i, window)
    requires |dyn| == model.dynamicWidth
  {
    KeyOf(ValuesOf(model, st, elements, i, window, dyn))
  }

  function KeyOf(vs: seq<UInt32>): seq<Byte> {
    if UNKNOWN in vs then [] else Vli.EncodeAll(vs)
  }

  /** Score of a key: an empty key and a key that is not stored both count zero. */
  function Lookup(scores: ScoreMap, key: seq<Byte>): int {
    if key != [] && key in scores then scores[key] else 0
  }

  /** The full recomputation: sum over the first `count` sequences of the score of their key. */
  function FullScore(model: Model, st: Sentence, windowSize: nat, count: nat, i: nat, window: seq<int>,
                     dyn: Values): int
    requires model.Valid(windowSize) && count <= |model.sequences|
    requires st.Valid(model) && |window| == windowSize && st.WindowOk(i, window) && |dyn| == model.dynamicWidth
  {
    if count == 0 then 0
    else
      var s := count - 1;
      assert model.sequences[s] in model.sequences;
      FullScore(model, st, windowSize, s, i, window, dyn)
      + Lookup(model.scores[s], Key(model, st, model.sequences[s].elements, i, window, dyn))
  }

  function Score(model: Model, st: Sentence, windowSize: nat, i: nat, window: seq<int>, dyn: Values): int
    requires model.Valid(windowSize)
    requires st.Valid(model) && |window| == windowSize && st.WindowOk(i, window) && |dyn| == model.dynamicWidth
  {
    FullScore(model, st, windowSize, |model.sequences|, i, window, dyn)
  }

  /** A sequence whose range is covered by the common tags of two windows has the same key for both,
      whatever the dynamic features. */
  lemma KeyDependsOnRange(model: Model, st: Sentence, elements: seq<Element>, i: nat,
                          v: seq<int>, w: seq<int>, same: int, d: Values, e: Values)
    requires st.Valid(model) && |v| == |w| && ElementsOk(model, elements, |w|)
    requires st.WindowOk(i, v) && st.WindowOk(i, w)
    requires |d| == |e| == model.dynamicWidth
    requires 0 <= same <= |w| && v[..same] == w[..same]
    requires RangeOf(elements, |w|) <= same
    ensures Key(model, st, elements, i, v, d) == Key(model, st, elements, i, w, e)
  {
    var x, y := ValuesOf(model, st, elements, i, v, d), ValuesOf(model, st, elements, i, w, e);
    forall j | 0 <= j < |elements|
      ensures x[j] == y[j]
    {
      var el := elements[j];
      assert el in elements;
      if el.kind.PerTag? {
        assert v[..same][-el.sequenceIndex] == w[..same][-el.sequenceIndex];
      }
    }
    assert x == y;
  }

  datatype CacheElement = CacheElement(key: seq<Byte>, score: int)

  function Total(caches: seq<CacheElement>): int {
    if caches == [] then 0 else Total(caches[..|caches| - 1]) + caches[|caches| - 1].score
  }

  lemma {:induction false} TotalUpdate(caches: seq<CacheElement>, s: nat, e: CacheElement)
    requires s < |caches|
    ensures Total(caches[s := e]) == Total(caches) - caches[s].score + e.score
  {
    var last := |caches| - 1;
    if s == last {
      assert caches[s := e][..last] == caches[..last];
    } else {
      TotalUpdate(caches[..last], s, e);
      assert caches[s := e][..last] == caches[..last][s := e];
    }
  }

  lemma {:induction false} TotalOfZeros(caches: seq<CacheElement>)
    requires forall c <- caches :: c.score == 0
    ensures Total(caches) == 0
  {
    if caches != [] {
      assert caches[|caches| - 1] in caches;
      TotalOfZeros(caches[..|caches| - 1]);
    }
  }

  /** The number of tags before the current one, plus one, that per-tag elements look at. */
  function TagReach(elements: seq<Element>): (r: nat)
    ensures r >= 1
    ensures forall e <- elements :: e.kind.PerTag? ==> r >= 1 - e.sequenceIndex
  {
    if elements == [] then 1
    else
      var e := elements[|elements| - 1];
      assert elements == elements[..|elements| - 1] + [e];
      var rest := TagReach(elements[..|elements| - 1]);
      if e.kind.PerTag? && 1 - e.sequenceIndex > rest then 1 - e.sequenceIndex else rest
  }

  lemma {:induction false} TagReachBound(model: Model, elements: seq<Element>, windowSize: nat)
    requires ElementsOk(model, elements, windowSize) && windowSize >= 1
    ensures TagReach(elements) <= windowSize
  {
    if elements != [] {
      assert elements[|elements| - 1] in elements;
      TagReachBound(model, elements[..|elements| - 1], windowSize);
    }
  }

  /** When every cached key is the one of the window, the total is the full recomputation. */
  lemma {:induction false} TotalIsFullScore(model: Model, st: Sentence, windowSize: nat, caches: seq<CacheElement>,
                                            i: nat, window: seq<int>, dyn: Values)
    requires model.Valid(windowSize) && |caches| <= |model.sequences|
    requires st.Valid(model) && |window| == windowSize && st.WindowOk(i, window) && |dyn| == model.dynamicWidth
    requires forall s :: 0 <= s < |caches| ==>
      HasKey(model, st, caches[s], s, i, window, dyn) && caches[s].score == Lookup(model.scores[s], caches[s].key)
    ensures Total(caches) == FullScore(model, st, windowSize, |caches|, i, window, dyn)
  {
    hide Key, Lookup, RangeOf;
    if caches != [] {
      var last := |caches| - 1;
      assert model.sequences[last] in model.sequences;
      assert HasKey(model, st, caches[last], last, i, window, dyn);
      TotalIsFullScore(model, st, windowSize, caches[..last], i, window, dyn);
    }
  }

  ghost predicate HasKey(model: Model, st: Sentence, c: CacheElement, s: nat, i: nat, window: seq<int>, dyn: Values)
    requires s < |model.sequences| && model.Valid(|window|)
    requires st.Valid(model) && st.WindowOk(i, window) && |dyn| == model.dynamicWidth
  {
    assert model.sequences[s] in model.sequences;
    c.key == Key(model, st, model.sequences[s].elements, i, window, dyn)
  }

  /** The mutable cache that makes scoring incremental. */
  class Cache {
    const model: Model
    const windowSize: nat
    const key: array<Byte>
    const reach: nat
    var sentence: Sentence
    var caches: seq<CacheElement>
    var window: seq<Values>
    var score: int

    /** Every cached score belongs to its cached key, and the buffers are large enough. */
    ghost predicate Stored()
      reads this
    {
      && model.Valid(windowSize) && sentence.Valid(model)
      && 1 <= reach <= windowSize && |window| == reach
      && (forall s <- model.sequences :: TagReach(s.elements) <= reach)
      && (forall s <- model.sequences :: Vli.MAX_LENGTH * |s.elements| <= key.Length)
      && |caches| == |model.sequences|
      && forall s :: 0 <= s < |caches| ==> caches[s].score == Lookup(model.scores[s], caches[s].key)
    }

    /** Between calls the running total is the sum of the cached scores. */
    ghost predicate Valid()
      reads this
    {
      Stored() && score == Total(caches)
    }

    /** The cached keys are those of window `w` at position `i` with dynamic features `dyn`. */
    ghost predicate Reflects(i: nat, w: seq<int>, dyn: Values)
      requires Stored()
      reads this
    {
      && |w| == windowSize && sentence.WindowOk(i, w) && |dyn| == model.dynamicWidth
      && forall s :: 0 <= s < |caches| ==> HasKey(model, sentence, caches[s], s, i, w, dyn)
    }

    constructor (model: Model, windowSize: nat, sentence: Sentence)
      requires windowSize >= 1 && model.Valid(windowSize) && sentence.Valid(model)
      ensures Valid() && fresh(key)
      ensures this.model == model && this.windowSize == windowSize && this.sentence == sentence
    {
      var maxElements, maxWindow := 0, 1;
      var elements := seq(|model.sequences|, _ => CacheElement([], 0));
      for s := 0 to |model.sequences|
        invariant 1 <= maxWindow <= windowSize && 0 <= maxElements
        invariant forall r :: 0 <= r < s ==> |model.sequences[r].elements| <= maxElements
        invariant forall r :: 0 <= r < s ==> TagReach(model.sequences[r].elements) <= maxWindow
      {
        assert model.sequences[s] in model.sequences;
        TagReachBound(model, model.sequences[s].elements, windowSize);
        maxElements := if |model.sequences[s].elements| > maxElements then |model.sequences[s].elements|
          else maxElements;
        maxWindow := if TagReach(model.sequences[s].elements) > maxWindow then TagReach(model.sequences[s].elements)
          else maxWindow;
      }
      TotalOfZeros(elements);
      this.model, this.windowSize, this.sentence := model, windowSize, sentence;
      key := new Byte[maxElements * Vli.MAX_LENGTH](_ => 0);
      reach := maxWindow;
      window := seq(maxWindow, _ => []);
      caches := elements;
      score := 0;
    }

    /** Starts a new sentence and forgets all cached scores. */
    method InitializeSentence(st: Sentence)
      requires Valid() && st.Valid(model)
      modifies this
      ensures Valid() && sentence == st && score == 0
      ensures forall s :: 0 <= s < |caches| ==> caches[s] == CacheElement([], 0)
    {
      sentence := st;
      score := 0;
      var s := 0;
      while s < |caches|
        invariant s <= |caches| == |model.sequences|
        invariant forall r :: 0 <= r < s ==> caches[r] == CacheElement([], 0)
        invariant sentence == st && score == 0 && |window| == reach
      {
        caches := caches[s := CacheElement([], 0)];
        s := s + 1;
      }
      TotalOfZeros(caches);
    }

    /** The rows of per-tag features that the elements of all sequences may look at. */
    ghost predicate WindowFilled(i: nat, tags: seq<int>, upTo: nat)
      requires Stored() && |tags| == windowSize && sentence.WindowOk(i, tags)
      reads this
    {
      forall k :: 0 <= k < upTo && k < reach && k <= i ==> window[k] == sentence.perTag[i - k][tags[k]]
    }

    /** The value of one element, per-tag features being read through the window of rows. */
    function CachedValue(e: Element, i: nat, tags: seq<int>, dyn: Values): (v: UInt32)
      requires Stored() && |tags| == windowSize && sentence.WindowOk(i, tags) && |dyn| == model.dynamicWidth
      requires WindowFilled(i, tags, reach)
      requires model.ElementOk(e, windowSize) && (e.kind.PerTag? ==> -e.sequenceIndex < reach)
      reads this
      ensures v == Value(model, sentence, e, i, tags, dyn)
    {
      match e.kind
      case PerForm =>
        if i + e.sequenceIndex < 0 || i + e.sequenceIndex >= |sentence.perForm| then EMPTY
        else sentence.perForm[i + e.sequenceIndex][e.elementaryIndex]
      case PerTag =>
        if i + e.sequenceIndex < 0 then EMPTY else window[-e.sequenceIndex][e.elementaryIndex]
      case Dynamic => dyn[e.elementaryIndex]
    }

    /** Writes the key of one sequence into the buffer and returns its length. */
    method ComputeKey(s: nat, i: nat, tags: seq<int>, dyn: Values) returns (size: nat)
      requires Stored() && |tags| == windowSize && sentence.WindowOk(i, tags) && |dyn| == model.dynamicWidth
      requires s < |model.sequences| && WindowFilled(i, tags, reach)
      modifies key
      ensures size <= key.Length
      ensures HasKey(model, sentence, CacheElement(key[..size], 0), s, i, tags, dyn)
    {
      hide RangeOf, Lookup, Total, Cache.WindowFilled;
      var elements := model.sequences[s].elements;
      assert model.sequences[s] in model.sequences;
      ghost var all := ValuesOf(model, sentence, elements, i, tags, dyn);
      size := 0;
      assert all[..0] == [];
      for j := 0 to |elements|
        invariant size <= key.Length && key[..size] == Vli.EncodeAll(all[..j])
        invariant UNKNOWN !in all[..j]
      {
        var element := elements[j];
        assert element in elements && model.ElementOk(element, windowSize);
        var value := CachedValue(element, i, tags, dyn);
        assert value == all[j];
        if value == UNKNOWN {
          return 0;
        }
        assert all[..j + 1] == all[..j] + [value];
        ConcatMapAppend(Vli.Encoding, all[..j], value);
        Vli.EncodeAllLength(all[..j + 1]);
        size := Vli.Encode(value, key, size);
      }
      assert all[..|elements|] == all;
    }

    /** Brings one cached element up to date and returns the adjusted running total. */
    method Refresh(s: nat, i: nat, tags: seq<int>, dyn: Values, result: int) returns (adjusted: int)
      requires Stored() && |tags| == windowSize && sentence.WindowOk(i, tags) && |dyn| == model.dynamicWidth
      requires s < |model.sequences| && WindowFilled(i, tags, reach)
      requires result == Total(caches)
      modifies this`caches, key
      ensures Stored() && adjusted == Total(caches)
      ensures HasKey(model, sentence, caches[s], s, i, tags, dyn)
      ensures forall r :: 0 <= r < |caches| && r != s ==> caches[r] == old(caches[r])
    {
      hide Key, RangeOf, Total, Cache.WindowFilled;
      var size := ComputeKey(s, i, tags, dyn);
      adjusted := result - caches[s].score;
      ghost var before := caches;
      if size == 0 {
        caches := caches[s := CacheElement([], 0)];
      } else if size != |caches[s].key| || key[..size] != caches[s].key {
        caches := caches[s := CacheElement(key[..size], Lookup(model.scores[s], key[..size]))];
      }
      adjusted := adjusted + caches[s].score;
      TotalUpdate(before, s, caches[s]);
      assert caches == before[s := caches[s]];
    }

    /** Collects the rows of per-tag features of the window. */
    method FillWindow(i: nat, tags: seq<int>)
      requires Valid() && |tags| == windowSize && sentence.WindowOk(i, tags)
      modifies this`window
      ensures Valid() && WindowFilled(i, tags, reach)
    {
      var k := 0;
      while k < |window| && k <= i
        invariant Valid() && k <= reach && WindowFilled(i, tags, k)
      {
        window := window[k := sentence.perTag[i - k][tags[k]]];
        k := k + 1;
      }
    }

    /** The incremental score. Sequences whose range is covered by the `same` leading tags are skipped,
        and the result is the full recomputation for the new window all the same. */
    method ScoreWindow(i: nat, tags: seq<int>, same: nat, dyn: Values, ghost before: seq<int>, ghost beforeDyn: Values)
      returns (result: int)
      requires Valid() && |tags| == windowSize && sentence.WindowOk(i, tags) && |dyn| == model.dynamicWidth
      requires same <= windowSize
      requires same > 0 ==> Reflects(i, before, beforeDyn) && before[..same] == tags[..same]
      modifies this, key
      ensures Valid() && Reflects(i, tags, dyn) && sentence == old(sentence)
      ensures result == score == Score(model, sentence, windowSize, i, tags, dyn)
    {
      hide Key, Lookup, RangeOf, Total, FullScore, HasKey;
      FillWindow(i, tags);
      result := score;
      var s := 0;
      while s < |model.sequences|
        invariant sentence == old(sentence)
        invariant s <= |model.sequences| && Stored() && result == Total(caches)
        invariant WindowFilled(i, tags, reach)
        invariant forall r :: 0 <= r < s ==> HasKey(model, sentence, caches[r], r, i, tags, dyn)
        invariant forall r :: s <= r < |caches| ==> caches[r] == old(caches[r])
      {
        if same >= model.sequences[s].dependantRange {
          SkippedKeys(i, tags, same, dyn, before, beforeDyn, s, old(caches));
          break;
        }
        result := Refresh(s, i, tags, dyn, result);
        s := s + 1;
      }
      score := result;
      TotalIsFullScore(model, sentence, windowSize, caches, i, tags, dyn);
    }

    /** The sequences after the first covered one are covered too, so their keys still hold. */
    lemma SkippedKeys(i: nat, tags: seq<int>, same: nat, dyn: Values, before: seq<int>, beforeDyn: Values,
                      s: nat, stored: seq<CacheElement>)
      requires model.Valid(windowSize) && sentence.Valid(model)
      requires |before| == |tags| == windowSize && sentence.WindowOk(i, tags) && sentence.WindowOk(i, before)
      requires |dyn| == |beforeDyn| == model.dynamicWidth
      requires same <= windowSize && before[..same] == tags[..same]
      requires s < |stored| == |model.sequences| && model.sequences[s].dependantRange <= same
      requires forall r :: s <= r < |stored| ==> HasKey(model, sentence, stored[r], r, i, before, beforeDyn)
      ensures forall r :: s <= r < |stored| ==> HasKey(model, sentence, stored[r], r, i, tags, dyn)
    {
      forall r | s <= r < |stored|
        ensures HasKey(model, sentence, stored[r], r, i, tags, dyn)
      {
        assert model.sequences[r] in model.sequences;
        assert HasKey(model, sentence, stored[r], r, i, before, beforeDyn);
        KeyDependsOnRange(model, sentence, model.sequences[r].elements, i, before, tags, same, beforeDyn, dyn);
      }
    }

    /** The keys of all sequences for one window, as the trainer needs them. */
    method FeatureKeys(i: nat, tags: seq<int>, same: nat, dyn: Values, ghost before: seq<int>, ghost beforeDyn: Values)
      returns (keys: seq<seq<Byte>>)
      requires Valid() && |tags| == windowSize && sentence.WindowOk(i, tags) && |dyn| == model.dynamicWidth
      requires same <= windowSize
      requires same > 0 ==> Reflects(i, before, beforeDyn) && before[..same] == tags[..same]
      modifies this, key
      ensures Valid() && Reflects(i, tags, dyn) && sentence == old(sentence)
      ensures |keys| == |caches| && forall s :: 0 <= s < |keys| ==> keys[s] == caches[s].key
    {
      hide Cache.Reflects, Total, Score;
      var _ := ScoreWindow(i, tags, same, dyn, before, beforeDyn);
      var elements := caches;
      keys := [];
      for s := 0 to |elements|
        invariant |keys| == s
        invariant forall r :: 0 <= r < s ==> keys[r] == elements[r].key
      {
        keys := keys + [elements[s].key];
      }
    }
  }
}
