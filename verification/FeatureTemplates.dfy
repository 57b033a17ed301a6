/** Parsing of feature templates (src/tagger/feature_sequences_encoder.h), the text of a line being
    already split into elements. */
module FeatureTemplates {
  import opened FeatureSequences

  datatype Range = OnlyCurrent | AnyOffset

  datatype Description = Description(kind: Kind, range: Range, index: nat)

  /** One element of a line: the name of an elementary feature and an offset. */
  datatype Token = Token(name: string, sequenceIndex: int)

  datatype Result<T> = Success(value: T) | Failure

  /** Elementary features by name. */
  type Descriptions = map<string, Description>

  predicate TokenOk(descriptions: Descriptions, token: Token, windowSize: nat) {
    && token.name in descriptions
    && var d := descriptions[token.name];
    && (d.kind.Dynamic? ==> token.sequenceIndex == 0)
    && (d.kind.PerTag? ==> 0 <= -token.sequenceIndex < windowSize)
    && (d.range.OnlyCurrent? ==> token.sequenceIndex == 0)
  }

  function ElementOf(descriptions: Descriptions, token: Token): Element
    requires token.name in descriptions
  {
    Element(descriptions[token.name].kind, descriptions[token.name].index, token.sequenceIndex)
  }

  function ElementsOf(descriptions: Descriptions, line: seq<Token>): (es: seq<Element>)
    requires forall token <- line :: token.name in descriptions
    ensures |es| == |line|
  {
    seq(|line|, j requires 0 <= j < |line| => ElementOf(descriptions, line[j]))
  }

  /** A line is accepted when it is not empty, all its elements are allowed, and it does not mix
      features of the current word only with features of a wider range. */
  predicate LineOk(descriptions: Descriptions, line: seq<Token>, windowSize: nat) {
    && line != []
    && (forall token <- line :: TokenOk(descriptions, token, windowSize))
    && ((exists token <- line :: descriptions[token.name].range.OnlyCurrent?) ==>
          RangeOf(ElementsOf(descriptions, line), windowSize) <= 1)
  }

  function SequenceOf(descriptions: Descriptions, line: seq<Token>, windowSize: nat): Sequence
    requires LineOk(descriptions, line, windowSize)
  {
    var elements := ElementsOf(descriptions, line);
    Sequence(elements, RangeOf(elements, windowSize))
  }

  /** Stable sorting by decreasing range. */
  function Insert(sorted: seq<Sequence>, s: Sequence): seq<Sequence> {
    if sorted == [] || sorted[|sorted| - 1].dependantRange >= s.dependantRange then sorted + [s]
    else Insert(sorted[..|sorted| - 1], s) + [sorted[|sorted| - 1]]
  }

  function StableSort(sequences: seq<Sequence>): seq<Sequence> {
    if sequences == [] then [] else Insert(StableSort(sequences[..|sequences| - 1]), sequences[|sequences| - 1])
  }

  predicate Decreasing(sequences: seq<Sequence>) {
    forall s, t :: 0 <= s < t < |sequences| ==> sequences[s].dependantRange >= sequences[t].dependantRange
  }

  /** The sequences of one range, in order. */
  function OfRange(sequences: seq<Sequence>, range: int): seq<Sequence> {
    if sequences == [] then []
    else
      var last := sequences[|sequences| - 1];
      OfRange(sequences[..|sequences| - 1], range) + if last.dependantRange == range then [last] else []
  }

  lemma {:induction false} InsertContents(sorted: seq<Sequence>, s: Sequence)
    ensures multiset(Insert(sorted, s)) == multiset(sorted) + multiset{s}
  {
    if sorted != [] && sorted[|sorted| - 1].dependantRange < s.dependantRange {
      InsertContents(sorted[..|sorted| - 1], s);
      assert sorted == sorted[..|sorted| - 1] + [sorted[|sorted| - 1]];
    }
  }

  lemma {:induction false} InsertSorts(sorted: seq<Sequence>, s: Sequence)
    requires Decreasing(sorted)
    ensures Decreasing(Insert(sorted, s))
  {
    if sorted != [] && sorted[|sorted| - 1].dependantRange < s.dependantRange {
      var front, last := sorted[..|sorted| - 1], sorted[|sorted| - 1];
      InsertSorts(front, s);
      InsertContents(front, s);
      forall k | 0 <= k < |Insert(front, s)|
        ensures Insert(front, s)[k].dependantRange >= last.dependantRange
      {
        assert Insert(front, s)[k] in multiset(Insert(front, s));
      }
    }
  }

  lemma OfRangeAppend(xs: seq<Sequence>, x: Sequence, range: int)
    ensures OfRange(xs + [x], range) == OfRange(xs, range) + if x.dependantRange == range then [x] else []
  {
    assert (xs + [x])[..|xs|] == xs;
  }

  lemma {:induction false} InsertIsStable(sorted: seq<Sequence>, s: Sequence, range: int)
    ensures OfRange(Insert(sorted, s), range) == OfRange(sorted + [s], range)
  {
    hide OfRange;
    if sorted != [] && sorted[|sorted| - 1].dependantRange < s.dependantRange {
      var front, last := sorted[..|sorted| - 1], sorted[|sorted| - 1];
      InsertIsStable(front, s, range);
      OfRangeAppend(Insert(front, s), last, range);
      OfRangeAppend(front, s, range);
      OfRangeAppend(front, last, range);
      OfRangeAppend(sorted, s, range);
      assert sorted == front + [last];
    }
  }

  /** Sorting puts the widest ranges first, loses nothing, and keeps the order within a range. */
  lemma {:induction false} StableSortSorts(sequences: seq<Sequence>, range: int)
    ensures Decreasing(StableSort(sequences)) && multiset(StableSort(sequences)) == multiset(sequences)
    ensures OfRange(StableSort(sequences), range) == OfRange(sequences, range)
  {
    hide OfRange, Insert, Decreasing;
    if sequences == [] {
      assert Decreasing([]) by { NothingDecreases(); }
    } else {
      var front, last := sequences[..|sequences| - 1], sequences[|sequences| - 1];
      StableSortSorts(front, range);
      InsertSorts(StableSort(front), last);
      InsertContents(StableSort(front), last);
      InsertIsStable(StableSort(front), last, range);
      OfRangeAppend(StableSort(front), last, range);
      OfRangeAppend(front, last, range);
      assert sequences == front + [last];
    }
  }

  lemma NothingDecreases()
    ensures Decreasing([])
  {
  }

  /** The checks on one element, in the order in which they are made. */
  method CheckToken(descriptions: Descriptions, token: Token, windowSize: nat) returns (ok: bool)
    ensures ok <==> TokenOk(descriptions, token, windowSize)
  {
    if token.name !in descriptions {
      return false;
    }
    var d := descriptions[token.name];
    if d.kind.Dynamic? && token.sequenceIndex != 0 {
      return false;
    }
    if d.kind.PerTag? && (token.sequenceIndex > 0 || windowSize <= -token.sequenceIndex) {
      return false;
    }
    ok := !(d.range.OnlyCurrent? && token.sequenceIndex != 0);
  }

  /** Parses one line, element by element. */
  method ParseLine(descriptions: Descriptions, line: seq<Token>, windowSize: nat) returns (r: Result<Sequence>)
    ensures r.Success? <==> LineOk(descriptions, line, windowSize)
    ensures r.Success? ==> r.value == SequenceOf(descriptions, line, windowSize)
  {
    if line == [] {
      return Failure;
    }
    hide TokenOk;
    var containsOnlyCurrent, elements, range := false, [], 1;
    for j := 0 to |line|
      invariant forall token <- line[..j] :: TokenOk(descriptions, token, windowSize)
      invariant elements == ElementsOf(descriptions, line[..j])
      invariant range == RangeOf(elements, windowSize)
      invariant containsOnlyCurrent <==> exists token <- line[..j] :: descriptions[token.name].range.OnlyCurrent?
    {
      var token := line[j];
      assert token in line && line[..j + 1] == line[..j] + [token];
      var allowed := CheckToken(descriptions, token, windowSize);
      if !allowed {
        return Failure;
      }
      var d := descriptions[token.name];
      var element := ElementOf(descriptions, token);
      assert (elements + [element])[..|elements|] == elements;
      elements := elements + [element];
      if d.kind.Dynamic? {
        range := Max(range, windowSize + 1);
      }
      if d.kind.PerTag? {
        range := Max(range, 1 - token.sequenceIndex);
      }
      containsOnlyCurrent := containsOnlyCurrent || d.range.OnlyCurrent?;
    }
    assert line[..|line|] == line;
    if containsOnlyCurrent && range > 1 {
      return Failure;
    }
    r := Success(Sequence(elements, range));
  }

  /** Parses all lines and sorts the sequences by decreasing range. */
  method Parse(descriptions: Descriptions, lines: seq<seq<Token>>, windowSize: nat) returns (r: Result<seq<Sequence>>)
    ensures r.Success? <==> forall line <- lines :: LineOk(descriptions, line, windowSize)
    ensures r.Success? ==>
      r.value == StableSort(seq(|lines|, k requires 0 <= k < |lines| => SequenceOf(descriptions, lines[k], windowSize)))
  {
    var sequences := [];
    for k := 0 to |lines|
      invariant forall line <- lines[..k] :: LineOk(descriptions, line, windowSize)
      invariant |sequences| == k
      invariant forall j ::
        0 <= j < k ==>
        LineOk(descriptions, lines[j], windowSize) && sequences[j] == SequenceOf(descriptions, lines[j], windowSize)
    {
      var line := ParseLine(descriptions, lines[k], windowSize);
      assert lines[k] in lines;
      if line.Failure? {
        return Failure;
      }
      sequences := sequences + [line.value];
    }
    assert sequences == seq(|lines|, k requires 0 <= k < |lines| => SequenceOf(descriptions, lines[k], windowSize));
    r := Success(StableSort(sequences));
  }

  /** Accepted templates give a model whose scores may be computed incrementally: ranges cover the tags
      that elements read, and the sequences come in decreasing order of range. */
  lemma ParsedModelIsValid(descriptions: Descriptions, lines: seq<seq<Token>>, windowSize: nat, model: Model)
    requires forall line <- lines :: LineOk(descriptions, line, windowSize)
    requires model.sequences ==
      StableSort(seq(|lines|, k requires 0 <= k < |lines| => SequenceOf(descriptions, lines[k], windowSize)))
    requires |model.scores| == |model.sequences|
    requires forall name <- descriptions ::
      descriptions[name].index < match descriptions[name].kind
        case PerForm => model.formWidth
        case PerTag => model.tagWidth
        case Dynamic => model.dynamicWidth
    ensures model.Valid(windowSize)
  {
    hide RangeOf, StableSort;
    var parsed := seq(|lines|, k requires 0 <= k < |lines| => SequenceOf(descriptions, lines[k], windowSize));
    StableSortSorts(parsed, 0);
    forall s | s in model.sequences
      ensures s.dependantRange == RangeOf(s.elements, windowSize)
      ensures forall e <- s.elements :: model.ElementOk(e, windowSize)
    {
      assert s in multiset(model.sequences);
      var k :| 0 <= k < |parsed| && parsed[k] == s;
      assert lines[k] in lines;
      forall e | e in s.elements
        ensures model.ElementOk(e, windowSize)
      {
        var j :| 0 <= j < |s.elements| && s.elements[j] == e;
        assert lines[k][j] in lines[k];
      }
    }
  }

  /** Which lines are accepted, in so many words, and what becomes of them. With a feature that is for the current word
      only, a line holds no dynamic feature and no feature of an earlier tag. The elements of an accepted line are
      those it names, in order, with the offsets it gives. */
  lemma LineMeans(descriptions: Descriptions, line: seq<Token>, windowSize: nat)
    ensures LineOk(descriptions, line, windowSize) <==>
      && line != []
      && (forall token <- line :: token.name in descriptions)
      && (forall token <- line :: descriptions[token.name].kind.Dynamic? ==> token.sequenceIndex == 0)
      && (forall token <- line :: descriptions[token.name].kind.PerTag? ==>
            token.sequenceIndex <= 0 < windowSize + token.sequenceIndex)
      && (forall token <- line :: descriptions[token.name].range.OnlyCurrent? ==> token.sequenceIndex == 0)
      && ((exists token <- line :: descriptions[token.name].range.OnlyCurrent?) ==> forall token <- line ::
            && (descriptions[token.name].kind.PerTag? ==> token.sequenceIndex == 0)
            && (descriptions[token.name].kind.Dynamic? ==> windowSize == 0))
    ensures LineOk(descriptions, line, windowSize) ==>
      var elements := SequenceOf(descriptions, line, windowSize).elements;
      && |elements| == |line|
      && forall j :: 0 <= j < |line| ==>
           && line[j].name in descriptions
           && elements[j].kind == descriptions[line[j].name].kind
           && elements[j].elementaryIndex == descriptions[line[j].name].index
           && elements[j].sequenceIndex == line[j].sequenceIndex
  {
    if line != [] && forall token <- line :: TokenOk(descriptions, token, windowSize) {
      var elements := ElementsOf(descriptions, line);
      RangeMeans(elements, windowSize);
      forall j | 0 <= j < |line|
        ensures elements[j] in elements && line[j] in line && elements[j] == ElementOf(descriptions, line[j])
      {
      }
      forall token | token in line
        ensures ElementOf(descriptions, token) in elements
      {
        var j :| 0 <= j < |line| && line[j] == token;
      }
    }
  }

  /** The range of a sequence is the greatest of 1, of one more than the offsets of its tag features, and with a
      dynamic feature of one more than the window. */
  lemma {:induction false} RangeMeans(elements: seq<Element>, windowSize: nat)
    ensures var r := RangeOf(elements, windowSize);
      && r >= 1
      && (forall e <- elements :: (e.kind.PerTag? ==> r >= 1 - e.sequenceIndex) && (e.kind.Dynamic? ==> r > windowSize))
      && (r == 1 || exists e <- elements ::
            (e.kind.PerTag? && r == 1 - e.sequenceIndex) || (e.kind.Dynamic? && r == windowSize + 1))
  {
    if elements != [] {
      var front, last := elements[..|elements| - 1], elements[|elements| - 1];
      assert elements == front + [last];
      RangeMeans(front, windowSize);
    }
  }

  /** The sequences of one range, said piece by piece. */
  lemma {:induction false} OfRangeMeans(xs: seq<Sequence>, ys: seq<Sequence>, range: int)
    ensures OfRange(xs + ys, range) == OfRange(xs, range) + OfRange(ys, range)
    ensures (forall y <- ys :: y.dependantRange == range) ==> OfRange(ys, range) == ys
    ensures (forall y <- ys :: y.dependantRange != range) ==> OfRange(ys, range) == []
  {
    if ys == [] {
      assert xs + ys == xs;
    } else {
      var front, last := ys[..|ys| - 1], ys[|ys| - 1];
      assert ys == front + [last] && xs + ys == (xs + front) + [last];
      OfRangeMeans(xs, front, range);
      OfRangeAppend(xs + front, last, range);
      OfRangeAppend(front, last, range);
    }
  }
}
