/** Compiling a raw dictionary, and what the compiled one answers (src/morpho/morpho_dictionary_encoder.h). */
module DictionaryCompiler {
  import opened Bytes
  import opened Sequences
  import opened ClassFactoring
  import opened DictionaryAnswers
  import opened DictionaryFile

  /** A lemma of the raw dictionary with its forms. */
  datatype RawLemma = RawLemma(name: Text, forms: seq<Form>)

  /** How a language splits a lemma into raw lemma and additional information, and prints the latter. */
  datatype Language = Language(raw: Text -> Text, info: Text -> seq<Byte>, format: seq<Byte> -> Text)

  /** Printing a split lemma gives the lemma back. */
  predicate Canonical(name: Text, language: Language) {
    name == language.raw(name) + if language.info(name) != [] then language.format(language.info(name)) else []
  }

  /** What the raw dictionary says about a form: one analysis for each different entry with that form. */
  function RawAnswers(raws: seq<RawLemma>, form: Text): seq<Tagged> {
    if raws == [] then []
    else
      var r := raws[|raws| - 1];
      RawAnswers(raws[..|raws| - 1], form) + Select(SortUnique(r.forms), form, r.name)
  }

  predicate LemmaLeq(a: Lemma, b: Lemma) {
    if a.text == b.text then TextLeq(a.info, b.info) else TextLeq(a.text, b.text)
  }

  /** A compiled lemma stands for a raw one. */
  ghost predicate StandsFor(l: Lemma, r: RawLemma, lists: seq<seq<Ending>>, language: Language) {
    && l.text == language.raw(r.name) && l.info == language.info(r.name) && ClassesKnown(l, lists)
    && multiset(ExpandAll(l.roots, lists)) == multiset(SortUnique(r.forms))
  }

  ghost predicate AllStandFor(lemmas: seq<Lemma>, raws: seq<RawLemma>, lists: seq<seq<Ending>>, language: Language) {
    |lemmas| == |raws| && forall k :: 0 <= k < |raws| ==> StandsFor(lemmas[k], raws[k], lists, language)
  }

  lemma StandsForStable(lemmas: seq<Lemma>, raws: seq<RawLemma>, lists: seq<seq<Ending>>, more: seq<seq<Ending>>,
                        language: Language)
    requires AllStandFor(lemmas, raws, lists, language) && lists <= more
    ensures AllStandFor(lemmas, raws, more, language)
  {
    hide ExpandAll, SortUnique;
    forall k | 0 <= k < |raws|
      ensures StandsFor(lemmas[k], raws[k], more, language)
    {
      ExpandAllStable(lemmas[k].roots, lists, more);
    }
  }

  /** All roots of all lemmas, in the order in which they are split off. */
  function RootTexts(lemmas: seq<Lemma>): seq<Text> {
    if lemmas == [] then [] else RootTexts(lemmas[..|lemmas| - 1]) + TextsOf(lemmas[|lemmas| - 1].roots)
  }

  function TextsOf(roots: seq<RootRef>): (r: seq<Text>)
    ensures |r| == |roots| && forall i :: 0 <= i < |r| ==> r[i] == roots[i].root
  {
    seq(|roots|, i requires 0 <= i < |roots| => roots[i].root)
  }

  function LemmaTexts(lemmas: seq<Lemma>): (r: seq<Text>)
    ensures |r| == |lemmas| && forall i :: 0 <= i < |r| ==> r[i] == lemmas[i].text
  {
    seq(|lemmas|, i requires 0 <= i < |lemmas| => lemmas[i].text)
  }

  method CountRoots(hist: Histogram, roots: seq<RootRef>, ghost texts: seq<Text>)
    requires hist.Counts(texts)
    modifies hist
    ensures hist.Counts(texts + TextsOf(roots))
  {
    hide Histogram.Counts;
    assert texts + TextsOf(roots)[..0] == texts;
    for i := 0 to |roots|
      invariant hist.Counts(texts + TextsOf(roots)[..i])
    {
      hist.Add(roots[i].root, texts + TextsOf(roots)[..i]);
      assert texts + TextsOf(roots)[..i] + [roots[i].root] == texts + TextsOf(roots)[..i + 1];
    }
    assert TextsOf(roots)[..|roots|] == TextsOf(roots);
  }

  /** A lemma and the tables after it, as a function of the raw lemma. */
  function CompileOne(v: TableValue, raw: RawLemma, maxSuffixLen: int, language: Language): (TableValue, Lemma) {
    var r := FactorAll(v, SortUnique(raw.forms), maxSuffixLen, []);
    (r.0, Lemma(language.raw(raw.name), language.info(raw.name), SortBy(RootLeq, r.1)))
  }

  function CompileFrom(v: TableValue, raws: seq<RawLemma>, maxSuffixLen: int, language: Language): (TableValue,
                       seq<Lemma>) {
    if raws == [] then (v, [])
    else
      var before := CompileFrom(v, raws[..|raws| - 1], maxSuffixLen, language);
      var r := CompileOne(before.0, raws[|raws| - 1], maxSuffixLen, language);
      (r.0, before.1 + [r.1])
  }

  /** The compiled dictionary, as a function of the raw one. */
  function Compilation(raws: seq<RawLemma>, maxSuffixLen: int, language: Language): Compiled {
    var r := CompileFrom(NO_TABLES, raws, maxSuffixLen, language);
    Compiled(SortBy(LemmaLeq, r.1), r.0.lists, r.0.tags, r.0.tagsMap, r.0.suffixes)
  }

  lemma LemmasTotal()
    ensures TotalOrder(LemmaLeq)
  {
    hide TextLeq;
    forall a: Lemma, b: Lemma
      ensures LemmaLeq(a, b) || LemmaLeq(b, a)
    {
      TextLeqTotal(a.text, b.text);
      TextLeqTotal(a.info, b.info);
    }
    forall a: Lemma, b: Lemma, c: Lemma | LemmaLeq(a, b) && LemmaLeq(b, c)
      ensures LemmaLeq(a, c)
    {
      TextLeqTotal(a.text, b.text);
      TextLeqTotal(b.text, c.text);
      TextLeqTransitive(a.text, b.text, c.text);
      if a.text == b.text == c.text { TextLeqTransitive(a.info, b.info, c.info); }
    }
  }

  /** Compiles one lemma. */
  method CompileLemma(raw: RawLemma, maxSuffixLen: int, language: Language, tables: Tables, lemmasHist: Histogram,
                      formsHist: Histogram,
                      ghost lemmas: seq<Lemma>, ghost raws: seq<RawLemma>)
    returns (l: Lemma)
    requires tables.Valid() && lemmasHist != formsHist && FormsTabFree(raw.forms)
    requires AllStandFor(lemmas, raws, tables.lists, language)
    requires lemmasHist.Counts(LemmaTexts(lemmas)) && formsHist.Counts(RootTexts(lemmas))
    modifies tables, lemmasHist, formsHist
    ensures tables.Valid() && AllStandFor(lemmas + [l], raws + [raw], tables.lists, language)
    ensures lemmasHist.Counts(LemmaTexts(lemmas + [l])) && formsHist.Counts(RootTexts(lemmas + [l]))
    ensures AllShort(old(tables.lists), maxSuffixLen) ==> AllShort(tables.lists, maxSuffixLen)
    ensures (tables.Value(), l) == CompileOne(old(tables.Value()), raw, maxSuffixLen, language)
  {
    hide AllShort, Tables.Valid, StandsFor, FormsTabFree, Histogram.Counts, RootsOk, ExpandAll, SortUnique,
      AllStandFor, RootTexts, LemmaTexts, FactorAll, SortBy, OrderedBy;
    var text := language.raw(raw.name);
    lemmasHist.Add(text, LemmaTexts(lemmas));
    ghost var before := tables.lists;
    var roots := FactorLemma(tables, raw.forms, maxSuffixLen);
    CountRoots(formsHist, roots, RootTexts(lemmas));
    l := Lemma(text, language.info(raw.name), roots);
    StandsForStable(lemmas, raws, before, tables.lists, language);
    LemmaCompiled(l, raw, tables.lists, language, maxSuffixLen);
    StandsForNext(lemmas, raws, l, raw, tables.lists, language);
    LemmaTextsAppend(lemmas, l);
    RootTextsAppend(lemmas, l);
  }

  /** Reads a raw dictionary: splits the forms of each lemma into classes, counts lengths, and sorts the
      lemmas. */
  method Compile(raws: seq<RawLemma>, maxSuffixLen: int, language: Language, tables: Tables, lemmasHist: Histogram,
                 formsHist: Histogram)
    returns (lemmas: seq<Lemma>, ghost unsorted: seq<Lemma>)
    requires tables.Valid() && lemmasHist != formsHist && lemmasHist.Counts([]) && formsHist.Counts([])
    requires forall r <- raws :: FormsTabFree(r.forms)
    modifies tables, lemmasHist, formsHist
    ensures tables.Valid() && AllStandFor(unsorted, raws, tables.lists, language)
    ensures lemmas == SortBy(LemmaLeq, unsorted) && OrderedBy(LemmaLeq, lemmas)
    ensures (tables.Value(), unsorted) == CompileFrom(old(tables.Value()), raws, maxSuffixLen, language)
    ensures lemmasHist.Counts(LemmaTexts(unsorted)) && formsHist.Counts(RootTexts(unsorted))
    ensures AllShort(old(tables.lists), maxSuffixLen) ==> AllShort(tables.lists, maxSuffixLen)
  {
    hide AllShort, Tables.Valid, StandsFor, AllStandFor, FormsTabFree, Histogram.Counts, SortBy, CompileOne,
      CompileFrom, LemmaLeq, OrderedBy, RootTexts, LemmaTexts;
    lemmas := [];
    NoTexts();
    NothingCompiled(tables.Value(), tables.lists, maxSuffixLen, language);
    for k := 0 to |raws|
      invariant tables.Valid() && AllStandFor(lemmas, raws[..k], tables.lists, language)
      invariant lemmasHist.Counts(LemmaTexts(lemmas)) && formsHist.Counts(RootTexts(lemmas))
      invariant AllShort(old(tables.lists), maxSuffixLen) ==> AllShort(tables.lists, maxSuffixLen)
      invariant (tables.Value(), lemmas) == CompileFrom(old(tables.Value()), raws[..k], maxSuffixLen, language)
    {
      assert raws[k] in raws && raws[..k + 1] == raws[..k] + [raws[k]];
      CompileFromNext(old(tables.Value()), raws[..k], raws[k], maxSuffixLen, language);
      var l := CompileLemma(raws[k], maxSuffixLen, language, tables, lemmasHist, formsHist, lemmas, raws[..k]);
      lemmas := lemmas + [l];
    }
    assert raws[..|raws|] == raws;
    unsorted := lemmas;
    LemmasTotal();
    SortByOrders(LemmaLeq, lemmas);
    lemmas := SortBy(LemmaLeq, lemmas);
  }

  lemma NothingCompiled(v: TableValue, lists: seq<seq<Ending>>, maxSuffixLen: int, language: Language)
    ensures CompileFrom(v, [], maxSuffixLen, language) == (v, []) && AllStandFor([], [], lists, language)
  {
  }

  lemma CompileFromNext(v: TableValue, raws: seq<RawLemma>, raw: RawLemma, maxSuffixLen: int, language: Language)
    ensures var before := CompileFrom(v, raws, maxSuffixLen, language);
      var r := CompileOne(before.0, raw, maxSuffixLen, language);
      CompileFrom(v, raws + [raw], maxSuffixLen, language) == (r.0, before.1 + [r.1])
  {
    hide CompileOne;
    assert (raws + [raw])[..|raws|] == raws;
  }

  lemma NoTexts()
    ensures LemmaTexts([]) == [] && RootTexts([]) == []
  {
  }

  lemma StandsForNext(lemmas: seq<Lemma>, raws: seq<RawLemma>, l: Lemma, raw: RawLemma, lists: seq<seq<Ending>>,
                      language: Language)
    requires AllStandFor(lemmas, raws, lists, language) && StandsFor(l, raw, lists, language)
    ensures AllStandFor(lemmas + [l], raws + [raw], lists, language)
  {
    hide StandsFor;
  }

  lemma LemmaTextsAppend(lemmas: seq<Lemma>, l: Lemma)
    ensures LemmaTexts(lemmas + [l]) == LemmaTexts(lemmas) + [l.text]
  {
  }

  lemma RootTextsAppend(lemmas: seq<Lemma>, l: Lemma)
    ensures RootTexts(lemmas + [l]) == RootTexts(lemmas) + TextsOf(l.roots)
  {
    assert (lemmas + [l])[..|lemmas|] == lemmas;
  }

  lemma LemmaCompiled(l: Lemma, r: RawLemma, lists: seq<seq<Ending>>, language: Language, maxSuffixLen: int)
    requires l.text == language.raw(r.name) && l.info == language.info(r.name)
    requires RootsOk(l.roots, lists, maxSuffixLen)
    requires multiset(ExpandAll(l.roots, lists)) == multiset(SortUnique(r.forms))
    ensures StandsFor(l, r, lists, language)
  {
    hide ExpandAll, SortUnique;
  }

  /** The tables after compilation, as one value. */
  ghost function CompiledTables(lemmas: seq<Lemma>, tables: Tables): Compiled
    reads tables
  {
    Compiled(lemmas, tables.lists, tables.tags, tables.tagsMap, tables.suffixes)
  }

  lemma SortedLemmas(unsorted: seq<Lemma>)
    ensures multiset(SortBy(LemmaLeq, unsorted)) == multiset(unsorted)
    ensures forall l <- SortBy(LemmaLeq, unsorted) :: l in unsorted
  {
    SortByContents(LemmaLeq, unsorted);
    forall l | l in SortBy(LemmaLeq, unsorted)
      ensures l in unsorted
    {
      assert l in multiset(SortBy(LemmaLeq, unsorted)) && l in multiset(unsorted);
    }
  }

  lemma CompiledTablesOk(unsorted: seq<Lemma>, raws: seq<RawLemma>, tables: Tables, language: Language)
    requires tables.Valid() && AllStandFor(unsorted, raws, tables.lists, language)
    ensures TablesOk(CompiledTables(SortBy(LemmaLeq, unsorted), tables))
  {
    hide ExpandAll, SortUnique, SortBy, ClassString;
    SortedLemmas(unsorted);
    forall l | l in unsorted
      ensures ClassesKnown(l, tables.lists)
    {
      var k :| 0 <= k < |unsorted| && unsorted[k] == l;
      assert StandsFor(unsorted[k], raws[k], tables.lists, language);
    }
    forall l | l in tables.lists
      ensures l != []
    {
      var k :| 0 <= k < |tables.lists| && tables.lists[k] == l;
      assert EndingsOk(tables.lists[k]);
    }
  }

  lemma {:induction false} UnsortedAnswers(lemmas: seq<Lemma>, raws: seq<RawLemma>, lists: seq<seq<Ending>>,
                                           language: Language, form: Text)
    requires AllStandFor(lemmas, raws, lists, language) && forall r <- raws :: Canonical(r.name, language)
    ensures multiset(Answers(lemmas, lists, form, language.format)) == multiset(RawAnswers(raws, form))
  {
    hide ExpandAll, SortUnique, Select, StandsFor, Canonical, Printed;
    if raws != [] {
      var n := |raws| - 1;
      assert StandsFor(lemmas[n], raws[n], lists, language) && raws[n] in raws;
      assert forall r <- raws[..n] :: r in raws;
      UnsortedAnswers(lemmas[..n], raws[..n], lists, language, form);
      LemmaAnswers(lemmas[n], raws[n], lists, language, form);
      var a, b := Answers(lemmas[..n], lists, form, language.format),
        Select(ExpandAll(lemmas[n].roots, lists), form, Printed(lemmas[n], language.format));
      assert Answers(lemmas, lists, form, language.format) == a + b;
    }
  }

  lemma LemmaAnswers(l: Lemma, r: RawLemma, lists: seq<seq<Ending>>, language: Language, form: Text)
    requires StandsFor(l, r, lists, language) && Canonical(r.name, language)
    ensures multiset(Select(ExpandAll(l.roots, lists), form, Printed(l, language.format))) ==
            multiset(Select(SortUnique(r.forms), form, r.name))
  {
    hide ExpandAll, SortUnique, Select;
    SelectContents(ExpandAll(l.roots, lists), SortUnique(r.forms), form, r.name);
  }

  function AnswerOf(l: Lemma, lists: seq<seq<Ending>>, form: Text, format: Text -> Text): seq<Tagged> {
    Select(ExpandAll(l.roots, lists), form, Printed(l, format))
  }

  lemma {:induction false} AnswersIsConcatMap(lemmas: seq<Lemma>, lists: seq<seq<Ending>>, form: Text,
                                              format: Text -> Text)
    ensures Answers(lemmas, lists, form, format) == ConcatMap((l: Lemma) => AnswerOf(l, lists, form, format), lemmas)
  {
    hide Select, ExpandAll, Printed;
    if lemmas != [] { AnswersIsConcatMap(lemmas[..|lemmas| - 1], lists, form, format); }
  }

  /** The compiled tables say about each form exactly what the raw dictionary says. */
  lemma CompiledAnswers(unsorted: seq<Lemma>, raws: seq<RawLemma>, lists: seq<seq<Ending>>, language: Language,
                        form: Text)
    requires AllStandFor(unsorted, raws, lists, language) && forall r <- raws :: Canonical(r.name, language)
    ensures multiset(Answers(SortBy(LemmaLeq, unsorted), lists, form, language.format)) ==
      multiset(RawAnswers(raws, form))
  {
    hide Answers, RawAnswers, StandsFor, SortBy, AnswerOf;
    var sorted := SortBy(LemmaLeq, unsorted);
    SortedLemmas(unsorted);
    UnsortedAnswers(unsorted, raws, lists, language, form);
    AnswersIsConcatMap(unsorted, lists, form, language.format);
    AnswersIsConcatMap(sorted, lists, form, language.format);
    ConcatMapContents((l: Lemma) => AnswerOf(l, lists, form, language.format), sorted, unsorted);
  }
}
