/** The forms of lemmas, as generation produces them from the classes of a loaded dictionary
    (src/morpho/morpho_dictionary.h). */
module DictionaryForms {
  import opened Bytes
  import opened Sequences
  import opened ClassFactoring
  import opened DictionaryAnswers

  /** A suffix of a class, with the numbers of its tags. */
  datatype SuffixTags = SuffixTags(suffix: Text, tags: seq<nat>)

  /** The endings that tag numbers stand for. */
  function Spelled(suffix: Text, ids: seq<nat>, tags: seq<Text>): seq<Ending> {
    if ids == [] then []
    else
      var id := ids[|ids| - 1];
      Spelled(suffix, ids[..|ids| - 1], tags) + if id < |tags| then [Ending(suffix, tags[id])] else []
  }

  lemma SpelledAppend(suffix: Text, ids: seq<nat>, id: nat, tags: seq<Text>)
    ensures Spelled(suffix, ids + [id], tags) == Spelled(suffix, ids, tags)
      + if id < |tags| then [Ending(suffix, tags[id])] else []
  {
    assert (ids + [id])[..|ids|] == ids;
  }

  /** The endings of a class. */
  function SpelledRow(row: seq<SuffixTags>, tags: seq<Text>): seq<Ending> {
    if row == [] then []
    else
      var last := row[|row| - 1];
      SpelledRow(row[..|row| - 1], tags) + Spelled(last.suffix, last.tags, tags)
  }

  lemma SpelledRowAppend(row: seq<SuffixTags>, s: SuffixTags, tags: seq<Text>)
    ensures SpelledRow(row + [s], tags) == SpelledRow(row, tags) + Spelled(s.suffix, s.tags, tags)
  {
    assert (row + [s])[..|row|] == row;
  }

  /** What the suffixes visited say about a class. */
  function RowOf(suffixes: Suffixes, keys: seq<Text>, clas: nat): seq<SuffixTags> {
    if keys == [] then []
    else
      var key := keys[|keys| - 1];
      RowOf(suffixes, keys[..|keys| - 1], clas) + PartOfRow(suffixes, key, clas)
  }

  function PartOfRow(suffixes: Suffixes, key: Text, clas: nat): seq<SuffixTags> {
    PartOf(EntryOf(suffixes, key), key, clas)
  }

  function PartOf(m: map<nat, seq<nat>>, key: Text, clas: nat): seq<SuffixTags> {
    if clas in m then [SuffixTags(key, m[clas])] else []
  }

  /** The endings of a list with a given suffix, in order. */
  function WithSuffix(list: seq<Ending>, suffix: Text): seq<Ending> {
    if list == [] then []
    else WithSuffix(list[..|list| - 1], suffix) + if list[|list| - 1].suffix == suffix then [list[|list| - 1]] else []
  }

  /** The endings of a list with none of the given suffixes. */
  function WithoutSuffixes(list: seq<Ending>, keys: seq<Text>): seq<Ending> {
    if list == [] then []
    else WithoutSuffixes(list[..|list| - 1], keys) + if list[|list| - 1].suffix in keys then [] else [list[|list| - 1]]
  }

  lemma {:induction false} SplitBySuffix(list: seq<Ending>, keys: seq<Text>, key: Text)
    requires key !in keys
    ensures multiset(WithoutSuffixes(list, keys)) == multiset(WithSuffix(list, key))
      + multiset(WithoutSuffixes(list, keys + [key]))
  {
    if list != [] { SplitBySuffix(list[..|list| - 1], keys, key); }
  }

  lemma {:induction false} NoneWithout(list: seq<Ending>, keys: seq<Text>)
    requires forall e <- list :: e.suffix in keys
    ensures WithoutSuffixes(list, keys) == []
  {
    if list != [] {
      assert list[|list| - 1] in list;
      NoneWithout(list[..|list| - 1], keys);
    }
  }

  lemma {:induction false} AllWithout(list: seq<Ending>)
    ensures WithoutSuffixes(list, []) == list
  {
    if list != [] {
      AllWithout(list[..|list| - 1]);
      assert list == list[..|list| - 1] + [list[|list| - 1]];
    }
  }

  lemma {:induction false} SpelledIds(list: seq<Ending>, suffix: Text, tags: seq<Text>, tagsMap: map<Text, nat>)
    requires TagsMatch(tags, tagsMap) && TagsKnown(list, tagsMap)
    ensures Spelled(suffix, TagIds(list, suffix, tagsMap), tags) == WithSuffix(list, suffix)
  {
    hide Spelled, TagIds;
    if list == [] {
      NothingSpelled(suffix, tags, tagsMap);
    } else {
      var front, e := list[..|list| - 1], list[|list| - 1];
      assert e in list && list == front + [e];
      SpelledIds(front, suffix, tags, tagsMap);
      TagIdsAppend(front, e, suffix, tagsMap);
      if e.suffix == suffix {
        SpelledAppend(suffix, TagIds(front, suffix, tagsMap), tagsMap[e.tag], tags);
      } else {
        assert TagIds(list, suffix, tagsMap) == TagIds(front, suffix, tagsMap);
      }
    }
  }

  lemma NothingSpelled(suffix: Text, tags: seq<Text>, tagsMap: map<Text, nat>)
    ensures TagIds([], suffix, tagsMap) == [] && Spelled(suffix, [], tags) == []
  {
  }

  ghost predicate Distinct(keys: seq<Text>) {
    forall i, j :: 0 <= i < j < |keys| ==> keys[i] != keys[j]
  }

  /** The suffixes visited so far spell out their part of the class. */
  lemma {:induction false} RowSpells(c: Compiled, keys: seq<Text>, clas: nat)
    requires TablesOk(c) && clas < |c.lists| && Distinct(keys)
    ensures multiset(SpelledRow(RowOf(c.suffixes, keys, clas), c.tags))
      + multiset(WithoutSuffixes(c.lists[clas], keys)) == multiset(c.lists[clas])
  {
    hide TablesOk, WithoutSuffixes, SpelledRow;
    if keys == [] {
      AllWithout(c.lists[clas]);
      EmptyRow(c.tags);
    } else {
      var front, key := keys[..|keys| - 1], keys[|keys| - 1];
      RowSpells(c, front, clas);
      assert keys == front + [key];
      SplitBySuffix(c.lists[clas], front, key);
      PartSpells(c, key, clas);
      SpelledRowConcat(RowOf(c.suffixes, front, clas), PartOfRow(c.suffixes, key, clas), c.tags);
    }
  }

  lemma EmptyRow(tags: seq<Text>)
    ensures SpelledRow([], tags) == []
  {
  }

  lemma SpelledRowConcat(row: seq<SuffixTags>, part: seq<SuffixTags>, tags: seq<Text>)
    requires |part| <= 1
    ensures SpelledRow(row + part, tags) == SpelledRow(row, tags) + SpelledRow(part, tags)
  {
    if part == [] {
      assert row + part == row;
    } else {
      SpelledRowAppend(row, part[0], tags);
      SpelledRowAppend([], part[0], tags);
      assert [] + [part[0]] == part == [part[0]];
    }
  }

  lemma PartSpells(c: Compiled, key: Text, clas: nat)
    requires TablesOk(c) && clas < |c.lists|
    ensures SpelledRow(PartOfRow(c.suffixes, key, clas), c.tags) == WithSuffix(c.lists[clas], key)
  {
    hide Spelled, WithSuffix, TagIds;
    assert c.lists[clas] in c.lists;
    var ids := Stored(c.suffixes, key, clas);
    SpelledIds(c.lists[clas], key, c.tags, c.tagsMap);
    NothingSpelled(key, c.tags, c.tagsMap);
    EmptyRow(c.tags);
    if clas in EntryOf(c.suffixes, key) {
      SpelledRowAppend([], SuffixTags(key, ids), c.tags);
      assert [] + [SuffixTags(key, ids)] == PartOfRow(c.suffixes, key, clas);
    }
  }

  /** Going through all suffixes once recovers every class, up to the order of its endings. */
  lemma RowsAreClasses(c: Compiled, keys: seq<Text>, clas: nat)
    requires TablesOk(c) && clas < |c.lists| && Distinct(keys) && forall s <- c.suffixes :: s in keys
    ensures multiset(SpelledRow(RowOf(c.suffixes, keys, clas), c.tags)) == multiset(c.lists[clas])
  {
    hide TablesOk;
    RowSpells(c, keys, clas);
    forall e | e in c.lists[clas]
      ensures e.suffix in keys
    {
      SuffixOccurs(c, clas, e);
    }
    NoneWithout(c.lists[clas], keys);
  }

  lemma SuffixOccurs(c: Compiled, clas: nat, e: Ending)
    requires TablesOk(c) && clas < |c.lists| && e in c.lists[clas]
    ensures e.suffix in c.suffixes
  {
    assert c.lists[clas] in c.lists;
    assert Stored(c.suffixes, e.suffix, clas) == TagIds(c.lists[clas], e.suffix, c.tagsMap);
    TagIdOccurs(c.lists[clas], e, c.tagsMap);
  }

  lemma {:induction false} TagIdOccurs(list: seq<Ending>, e: Ending, tagsMap: map<Text, nat>)
    requires e in list && e.tag in tagsMap
    ensures TagIds(list, e.suffix, tagsMap) != []
  {
    var front, last := list[..|list| - 1], list[|list| - 1];
    if last != e {
      assert list == front + [last];
      TagIdOccurs(front, e, tagsMap);
    }
  }

  // ----- Forms

  /** The forms whose tag passes the filter. */
  function Accepted(forms: seq<Form>, filter: Text -> bool): seq<Form> {
    if forms == [] then []
    else Accepted(forms[..|forms| - 1], filter) + if filter(forms[|forms| - 1].tag) then [forms[|forms| - 1]] else []
  }

  lemma AcceptedAppend(forms: seq<Form>, f: Form, filter: Text -> bool)
    ensures Accepted(forms + [f], filter) == Accepted(forms, filter) + if filter(f.tag) then [f] else []
  {
    assert (forms + [f])[..|forms|] == forms;
  }

  lemma {:induction false} AcceptedConcat(a: seq<Form>, b: seq<Form>, filter: Text -> bool)
    ensures Accepted(a + b, filter) == Accepted(a, filter) + Accepted(b, filter)
  {
    hide Accepted;
    if b == [] {
      assert a + b == a;
      NoneAccepted(filter);
    } else {
      var front, f := b[..|b| - 1], b[|b| - 1];
      AcceptedConcat(a, front, filter);
      AcceptedAppend(a + front, f, filter);
      AcceptedAppend(front, f, filter);
      assert a + b == (a + front) + [f] && b == front + [f];
    }
  }

  lemma NoneAccepted(filter: Text -> bool)
    ensures Accepted([], filter) == []
  {
  }

  function AcceptedEnding(root: Text, e: Ending, filter: Text -> bool): seq<Form> {
    if filter(e.tag) then [Form(root + e.suffix, e.tag)] else []
  }

  lemma {:induction false} AcceptedIsConcatMap(root: Text, endings: seq<Ending>, filter: Text -> bool)
    ensures Accepted(Expand(root, endings), filter) ==
      ConcatMap((e: Ending) => AcceptedEnding(root, e, filter), endings)
  {
    if endings != [] {
      var front, e := endings[..|endings| - 1], endings[|endings| - 1];
      AcceptedIsConcatMap(root, front, filter);
      assert Expand(root, endings) == Expand(root, front) + [Form(root + e.suffix, e.tag)];
      AcceptedAppend(Expand(root, front), Form(root + e.suffix, e.tag), filter);
    }
  }

  /** The order of the endings of a class does not matter for the forms it makes. */
  lemma AcceptedContents(root: Text, a: seq<Ending>, b: seq<Ending>, filter: Text -> bool)
    requires multiset(a) == multiset(b)
    ensures multiset(Accepted(Expand(root, a), filter)) == multiset(Accepted(Expand(root, b), filter))
  {
    AcceptedIsConcatMap(root, a, filter);
    AcceptedIsConcatMap(root, b, filter);
    ConcatMapContents((e: Ending) => AcceptedEnding(root, e, filter), a, b);
  }

  lemma {:induction false} AcceptedExactly(forms: seq<Form>, filter: Text -> bool, f: Form)
    ensures f in Accepted(forms, filter) <==> f in forms && filter(f.tag)
  {
    if forms != [] {
      AcceptedExactly(forms[..|forms| - 1], filter, f);
      assert forms == forms[..|forms| - 1] + [forms[|forms| - 1]];
    }
  }

  // ----- Generation

  /** One lemma with its generated forms. */
  datatype LemmaForms = LemmaForms(name: Text, forms: seq<Form>)

  /** What a query asks for: the raw lemma, and tests of its additional information. */
  datatype Query = Query(raw: Text, matches: seq<Byte> -> bool, generatable: seq<Byte> -> bool, filter: Text -> bool,
    format: Text -> Text)

  predicate Asked(l: Lemma, q: Query) {
    q.matches(l.info) && q.generatable(l.info)
  }

  /** The lemmas that answer a query, in order. */
  function Chosen(lemmas: seq<Lemma>, q: Query): seq<Lemma> {
    if lemmas == [] then []
    else
      var l := lemmas[|lemmas| - 1];
      Chosen(lemmas[..|lemmas| - 1], q) + if l.text == q.raw && Asked(l, q) then [l] else []
  }

  /** The accepted forms of a lemma. */
  function FormsAsked(c: Compiled, l: Lemma, q: Query): seq<Form> {
    Accepted(ExpandAll(l.roots, c.lists), q.filter)
  }

  /** The result lists each chosen lemma that has an accepted form, with exactly its accepted forms. */
  ghost predicate Generated(c: Compiled, ls: seq<Lemma>, q: Query, result: seq<LemmaForms>) {
    if ls == [] then result == []
    else
      var front, l := ls[..|ls| - 1], ls[|ls| - 1];
      if FormsAsked(c, l, q) == [] then Generated(c, front, q, result)
      else
        && result != [] && Generated(c, front, q, result[..|result| - 1])
        && result[|result| - 1].name == q.raw + q.format(l.info)
        && multiset(result[|result| - 1].forms) == multiset(FormsAsked(c, l, q))
  }

  lemma GeneratedNext(c: Compiled, ls: seq<Lemma>, l: Lemma, q: Query, result: seq<LemmaForms>, forms: seq<Form>)
    requires Generated(c, ls, q, result) && multiset(forms) == multiset(FormsAsked(c, l, q))
    ensures Generated(c, ls + [l], q, if forms == [] then result
      else result + [LemmaForms(q.raw + q.format(l.info), forms)])
  {
    hide FormsAsked;
    assert (ls + [l])[..|ls|] == ls;
    assert |multiset(forms)| == |forms| && |multiset(FormsAsked(c, l, q))| == |FormsAsked(c, l, q)|;
    var all := result + [LemmaForms(q.raw + q.format(l.info), forms)];
    assert all[..|all| - 1] == result;
  }

  lemma {:induction false} ChosenExactly(lemmas: seq<Lemma>, q: Query, l: Lemma)
    ensures l in Chosen(lemmas, q) <==> l in lemmas && l.text == q.raw && Asked(l, q)
  {
    if lemmas != [] {
      ChosenExactly(lemmas[..|lemmas| - 1], q, l);
      assert lemmas == lemmas[..|lemmas| - 1] + [lemmas[|lemmas| - 1]];
    }
  }

  /** A generated form is a form of a chosen lemma, and conversely. */
  lemma {:induction false} GeneratedExactly(c: Compiled, ls: seq<Lemma>, q: Query, result: seq<LemmaForms>, name: Text,
                                            f: Form)
    requires Generated(c, ls, q, result)
    ensures (exists x <- result :: x.name == name && f in x.forms) <==>
            (exists l <- ls :: q.raw + q.format(l.info) == name && f in FormsAsked(c, l, q))
  {
    hide FormsAsked;
    if ls != [] {
      var front, l := ls[..|ls| - 1], ls[|ls| - 1];
      assert ls == front + [l];
      if FormsAsked(c, l, q) == [] {
        GeneratedExactly(c, front, q, result, name, f);
      } else {
        var before, last := result[..|result| - 1], result[|result| - 1];
        assert result == before + [last];
        GeneratedExactly(c, front, q, before, name, f);
        assert f in last.forms <==> f in multiset(last.forms);
        assert f in FormsAsked(c, l, q) <==> f in multiset(FormsAsked(c, l, q));
      }
    }
  }

  lemma {:induction false} SelectExactly(forms: seq<Form>, form: Text, name: Text, t: Tagged)
    ensures t in Select(forms, form, name) <==> t.name == name && Form(form, t.tag) in forms
  {
    if forms != [] {
      SelectExactly(forms[..|forms| - 1], form, name, t);
      assert forms == forms[..|forms| - 1] + [forms[|forms| - 1]];
    }
  }

  lemma {:induction false} AnswersExactly(lemmas: seq<Lemma>, lists: seq<seq<Ending>>, form: Text,
                                          format: Text -> Text, t: Tagged)
    ensures t in Answers(lemmas, lists, form, format) <==>
            exists l <- lemmas :: Printed(l, format) == t.name && Form(form, t.tag) in ExpandAll(l.roots, lists)
  {
    hide Select, Printed, ExpandAll;
    if lemmas != [] {
      var front, l := lemmas[..|lemmas| - 1], lemmas[|lemmas| - 1];
      AnswersExactly(front, lists, form, format, t);
      SelectExactly(ExpandAll(l.roots, lists), form, Printed(l, format), t);
      assert lemmas == front + [l];
    }
  }

  /** Generation and analysis are converse: a generatable lemma text generates a form with a tag iff the
      form is analysed as that lemma and tag. The lemma text must determine the raw lemma, as parsing does. */
  lemma GenerateAnalyzeConverse(c: Compiled, q: Query, result: seq<LemmaForms>, analyses: seq<Tagged>, name: Text,
                                f: Form)
    requires Generated(c, Chosen(c.lemmas, q), q, result)
    requires multiset(analyses) == multiset(Answers(c.lemmas, c.lists, f.form, q.format))
    requires q.format([]) == [] && q.filter(f.tag)
    requires forall l <- c.lemmas :: Printed(l, q.format) == name ==> l.text == q.raw && Asked(l, q)
    ensures (exists x <- result :: x.name == name && f in x.forms) <==> Tagged(name, f.tag) in analyses
  {
    hide Generated, Chosen, Answers, Accepted, ExpandAll;
    var t := Tagged(name, f.tag);
    GeneratedExactly(c, Chosen(c.lemmas, q), q, result, name, f);
    AnswersExactly(c.lemmas, c.lists, f.form, q.format, t);
    assert t in analyses <==> t in multiset(analyses);
    assert t in Answers(c.lemmas, c.lists, f.form, q.format) <==>
      t in multiset(Answers(c.lemmas, c.lists, f.form, q.format));
    forall l | l in c.lemmas || l in Chosen(c.lemmas, q)
      ensures l in Chosen(c.lemmas, q) <==> l in c.lemmas && l.text == q.raw && Asked(l, q)
      ensures f in FormsAsked(c, l, q) <==> f in ExpandAll(l.roots, c.lists)
      ensures l.text == q.raw ==> q.raw + q.format(l.info) == Printed(l, q.format)
    {
      ChosenExactly(c.lemmas, q, l);
      AcceptedExactly(ExpandAll(l.roots, c.lists), q.filter, f);
    }
  }
}
