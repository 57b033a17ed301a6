/** What a compiled dictionary means: the lemmas and tags of a form, read off the roots, classes and suffixes
    (src/morpho/morpho_dictionary_encoder.h and morpho_dictionary.h). */
module DictionaryAnswers {
  import opened Sequences
  import opened ClassFactoring

  /** One analysis of a form. */
  datatype Tagged = Tagged(name: Text, tag: Text)

  /** The tables a dictionary is compiled into; `lists` holds the endings of each class. */
  datatype Compiled = Compiled(lemmas: seq<Lemma>, lists: seq<seq<Ending>>, tags: seq<Text>, tagsMap: map<Text, nat>,
    suffixes: Suffixes)

  ghost predicate TablesOk(c: Compiled) {
    && TagsMatch(c.tags, c.tagsMap) && SuffixesMatch(c.suffixes, c.lists, c.tagsMap)
    && (forall l <- c.lists :: l != [] && TagsKnown(l, c.tagsMap))
    && forall l <- c.lemmas :: ClassesKnown(l, c.lists)
  }

  ghost predicate ClassesKnown(l: Lemma, lists: seq<seq<Ending>>) {
    forall r <- l.roots :: r.clas < |lists|
  }

  /** How a lemma is printed: with its additional information. */
  function Printed(l: Lemma, format: Text -> Text): Text {
    l.text + if l.info != [] then format(l.info) else []
  }

  /** The analyses that the forms of one lemma give to a form. */
  function Select(forms: seq<Form>, form: Text, name: Text): seq<Tagged> {
    if forms == [] then []
    else
      var last := forms[|forms| - 1];
      Select(forms[..|forms| - 1], form, name) + if last.form == form then [Tagged(name, last.tag)] else []
  }

  lemma SelectAppend(forms: seq<Form>, f: Form, form: Text, name: Text)
    ensures Select(forms + [f], form, name) == Select(forms, form, name)
      + if f.form == form then [Tagged(name, f.tag)] else []
  {
    assert (forms + [f])[..|forms|] == forms;
  }

  lemma {:induction false} SelectConcat(a: seq<Form>, b: seq<Form>, form: Text, name: Text)
    ensures Select(a + b, form, name) == Select(a, form, name) + Select(b, form, name)
  {
    hide Select;
    if b == [] {
      assert a + b == a;
      SelectNone(form, name);
    } else {
      var front, f := b[..|b| - 1], b[|b| - 1];
      SelectConcat(a, front, form, name);
      SelectAppend(a + front, f, form, name);
      SelectAppend(front, f, form, name);
      assert a + b == (a + front) + [f] && b == front + [f];
    }
  }

  lemma SelectNone(form: Text, name: Text)
    ensures Select([], form, name) == []
  {
  }

  /** Only the contents of the list of forms matter. */
  lemma {:induction false} SelectContents(a: seq<Form>, b: seq<Form>, form: Text, name: Text)
    requires multiset(a) == multiset(b)
    ensures multiset(Select(a, form, name)) == multiset(Select(b, form, name))
  {
    SelectIsConcatMap(a, form, name);
    SelectIsConcatMap(b, form, name);
    ConcatMapContents((f: Form) => SelectOne(f, form, name), a, b);
  }

  function SelectOne(f: Form, form: Text, name: Text): seq<Tagged> {
    if f.form == form then [Tagged(name, f.tag)] else []
  }

  lemma {:induction false} SelectIsConcatMap(forms: seq<Form>, form: Text, name: Text)
    ensures Select(forms, form, name) == ConcatMap((f: Form) => SelectOne(f, form, name), forms)
  {
    if forms != [] { SelectIsConcatMap(forms[..|forms| - 1], form, name); }
  }

  /** What the dictionary says about a form: the analyses of all lemmas with that form. */
  function Answers(lemmas: seq<Lemma>, lists: seq<seq<Ending>>, form: Text, format: Text -> Text): seq<Tagged> {
    if lemmas == [] then []
    else
      var l := lemmas[|lemmas| - 1];
      Answers(lemmas[..|lemmas| - 1], lists, form, format) + Select(ExpandAll(l.roots, lists), form, Printed(l, format))
  }

  // ----- The same, root by root

  /** Tag numbers as analyses. */
  function Named(ids: seq<nat>, tags: seq<Text>, name: Text): seq<Tagged> {
    if ids == [] then []
    else
      var id := ids[|ids| - 1];
      Named(ids[..|ids| - 1], tags, name) + if id < |tags| then [Tagged(name, tags[id])] else []
  }

  lemma NamedAppend(ids: seq<nat>, id: nat, tags: seq<Text>, name: Text)
    ensures Named(ids + [id], tags, name) == Named(ids, tags, name)
      + if id < |tags| then [Tagged(name, tags[id])] else []
  {
    assert (ids + [id])[..|ids|] == ids;
  }

  /** What one root contributes: the rest of the form must be a suffix that its class has. */
  function RootAnswer(c: Compiled, l: Lemma, r: RootRef, form: Text, format: Text -> Text): seq<Tagged> {
    if r.root <= form then Named(Stored(c.suffixes, form[|r.root|..], r.clas), c.tags, Printed(l, format)) else []
  }

  /** The tags of a class for a suffix are those of its endings with that suffix. */
  lemma {:induction false} NamedEndings(endings: seq<Ending>, tags: seq<Text>, tagsMap: map<Text, nat>, root: Text,
                                        form: Text, name: Text)
    requires TagsMatch(tags, tagsMap) && TagsKnown(endings, tagsMap)
    ensures root <= form ==>
      Named(TagIds(endings, form[|root|..], tagsMap), tags, name) == Select(Expand(root, endings), form, name)
    ensures !(root <= form) ==> Select(Expand(root, endings), form, name) == []
  {
    hide Named, Select, TagIds;
    if endings == [] {
      NamedNone(root, form, tags, tagsMap, name);
    } else {
      var front, e := endings[..|endings| - 1], endings[|endings| - 1];
      assert e in endings && endings == front + [e];
      NamedEndings(front, tags, tagsMap, root, form, name);
      assert Expand(root, endings) == Expand(root, front) + [Form(root + e.suffix, e.tag)];
      SelectAppend(Expand(root, front), Form(root + e.suffix, e.tag), form, name);
      assert root <= root + e.suffix;
      if root <= form {
        var suffix := form[|root|..];
        assert root + suffix == form;
        assert e.suffix == suffix <==> root + e.suffix == form by {
          assert (root + e.suffix)[|root|..] == e.suffix;
        }
        TagIdsAppend(front, e, suffix, tagsMap);
        NamedAppend(TagIds(front, suffix, tagsMap), tagsMap[e.tag], tags, name);
        if e.suffix != suffix {
          assert TagIds(endings, suffix, tagsMap) == TagIds(front, suffix, tagsMap);
        }
      }
    }
  }

  lemma NamedNone(root: Text, form: Text, tags: seq<Text>, tagsMap: map<Text, nat>, name: Text)
    ensures Expand(root, []) == [] && Select([], form, name) == []
    ensures forall s :: TagIds([], s, tagsMap) == []
    ensures Named([], tags, name) == []
  {
  }

  lemma RootAnswerSelects(c: Compiled, l: Lemma, r: RootRef, form: Text, format: Text -> Text)
    requires TablesOk(c) && r.clas < |c.lists|
    ensures RootAnswer(c, l, r, form, format) == Select(Expand(r.root, c.lists[r.clas]), form, Printed(l, format))
  {
    hide Named, Select, TagIds, Expand, Stored;
    assert c.lists[r.clas] in c.lists;
    NamedEndings(c.lists[r.clas], c.tags, c.tagsMap, r.root, form, Printed(l, format));
  }

  function RootAnswers(c: Compiled, l: Lemma, roots: seq<RootRef>, form: Text, format: Text -> Text): seq<Tagged> {
    if roots == [] then []
    else RootAnswers(c, l, roots[..|roots| - 1], form, format) + RootAnswer(c, l, roots[|roots| - 1], form, format)
  }

  lemma {:induction false} RootAnswersSelect(c: Compiled, l: Lemma, roots: seq<RootRef>, form: Text,
                                             format: Text -> Text)
    requires TablesOk(c) && forall r <- roots :: r.clas < |c.lists|
    ensures RootAnswers(c, l, roots, form, format) == Select(ExpandAll(roots, c.lists), form, Printed(l, format))
  {
    hide Select, RootAnswer, Expand;
    if roots == [] {
      SelectNone(form, Printed(l, format));
    } else {
      var front, r := roots[..|roots| - 1], roots[|roots| - 1];
      assert r in roots;
      RootAnswersSelect(c, l, front, form, format);
      RootAnswerSelects(c, l, r, form, format);
      SelectConcat(ExpandAll(front, c.lists), Expand(r.root, c.lists[r.clas]), form, Printed(l, format));
    }
  }

  /** A root together with its lemma. */
  datatype Owned = Owned(owner: Lemma, root: RootRef)

  function OwnedBy(l: Lemma, roots: seq<RootRef>): (r: seq<Owned>)
    ensures |r| == |roots| && forall i :: 0 <= i < |r| ==> r[i] == Owned(l, roots[i])
  {
    seq(|roots|, i requires 0 <= i < |roots| => Owned(l, roots[i]))
  }

  /** All roots, lemma after lemma. */
  function Flat(lemmas: seq<Lemma>): seq<Owned> {
    if lemmas == [] then []
    else
      var l := lemmas[|lemmas| - 1];
      Flat(lemmas[..|lemmas| - 1]) + OwnedBy(l, l.roots)
  }

  /** What roots from a range of lengths contribute. */
  function ByLength(c: Compiled, os: seq<Owned>, from: int, to: int, form: Text, format: Text -> Text): seq<Tagged> {
    if os == [] then []
    else
      var o := os[|os| - 1];
      ByLength(c, os[..|os| - 1], from, to, form, format)
      + if from <= |o.root.root| < to then RootAnswer(c, o.owner, o.root, form, format) else []
  }

  lemma {:induction false} ByLengthStep(c: Compiled, os: seq<Owned>, from: int, to: int, form: Text,
                                        format: Text -> Text)
    requires from <= to
    ensures multiset(ByLength(c, os, from, to + 1, form, format)) ==
            multiset(ByLength(c, os, from, to, form, format)) + multiset(ByLength(c, os, to, to + 1, form, format))
  {
    hide RootAnswer;
    if os != [] { ByLengthStep(c, os[..|os| - 1], from, to, form, format); }
  }

  lemma {:induction false} ByLengthEmpty(c: Compiled, os: seq<Owned>, from: int, form: Text, format: Text -> Text)
    ensures ByLength(c, os, from, from, form, format) == []
  {
    if os != [] { ByLengthEmpty(c, os[..|os| - 1], from, form, format); }
  }

  lemma {:induction false} ByLengthConcat(c: Compiled, a: seq<Owned>, b: seq<Owned>, from: int, to: int, form: Text,
                                          format: Text -> Text)
    ensures ByLength(c, a + b, from, to, form, format) == ByLength(c, a, from, to, form, format)
      + ByLength(c, b, from, to, form, format)
  {
    hide RootAnswer;
    if b == [] {
      assert a + b == a;
    } else {
      var front, o := b[..|b| - 1], b[|b| - 1];
      ByLengthConcat(c, a, front, from, to, form, format);
      assert (a + b)[..|a + b| - 1] == a + front && (a + b)[|a + b| - 1] == o;
    }
  }

  /** The roots outside the range have nothing to say about the form. */
  ghost predicate Covers(c: Compiled, os: seq<Owned>, from: int, to: int, form: Text, format: Text -> Text) {
    forall o <- os :: from <= |o.root.root| < to || RootAnswer(c, o.owner, o.root, form, format) == []
  }

  lemma {:induction false} ByLengthOwned(c: Compiled, l: Lemma, roots: seq<RootRef>, from: int, to: int, form: Text,
                                         format: Text -> Text)
    requires Covers(c, OwnedBy(l, roots), from, to, form, format)
    ensures ByLength(c, OwnedBy(l, roots), from, to, form, format) == RootAnswers(c, l, roots, form, format)
  {
    hide RootAnswer;
    if roots != [] {
      var n, os := |roots| - 1, OwnedBy(l, roots);
      assert os[..n] == OwnedBy(l, roots[..n]) && os[n] in os;
      assert forall o <- os[..n] :: o in os;
      ByLengthOwned(c, l, roots[..n], from, to, form, format);
    }
  }

  /** Going through the roots by length finds what the dictionary says. */
  lemma {:induction false} ByLengthAnswers(c: Compiled, lemmas: seq<Lemma>, from: int, to: int, form: Text,
                                           format: Text -> Text)
    requires TablesOk(c) && (forall l <- lemmas :: ClassesKnown(l, c.lists))
    requires Covers(c, Flat(lemmas), from, to, form, format)
    ensures ByLength(c, Flat(lemmas), from, to, form, format) == Answers(lemmas, c.lists, form, format)
  {
    hide RootAnswer, Select, ExpandAll, TablesOk, RootAnswers;
    if lemmas != [] {
      var n := |lemmas| - 1;
      var l := lemmas[n];
      assert l in lemmas && ClassesKnown(l, c.lists);
      assert forall o <- Flat(lemmas[..n]) :: o in Flat(lemmas);
      assert forall o <- OwnedBy(l, l.roots) :: o in Flat(lemmas);
      ByLengthAnswers(c, lemmas[..n], from, to, form, format);
      ByLengthConcat(c, Flat(lemmas[..n]), OwnedBy(l, l.roots), from, to, form, format);
      ByLengthOwned(c, l, l.roots, from, to, form, format);
      RootAnswersSelect(c, l, l.roots, form, format);
    } else {
      assert Flat(lemmas) == [];
    }
  }
}
