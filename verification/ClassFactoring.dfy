/** Splitting the forms of lemmas into roots and classes of endings (src/morpho/morpho_dictionary_encoder.h). */
module ClassFactoring {
  import opened Bytes
  import opened Sequences
  import Trie

  type Text = seq<Byte>

  /** A word form with its tag. */
  datatype Form = Form(form: Text, tag: Text)

  /** How a form continues its root. */
  datatype Ending = Ending(suffix: Text, tag: Text)

  datatype RootRef = RootRef(root: Text, clas: nat)

  datatype Lemma = Lemma(text: Text, info: Text, roots: seq<RootRef>)

  const TAB: Byte := 9

  /** Byte-wise lexicographic order. */
  predicate TextLeq(a: Text, b: Text) {
    a == [] || (b != [] && (a[0] < b[0] || (a[0] == b[0] && TextLeq(a[1..], b[1..]))))
  }

  lemma {:induction false} TextLeqTotal(a: Text, b: Text)
    ensures TextLeq(a, b) || TextLeq(b, a)
    ensures TextLeq(a, b) && TextLeq(b, a) ==> a == b
  {
    if a != [] && b != [] && a[0] == b[0] {
      TextLeqTotal(a[1..], b[1..]);
      assert a == [a[0]] + a[1..] && b == [b[0]] + b[1..];
    }
  }

  lemma {:induction false} TextLeqTransitive(a: Text, b: Text, c: Text)
    requires TextLeq(a, b) && TextLeq(b, c)
    ensures TextLeq(a, c)
  {
    if a != [] && a[0] == b[0] == c[0] { TextLeqTransitive(a[1..], b[1..], c[1..]); }
  }

  /** The order, in so many words: a prefix comes first, and otherwise the first byte that differs decides. */
  lemma {:induction false} TextLeqMeans(a: Text, b: Text)
    ensures TextLeq(a, b) <==> a <= b || exists n :: 0 <= n < |a| && n < |b| && a[n] < b[n] && a[..n] == b[..n]
  {
    if a != [] && b != [] && a[0] == b[0] {
      var v, w := a[1..], b[1..];
      TextLeqMeans(v, w);
      assert a == [a[0]] + v && b == [b[0]] + w;
      if n :| 0 <= n < |v| && n < |w| && v[n] < w[n] && v[..n] == w[..n] {
        assert a[..n + 1] == [a[0]] + v[..n] && b[..n + 1] == [b[0]] + w[..n];
        assert a[n + 1] < b[n + 1];
      }
      if n :| 0 <= n < |a| && n < |b| && a[n] < b[n] && a[..n] == b[..n] {
        assert v[..n - 1] == a[..n][1..] == b[..n][1..] == w[..n - 1];
        assert v[n - 1] < w[n - 1];
      }
    } else if a != [] && b != [] && a[0] < b[0] {
      assert a[..0] == b[..0];
    } else if a != [] && b != [] {
      forall n | 0 < n < |a| && n < |b|
        ensures a[..n] != b[..n]
      {
        assert a[..n][0] == a[0] && b[..n][0] == b[0];
      }
    }
  }

  /** Whatever lies between two texts with a common prefix has that prefix too. */
  lemma {:induction false} Between(a: Text, b: Text, c: Text, n: nat)
    requires TextLeq(a, b) && TextLeq(b, c) && n <= |a| && n <= |c| && a[..n] == c[..n]
    ensures n <= |b| && b[..n] == a[..n]
  {
    if n > 0 {
      assert a[0] == a[..n][0] == c[..n][0] == c[0];
      assert a[1..][..n - 1] == a[..n][1..] && c[1..][..n - 1] == c[..n][1..];
      Between(a[1..], b[1..], c[1..], n - 1);
      assert b[..n] == [b[0]] + b[1..][..n - 1];
      assert a[..n] == [a[0]] + a[1..][..n - 1];
    }
  }

  predicate FormLeq(a: Form, b: Form) {
    if a.form == b.form then TextLeq(a.tag, b.tag) else TextLeq(a.form, b.form)
  }

  /** Sorted and without repetition. */
  ghost predicate Sorted(forms: seq<Form>) {
    forall i, j :: 0 <= i < j < |forms| ==> forms[i] != forms[j] && FormLeq(forms[i], forms[j])
  }

  lemma FormLeqTotal(a: Form, b: Form)
    ensures FormLeq(a, b) || FormLeq(b, a)
    ensures FormLeq(a, b) && FormLeq(b, a) ==> a == b
  {
    TextLeqTotal(a.form, b.form);
    TextLeqTotal(a.tag, b.tag);
  }

  lemma FormLeqTransitive(a: Form, b: Form, c: Form)
    requires FormLeq(a, b) && FormLeq(b, c)
    ensures FormLeq(a, c)
  {
    hide TextLeq;
    TextLeqTotal(a.form, b.form);
    TextLeqTotal(b.form, c.form);
    if a.form == b.form == c.form {
      TextLeqTransitive(a.tag, b.tag, c.tag);
    } else if a.form != b.form && b.form != c.form {
      TextLeqTransitive(a.form, b.form, c.form);
    }
  }

  /** Inserts a form unless it is there. */
  function InsertForm(sorted: seq<Form>, f: Form): seq<Form> {
    if sorted == [] then [f]
    else
      var last := sorted[|sorted| - 1];
      if last == f then sorted
      else if FormLeq(last, f) then sorted + [f]
      else InsertForm(sorted[..|sorted| - 1], f) + [last]
  }

  /** Sorting followed by removal of repetitions. */
  function SortUnique(forms: seq<Form>): seq<Form> {
    if forms == [] then [] else InsertForm(SortUnique(forms[..|forms| - 1]), forms[|forms| - 1])
  }

  lemma {:induction false} InsertFormContents(sorted: seq<Form>, f: Form, x: Form)
    ensures x in InsertForm(sorted, f) <==> x in sorted || x == f
  {
    hide FormLeq;
    if sorted != [] {
      InsertFormContents(sorted[..|sorted| - 1], f, x);
      assert sorted == sorted[..|sorted| - 1] + [sorted[|sorted| - 1]];
    }
  }

  lemma {:induction false} InsertFormSorted(sorted: seq<Form>, f: Form)
    requires Sorted(sorted)
    ensures Sorted(InsertForm(sorted, f))
  {
    hide FormLeq;
    if sorted != [] {
      var front, last := sorted[..|sorted| - 1], sorted[|sorted| - 1];
      FormLeqTotal(last, f);
      if last == f {
      } else if FormLeq(last, f) {
        forall i | 0 <= i < |sorted|
          ensures sorted[i] != f && FormLeq(sorted[i], f)
        {
          if i < |sorted| - 1 {
            FormLeqTransitive(sorted[i], last, f);
            FormLeqTotal(sorted[i], last);
          }
        }
      } else {
        InsertFormSorted(front, f);
        var inserted := InsertForm(front, f);
        forall i | 0 <= i < |inserted|
          ensures inserted[i] != last && FormLeq(inserted[i], last)
        {
          assert inserted[i] in inserted;
          InsertFormContents(front, f, inserted[i]);
        }
      }
    }
  }

  lemma {:induction false} SortUniqueOk(forms: seq<Form>)
    ensures Sorted(SortUnique(forms))
    ensures forall f :: f in SortUnique(forms) <==> f in forms
  {
    hide InsertForm, FormLeq;
    if forms != [] {
      var front, last := forms[..|forms| - 1], forms[|forms| - 1];
      SortUniqueOk(front);
      InsertFormSorted(SortUnique(front), last);
      assert forms == front + [last];
      forall f
        ensures f in SortUnique(forms) <==> f in forms
      {
        InsertFormContents(SortUnique(front), last, f);
      }
    }
  }

  /** The forms that endings make with a root. */
  function Expand(root: Text, endings: seq<Ending>): (r: seq<Form>)
    ensures |r| == |endings| && forall k :: 0 <= k < |r| ==> r[k] == Form(root + endings[k].suffix, endings[k].tag)
  {
    seq(|endings|, k requires 0 <= k < |endings| => Form(root + endings[k].suffix, endings[k].tag))
  }

  /** The forms of all roots, given the endings of each class. */
  function ExpandAll(roots: seq<RootRef>, lists: seq<seq<Ending>>): seq<Form> {
    if roots == [] then []
    else
      var last := roots[|roots| - 1];
      ExpandAll(roots[..|roots| - 1], lists) + if last.clas < |lists| then Expand(last.root, lists[last.clas]) else []
  }

  lemma ExpandAllAppend(roots: seq<RootRef>, r: RootRef, lists: seq<seq<Ending>>)
    ensures ExpandAll(roots + [r], lists) ==
      ExpandAll(roots, lists) + if r.clas < |lists| then Expand(r.root, lists[r.clas]) else []
  {
    assert (roots + [r])[..|roots|] == roots;
  }

  /** Later classes do not change the meaning of earlier roots. */
  lemma {:induction false} ExpandAllStable(roots: seq<RootRef>, lists: seq<seq<Ending>>, more: seq<seq<Ending>>)
    requires lists <= more && forall r <- roots :: r.clas < |lists|
    ensures ExpandAll(roots, more) == ExpandAll(roots, lists)
  {
    if roots != [] {
      assert roots[|roots| - 1] in roots;
      ExpandAllStable(roots[..|roots| - 1], lists, more);
    }
  }

  // ----- The string that identifies a class

  function Fields(endings: seq<Ending>): (r: seq<Text>)
    ensures |r| == 2 * |endings|
    ensures forall k :: 0 <= k < |endings| ==> r[2 * k] == endings[k].suffix && r[2 * k + 1] == endings[k].tag
  {
    if endings == [] then []
    else Fields(endings[..|endings| - 1]) + [endings[|endings| - 1].suffix, endings[|endings| - 1].tag]
  }

  /** Fields separated by tabs. */
  function Join(fields: seq<Text>): Text {
    if fields == [] then []
    else if |fields| == 1 then fields[0]
    else Join(fields[..|fields| - 1]) + [TAB] + fields[|fields| - 1]
  }

  function ClassString(endings: seq<Ending>): Text {
    Join(Fields(endings))
  }

  ghost predicate TabFree(fields: seq<Text>) {
    forall f <- fields :: TAB !in f
  }

  ghost predicate EndingsOk(endings: seq<Ending>) {
    endings != [] && forall e <- endings :: TAB !in e.suffix && TAB !in e.tag
  }

  lemma LastTab(x: Text, u: Text, y: Text, v: Text)
    requires x + [TAB] + u == y + [TAB] + v && TAB !in u && TAB !in v && |x| <= |y|
    ensures x == y && u == v
  {
    var a, tail, k := x + [TAB] + u, [TAB] + u, |y| - |x|;
    assert forall j :: 0 < j < |tail| ==> tail[j] in u;
    assert tail[k] == a[|x| + k] == (y + [TAB] + v)[|y|];
    assert x == a[..|x|] && y == a[..|y|] && u == a[|x| + 1..] && v == a[|y| + 1..];
  }

  lemma {:induction false} JoinHasTab(a: seq<Text>)
    requires a != [] && TabFree(a)
    ensures TAB in Join(a) <==> |a| >= 2
  {
    if |a| == 1 { assert a[0] in a; }
  }

  lemma {:induction false} JoinInjective(a: seq<Text>, b: seq<Text>)
    requires a != [] && b != [] && TabFree(a) && TabFree(b) && Join(a) == Join(b)
    ensures a == b
  {
    JoinHasTab(a);
    JoinHasTab(b);
    if |a| >= 2 {
      var x, u, y, v := a[..|a| - 1], a[|a| - 1], b[..|b| - 1], b[|b| - 1];
      assert u in a && v in b;
      if |Join(x)| <= |Join(y)| { LastTab(Join(x), u, Join(y), v); } else { LastTab(Join(y), v, Join(x), u); }
      JoinInjective(x, y);
      assert a == x + [u] && b == y + [v];
    }
  }

  lemma FieldsInjective(a: seq<Ending>, b: seq<Ending>)
    requires Fields(a) == Fields(b)
    ensures a == b
  {
    hide Fields;
    forall k | 0 <= k < |a|
      ensures a[k] == b[k]
    {
      assert Fields(a)[2 * k] == a[k].suffix && Fields(a)[2 * k + 1] == a[k].tag;
    }
  }

  lemma {:induction false} FieldsTabFree(endings: seq<Ending>)
    requires forall e <- endings :: TAB !in e.suffix && TAB !in e.tag
    ensures TabFree(Fields(endings)) && (endings != [] ==> Fields(endings) != [])
  {
    if endings != [] {
      assert endings[|endings| - 1] in endings;
      FieldsTabFree(endings[..|endings| - 1]);
    }
  }

  /** Classes are identified by their endings: equal strings mean equal lists. */
  lemma ClassStringInjective(a: seq<Ending>, b: seq<Ending>)
    requires EndingsOk(a) && EndingsOk(b) && ClassString(a) == ClassString(b)
    ensures a == b
  {
    FieldsTabFree(a);
    FieldsTabFree(b);
    JoinInjective(Fields(a), Fields(b));
    FieldsInjective(a, b);
  }

  // ----- The tables of the compiler

  type Suffixes = map<Text, map<nat, seq<nat>>>

  function EntryOf(suffixes: Suffixes, suffix: Text): map<nat, seq<nat>> {
    if suffix in suffixes then suffixes[suffix] else map[]
  }

  /** Tags stored for a suffix and a class. */
  function Stored(suffixes: Suffixes, suffix: Text, clas: nat): seq<nat> {
    if suffix in suffixes && clas in suffixes[suffix] then suffixes[suffix][clas] else []
  }

  /** Numbers of the tags that a class has for a suffix, in the order of its endings. */
  function TagIds(endings: seq<Ending>, suffix: Text, tagsMap: map<Text, nat>): seq<nat> {
    if endings == [] then []
    else
      var last := endings[|endings| - 1];
      TagIds(endings[..|endings| - 1], suffix, tagsMap)
      + if last.suffix == suffix && last.tag in tagsMap then [tagsMap[last.tag]] else []
  }

  lemma TagIdsAppend(endings: seq<Ending>, e: Ending, suffix: Text, tagsMap: map<Text, nat>)
    ensures TagIds(endings + [e], suffix, tagsMap) ==
      TagIds(endings, suffix, tagsMap) + if e.suffix == suffix && e.tag in tagsMap then [tagsMap[e.tag]] else []
  {
    assert (endings + [e])[..|endings|] == endings;
  }

  ghost predicate TagsKnown(endings: seq<Ending>, tagsMap: map<Text, nat>) {
    forall e <- endings :: e.tag in tagsMap
  }

  lemma {:induction false} TagIdsStable(endings: seq<Ending>, suffix: Text, tagsMap: map<Text, nat>,
                                        more: map<Text, nat>)
    requires TagsKnown(endings, tagsMap) && forall t <- tagsMap :: t in more && more[t] == tagsMap[t]
    ensures TagIds(endings, suffix, more) == TagIds(endings, suffix, tagsMap)
  {
    if endings != [] {
      assert endings[|endings| - 1] in endings;
      TagIdsStable(endings[..|endings| - 1], suffix, tagsMap, more);
    }
  }

  /** The suffix table says exactly what the classes say. */
  ghost predicate SuffixesMatch(suffixes: Suffixes, lists: seq<seq<Ending>>, tagsMap: map<Text, nat>) {
    && (forall suffix, c: nat :: c < |lists| ==> Stored(suffixes, suffix, c) == TagIds(lists[c], suffix, tagsMap))
    && forall suffix, c: nat :: suffix in suffixes && c in suffixes[suffix] ==> c < |lists| && suffixes[suffix][c] != []
  }

  ghost predicate TagsMatch(tags: seq<Text>, tagsMap: map<Text, nat>) {
    && (forall t <- tagsMap :: tagsMap[t] < |tags| && tags[tagsMap[t]] == t)
    && forall i :: 0 <= i < |tags| ==> tags[i] in tagsMap && tagsMap[tags[i]] == i
  }

  ghost predicate ClassesMatch(classes: map<Text, nat>, lists: seq<seq<Ending>>) {
    && |classes| == |lists|
    && (forall c ::
      0 <= c < |lists| ==>
      EndingsOk(lists[c]) && ClassString(lists[c]) in classes && classes[ClassString(lists[c])] == c)
    && forall s <- classes :: classes[s] < |lists| && ClassString(lists[classes[s]]) == s
  }

  /** Adding one ending to the newest class. */
  lemma SuffixAdded(suffixes: Suffixes, lists: seq<seq<Ending>>, endings: seq<Ending>, e: Ending,
                    tagsMap: map<Text, nat>)
    requires SuffixesMatch(suffixes, lists + [endings], tagsMap) && e.tag in tagsMap
    ensures var c := |lists|;
      var entry := EntryOf(suffixes, e.suffix);
      SuffixesMatch(suffixes[e.suffix := entry[c := Stored(suffixes, e.suffix, c) + [tagsMap[e.tag]]]],
                    lists + [endings + [e]], tagsMap)
  {
    hide Stored, TagIds;
    var c := |lists|;
    var ids := Stored(suffixes, e.suffix, c) + [tagsMap[e.tag]];
    var after := suffixes[e.suffix := EntryOf(suffixes, e.suffix)[c := ids]];
    var all, grown := lists + [endings], lists + [endings + [e]];
    forall suffix, d: nat | d < |grown|
      ensures Stored(after, suffix, d) == TagIds(grown[d], suffix, tagsMap)
    {
      assert Stored(suffixes, suffix, d) == TagIds(all[d], suffix, tagsMap);
      StoredUpdated(suffixes, e.suffix, c, ids, suffix, d);
      if d == c { TagIdsAppend(endings, e, suffix, tagsMap); }
    }
    forall suffix, d: nat | suffix in after && d in after[suffix]
      ensures d < |grown| && after[suffix][d] != []
    {
      if !(suffix == e.suffix && d == c) { assert suffix in suffixes && d in suffixes[suffix]; }
    }
  }

  lemma StoredUpdated(suffixes: Suffixes, s: Text, c: nat, ids: seq<nat>, suffix: Text, d: nat)
    ensures Stored(suffixes[s := EntryOf(suffixes, s)[c := ids]], suffix, d) ==
      if suffix == s && d == c then ids else Stored(suffixes, suffix, d)
  {
  }

  lemma SuffixesStable(suffixes: Suffixes, lists: seq<seq<Ending>>, tagsMap: map<Text, nat>, more: map<Text, nat>)
    requires SuffixesMatch(suffixes, lists, tagsMap) && forall l <- lists :: TagsKnown(l, tagsMap)
    requires forall t <- tagsMap :: t in more && more[t] == tagsMap[t]
    ensures SuffixesMatch(suffixes, lists, more)
  {
    forall suffix, c: nat | c < |lists|
      ensures Stored(suffixes, suffix, c) == TagIds(lists[c], suffix, more)
    {
      assert lists[c] in lists;
      TagIdsStable(lists[c], suffix, tagsMap, more);
    }
  }

  /** A class without endings yet changes nothing. */
  lemma EmptyClassAdded(suffixes: Suffixes, lists: seq<seq<Ending>>, tagsMap: map<Text, nat>)
    requires SuffixesMatch(suffixes, lists, tagsMap)
    ensures SuffixesMatch(suffixes, lists + [[]], tagsMap)
  {
  }

  /** The tables as a value. */
  datatype TableValue = TableValue(lists: seq<seq<Ending>>, tags: seq<Text>, tagsMap: map<Text, nat>,
    suffixes: Suffixes)

  const NO_TABLES := TableValue([], [], map[], map[])

  /** The tables after a tag has been met. */
  function WithTag(v: TableValue, tag: Text): TableValue {
    if tag in v.tagsMap then v else v.(tags := v.tags + [tag], tagsMap := v.tagsMap[tag := |v.tags|])
  }

  function TagIdIn(v: TableValue, tag: Text): nat {
    if tag in v.tagsMap then v.tagsMap[tag] else 0
  }

  /** The tables after an ending of a class has been met. */
  function WithEnding(v: TableValue, id: nat, e: Ending): TableValue {
    var w := WithTag(v, e.tag);
    w.(suffixes := w.suffixes[e.suffix :=
      EntryOf(w.suffixes, e.suffix)[id := Stored(w.suffixes, e.suffix, id) + [TagIdIn(w, e.tag)]]])
  }

  function WithEndings(v: TableValue, id: nat, endings: seq<Ending>): TableValue {
    if endings == [] then v else WithEnding(WithEndings(v, id, endings[..|endings| - 1]), id, endings[|endings| - 1])
  }

  /** The tables after a class has been met: nothing changes if it is known. */
  function WithClass(v: TableValue, endings: seq<Ending>): TableValue {
    if endings in v.lists then v else WithEndings(v, |v.lists|, endings).(lists := v.lists + [endings])
  }

  /** The number of a class. */
  function ClassIn(lists: seq<seq<Ending>>, endings: seq<Ending>): nat {
    if lists == [] then 0
    else if lists[|lists| - 1] == endings then |lists| - 1
    else ClassIn(lists[..|lists| - 1], endings)
  }

  lemma {:induction false} ClassInIs(lists: seq<seq<Ending>>, id: nat)
    requires id < |lists| && forall c :: id < c < |lists| ==> lists[c] != lists[id]
    ensures ClassIn(lists, lists[id]) == id
  {
    if id < |lists| - 1 { ClassInIs(lists[..|lists| - 1], id); }
  }

  class Tables {
    var classes: map<Text, nat>
    var suffixes: Suffixes
    var tags: seq<Text>
    var tagsMap: map<Text, nat>
    ghost var lists: seq<seq<Ending>>

    ghost predicate Valid()
      reads this
    {
      && TagsMatch(tags, tagsMap) && ClassesMatch(classes, lists) && SuffixesMatch(suffixes, lists, tagsMap)
      && forall l <- lists :: TagsKnown(l, tagsMap)
    }

    ghost function Value(): TableValue
      reads this
    {
      TableValue(lists, tags, tagsMap, suffixes)
    }

    constructor ()
      ensures Valid() && Value() == NO_TABLES
    {
      classes, suffixes, tags, tagsMap := map[], map[], [], map[];
      lists := [];
    }

    /** The number of a tag, a new one if it has not occurred. */
    method TagId(tag: Text) returns (id: nat)
      requires TagsMatch(tags, tagsMap)
      modifies this`tags, this`tagsMap
      ensures TagsMatch(tags, tagsMap) && tag in tagsMap && tagsMap[tag] == id && Value() == WithTag(old(Value()), tag)
      ensures forall t <- old(tagsMap) :: t in tagsMap && tagsMap[t] == old(tagsMap)[t]
    {
      if tag !in tagsMap {
        tagsMap := tagsMap[tag := |tags|];
      }
      id := tagsMap[tag];
      if id >= |tags| {
        tags := tags + [tag];
      }
    }

    /** One ending of the newest class. */
    method AddEnding(id: nat, e: Ending, ghost before: seq<Ending>)
      requires TagsMatch(tags, tagsMap) && (forall l <- lists :: TagsKnown(l, tagsMap)) && TagsKnown(before, tagsMap)
      requires SuffixesMatch(suffixes, lists + [before], tagsMap) && id == |lists|
      modifies this`tags, this`tagsMap, this`suffixes
      ensures TagsMatch(tags, tagsMap) && (forall l <- lists :: TagsKnown(l, tagsMap))
      ensures TagsKnown(before + [e], tagsMap)
      ensures SuffixesMatch(suffixes, lists + [before + [e]], tagsMap) && Value() == WithEnding(old(Value()), id, e)
    {
      hide SuffixesMatch, Stored, EntryOf;
      ghost var known := tagsMap;
      var tag := TagId(e.tag);
      SuffixesStable(suffixes, lists + [before], known, tagsMap);
      SuffixAdded(suffixes, lists, before, e, tagsMap);
      suffixes := suffixes[e.suffix := EntryOf(suffixes, e.suffix)[id := Stored(suffixes, e.suffix, id) + [tag]]];
    }

    /** All endings of the newest class. */
    method AddEndings(id: nat, endings: seq<Ending>)
      requires TagsMatch(tags, tagsMap) && (forall l <- lists :: TagsKnown(l, tagsMap))
      requires SuffixesMatch(suffixes, lists, tagsMap) && id == |lists|
      modifies this`tags, this`tagsMap, this`suffixes
      ensures TagsMatch(tags, tagsMap) && (forall l <- lists :: TagsKnown(l, tagsMap)) && TagsKnown(endings, tagsMap)
      ensures SuffixesMatch(suffixes, lists + [endings], tagsMap) && Value() == WithEndings(old(Value()), id, endings)
    {
      hide SuffixesMatch, WithEnding;
      EmptyClassAdded(suffixes, lists, tagsMap);
      assert endings[..0] == [];
      for k := 0 to |endings|
        invariant TagsMatch(tags, tagsMap) && (forall l <- lists :: TagsKnown(l, tagsMap))
        invariant TagsKnown(endings[..k], tagsMap)
        invariant SuffixesMatch(suffixes, lists + [endings[..k]], tagsMap)
        invariant Value() == WithEndings(old(Value()), id, endings[..k])
      {
        AddEnding(id, endings[k], endings[..k]);
        assert endings[..k + 1] == endings[..k] + [endings[k]];
        assert (endings[..k + 1])[..k] == endings[..k];
      }
      assert endings[..|endings|] == endings;
    }

    /** The number of a class, a new one if no earlier class has the same endings. */
    method AddClass(endings: seq<Ending>) returns (id: nat)
      requires Valid() && EndingsOk(endings)
      modifies this
      ensures Valid() && id < |lists| && lists[id] == endings
      ensures lists == if endings in old(lists) then old(lists) else old(lists) + [endings]
      ensures Value() == WithClass(old(Value()), endings) && id == ClassIn(lists, endings)
    {
      hide ClassString, SuffixesMatch, WithEndings, ClassesMatch, ClassIn;
      var clas := ClassString(endings);
      if clas in classes {
        id := classes[clas];
        KnownClass(classes, lists, endings);
        return;
      }
      NewClass(classes, lists, endings);
      id := |classes|;
      classes := classes[clas := id];
      AddEndings(id, endings);
      lists := lists + [endings];
    }
  }

  lemma KnownClass(classes: map<Text, nat>, lists: seq<seq<Ending>>, endings: seq<Ending>)
    requires ClassesMatch(classes, lists) && EndingsOk(endings) && ClassString(endings) in classes
    ensures var id := classes[ClassString(endings)];
      id < |lists| && lists[id] == endings && ClassIn(lists, endings) == id
  {
    hide ClassString, EndingsOk;
    var id := classes[ClassString(endings)];
    ClassStringInjective(endings, lists[id]);
    ClassInIs(lists, id);
  }

  lemma NewClass(classes: map<Text, nat>, lists: seq<seq<Ending>>, endings: seq<Ending>)
    requires ClassesMatch(classes, lists) && EndingsOk(endings) && ClassString(endings) !in classes
    ensures endings !in lists && |classes| == |lists| && ClassIn(lists + [endings], endings) == |lists|
    ensures ClassesMatch(classes[ClassString(endings) := |lists|], lists + [endings])
  {
    hide ClassString, EndingsOk;
  }

  // ----- Splitting the forms of one lemma

  function FormTexts(forms: seq<Form>): (r: seq<Text>)
    ensures |r| == |forms| && forall k :: 0 <= k < |r| ==> r[k] == forms[k].form
  {
    seq(|forms|, k requires 0 <= k < |forms| => forms[k].form)
  }

  ghost predicate FormsTabFree(forms: seq<Form>) {
    forall f <- forms :: TAB !in f.form && TAB !in f.tag
  }

  /** The endings of forms that share their first `n` bytes. */
  function EndingsOf(forms: seq<Form>, n: nat): (r: seq<Ending>)
    requires forall f <- forms :: n <= |f.form|
    ensures |r| == |forms| && forall k :: 0 <= k < |r| ==> r[k] == Ending(forms[k].form[n..], forms[k].tag)
  {
    seq(|forms|, k requires 0 <= k < |forms| => Ending(forms[k].form[n..], forms[k].tag))
  }

  lemma EndingsExpand(forms: seq<Form>, root: Text)
    requires forall f <- forms :: root <= f.form
    ensures forall f <- forms :: |root| <= |f.form|
    ensures Expand(root, EndingsOf(forms, |root|)) == forms
  {
    forall k | 0 <= k < |forms|
      ensures root + forms[k].form[|root|..] == forms[k].form
    {
      assert forms[k] in forms;
    }
  }

  lemma SortedParts(forms: seq<Form>, start: nat, end: nat)
    requires Sorted(forms) && start <= end <= |forms|
    ensures Sorted(forms[..start] + forms[end..])
  {
    hide FormLeq;
    var rest := forms[..start] + forms[end..];
    forall i, j | 0 <= i < j < |rest|
      ensures rest[i] != rest[j] && FormLeq(rest[i], rest[j])
    {
      var p, q := if i < start then i else i - start + end, if j < start then j else j - start + end;
      assert rest[i] == forms[p] && rest[j] == forms[q];
    }
  }

  lemma PartsContents(forms: seq<Form>, start: nat, end: nat)
    requires start <= end <= |forms|
    ensures multiset(forms) == multiset(forms[start..end]) + multiset(forms[..start] + forms[end..])
    ensures forall f <- forms[start..end] :: f in forms
    ensures forall f <- forms[..start] + forms[end..] :: f in forms
  {
    assert forms == forms[..start] + (forms[start..end] + forms[end..]);
    assert multiset(forms) == multiset(forms[..start]) + multiset(forms[start..end]) + multiset(forms[end..]);
  }

  /** First position from `from` on where starting with `prefix` is or is not the case. */
  function RunEnd(forms: seq<Form>, prefix: Text, from: nat, starts: bool): nat
    requires from <= |forms|
    decreases |forms| - from
  {
    if from == |forms| || (prefix <= forms[from].form) == starts then from else RunEnd(forms, prefix, from + 1, starts)
  }

  /** How far two texts agree from `n` on. */
  function CommonEnd(a: Text, b: Text, n: nat): (c: nat)
    ensures n <= |a| && n <= |b| && a[..n] == b[..n] ==> n <= c <= |a| && c <= |b| && a[..c] == b[..c]
    decreases |a| - n
  {
    if n < |a| && n < |b| && a[n] == b[n] then CommonEnd(a, b, n + 1) else n
  }

  /** A class that is split off, and the forms that are left. */
  datatype Split = Split(root: Text, endings: seq<Ending>, rest: seq<Form>)

  /** The class of the candidate prefix. */
  function SplitOff(forms: seq<Form>, maxSuffixLen: int): Split {
    var prefix := Trie.CandidatePrefix(Trie.AddAll(FormTexts(forms)), maxSuffixLen);
    var start := RunEnd(forms, prefix, 0, true);
    if start > |forms| then Split([], [], forms)
    else SplitAt(forms, prefix, start, RunEnd(forms, prefix, start, false))
  }

  function SplitAt(forms: seq<Form>, prefix: Text, start: nat, end: nat): Split {
    if start >= end || end > |forms| then Split([], [], forms)
    else
      var common := CommonEnd(forms[start].form, forms[end - 1].form, |prefix|);
      Split(if common <= |forms[start].form| then forms[start].form[..common] else [],
            EndingsFrom(forms[start..end], common),
            forms[..start] + forms[end..])
  }

  function EndingsFrom(run: seq<Form>, common: nat): (r: seq<Ending>)
    ensures |r| == |run| && forall k :: 0 <= k < |r| ==> r[k] == EndingAt(run[k], common)
  {
    seq(|run|, k requires 0 <= k < |run| => EndingAt(run[k], common))
  }

  lemma EndingsSame(run: seq<Form>, common: nat)
    requires forall f <- run :: common <= |f.form|
    ensures EndingsFrom(run, common) == EndingsOf(run, common)
  {
    forall k | 0 <= k < |run|
      ensures EndingsFrom(run, common)[k] == EndingsOf(run, common)[k]
    {
      assert run[k] in run;
    }
  }

  function EndingAt(f: Form, common: nat): Ending {
    Ending(if common <= |f.form| then f.form[common..] else [], f.tag)
  }

  /** First position from `from` on where starting with `prefix` is or is not the case. */
  method FindRun(forms: seq<Form>, prefix: Text, from: nat, starts: bool) returns (i: nat)
    requires from <= |forms|
    ensures from <= i <= |forms|
    ensures forall j :: from <= j < i ==> (prefix <= forms[j].form) != starts
    ensures i < |forms| ==> (prefix <= forms[i].form) == starts
    ensures i == RunEnd(forms, prefix, from, starts)
  {
    i := from;
    while i < |forms| && (prefix <= forms[i].form) != starts
      invariant from <= i <= |forms| && RunEnd(forms, prefix, i, starts) == RunEnd(forms, prefix, from, starts)
      invariant forall j :: from <= j < i ==> (prefix <= forms[j].form) != starts
    {
      i := i + 1;
    }
  }

  /** All forms of a run start with a root. */
  ghost predicate Shares(run: seq<Form>, root: Text) {
    forall f <- run :: root <= f.form
  }

  /** What follows the first `n` bytes keeps to the limit, if there is one. */
  ghost predicate AllWithin(run: seq<Form>, n: nat, maxSuffixLen: int) {
    maxSuffixLen >= 1 ==> forall f <- run :: |f.form| - n < maxSuffixLen
  }

  /** The common prefix of the first and the last form of a sorted run is common to the whole run. */
  lemma RunPrefix(forms: seq<Form>, n: nat)
    requires Sorted(forms) && forms != []
    requires n <= |forms[0].form| && n <= |forms[|forms| - 1].form|
    requires forms[0].form[..n] == forms[|forms| - 1].form[..n]
    ensures Shares(forms, forms[0].form[..n])
  {
    hide TextLeq;
    var first, last := forms[0], forms[|forms| - 1];
    forall k | 0 <= k < |forms|
      ensures first.form[..n] <= forms[k].form
    {
      TextLeqTotal(first.form, first.form);
      TextLeqTotal(last.form, last.form);
      assert TextLeq(first.form, forms[k].form) && TextLeq(forms[k].form, last.form);
      Between(first.form, forms[k].form, last.form, n);
    }
  }

  method FindCommon(first: Text, last: Text, from: nat) returns (common: nat)
    ensures common == CommonEnd(first, last, from)
  {
    common := from;
    while common < |first| && common < |last| && first[common] == last[common]
      invariant CommonEnd(first, last, common) == CommonEnd(first, last, from)
    {
      common := common + 1;
    }
  }

  /** The run of forms that start with the candidate prefix, and how much they share. The candidate prefix
      starts one of the forms, so the exit with an internal error is never taken. */
  method FindClass(forms: seq<Form>, maxSuffixLen: int) returns (start: nat, end: nat, common: nat)
    requires forms != [] && Sorted(forms)
    ensures start < end <= |forms| && common <= |forms[start].form|
    ensures Shares(forms[start..end], forms[start].form[..common]) && AllWithin(forms[start..end], common, maxSuffixLen)
    ensures var prefix := Trie.CandidatePrefix(Trie.AddAll(FormTexts(forms)), maxSuffixLen);
      start == RunEnd(forms, prefix, 0, true) && end == RunEnd(forms, prefix, start, false)
      && common == CommonEnd(forms[start].form, forms[end - 1].form, |prefix|)
  {
    hide FormLeq, Sorted, Shares, AllWithin, Trie.CandidatePrefix, Trie.AddAll, RunEnd, CommonEnd;
    var texts := FormTexts(forms);
    var prefix := Trie.CandidatePrefix(Trie.AddAll(texts), maxSuffixLen);
    Trie.CandidateIsUsable(texts, maxSuffixLen);
    start := FindRun(forms, prefix, 0, true);
    assert start < |forms| by {
      var f :| f in texts && prefix <= f;
      var k :| 0 <= k < |texts| && texts[k] == f;
    }
    end := FindRun(forms, prefix, start, false);
    common := FindCommon(forms[start].form, forms[end - 1].form, |prefix|);
    SortedRun(forms, start, end);
    RunShares(forms[start..end], forms[start].form, forms[end - 1].form, prefix);
    RunShort(forms, prefix, start, end, common, maxSuffixLen);
  }

  /** A sorted run shares what its first and last form share. */
  lemma RunShares(run: seq<Form>, first: Text, last: Text, prefix: Text)
    requires Sorted(run) && run != [] && first == run[0].form && last == run[|run| - 1].form && prefix <= first
    requires prefix <= last
    ensures var common := CommonEnd(first, last, |prefix|);
      |prefix| <= common <= |first| && Shares(run, first[..common])
  {
    hide FormLeq, Sorted, CommonEnd, Shares;
    assert first[..|prefix|] == prefix == last[..|prefix|];
    RunPrefix(run, CommonEnd(first, last, |prefix|));
  }

  lemma RunShort(forms: seq<Form>, prefix: Text, start: nat, end: nat, common: nat, maxSuffixLen: int)
    requires start < end <= |forms| && common >= |prefix| && forall k :: start <= k < end ==> prefix <= forms[k].form
    requires maxSuffixLen >= 1 ==> forall f <- FormTexts(forms) :: prefix <= f ==> |f| - |prefix| < maxSuffixLen
    ensures AllWithin(forms[start..end], common, maxSuffixLen)
  {
    var run, texts := forms[start..end], FormTexts(forms);
    forall f | f in run
      ensures maxSuffixLen >= 1 ==> |f.form| - common < maxSuffixLen
    {
      var k :| 0 <= k < |run| && run[k] == f;
      assert prefix <= forms[start + k].form;
      assert texts[start + k] in texts;
    }
  }

  lemma LongEnough(run: seq<Form>, root: Text)
    requires Shares(run, root)
    ensures forall f <- run :: |root| <= |f.form|
  {
  }

  lemma SplitIs(forms: seq<Form>, maxSuffixLen: int, start: nat, end: nat, common: nat, run: seq<Form>, prefix: Text)
    requires start < end <= |forms| && common <= |forms[start].form| && run == forms[start..end]
    requires forall f <- run :: common <= |f.form|
    requires prefix == Trie.CandidatePrefix(Trie.AddAll(FormTexts(forms)), maxSuffixLen)
    requires start == RunEnd(forms, prefix, 0, true) && end == RunEnd(forms, prefix, start, false)
    requires common == CommonEnd(forms[start].form, forms[end - 1].form, |prefix|)
    ensures SplitOff(forms, maxSuffixLen) ==
            Split(forms[start].form[..common], EndingsOf(run, common), forms[..start] + forms[end..])
  {
    hide Trie.CandidatePrefix, Trie.AddAll, RunEnd, CommonEnd, EndingsFrom, EndingsOf, FormTexts;
    EndingsSame(run, common);
  }

  lemma SortedRun(forms: seq<Form>, start: nat, end: nat)
    requires Sorted(forms) && start <= end <= |forms|
    ensures Sorted(forms[start..end])
  {
  }

  /** Takes one class off the forms that are left. */
  method TakeClass(forms: seq<Form>, maxSuffixLen: int) returns (root: Text, endings: seq<Ending>, rest: seq<Form>)
    requires forms != [] && Sorted(forms) && FormsTabFree(forms)
    ensures EndingsOk(endings) && |rest| < |forms| && Sorted(rest) && FormsTabFree(rest)
    ensures multiset(Expand(root, endings)) + multiset(rest) == multiset(forms)
    ensures maxSuffixLen >= 1 ==> ShortEndings(endings, maxSuffixLen)
    ensures Split(root, endings, rest) == SplitOff(forms, maxSuffixLen)
  {
    hide Sorted, Trie.CandidatePrefix, Trie.AddAll, RunEnd, CommonEnd;
    var start, end, common := FindClass(forms, maxSuffixLen);
    var run := forms[start..end];
    root := forms[start].form[..common];
    LongEnough(run, root);
    SplitIs(forms, maxSuffixLen, start, end, common, run,
      Trie.CandidatePrefix(Trie.AddAll(FormTexts(forms)), maxSuffixLen));
    EndingsExpand(run, root);
    endings := EndingsOf(run, common);
    rest := forms[..start] + forms[end..];
    SortedParts(forms, start, end);
    PartsContents(forms, start, end);
    forall k | 0 <= k < |endings|
      ensures TAB !in endings[k].suffix && TAB !in endings[k].tag
      ensures maxSuffixLen >= 1 ==> |endings[k].suffix| < maxSuffixLen
    {
      assert run[k] in run;
    }
  }

  /** What has been split off so far. */
  ghost predicate RootsOk(roots: seq<RootRef>, lists: seq<seq<Ending>>, maxSuffixLen: int) {
    && (forall r <- roots :: r.clas < |lists|)
    && (maxSuffixLen >= 1 ==> forall r <- roots :: r.clas < |lists| && ShortEndings(lists[r.clas], maxSuffixLen))
  }

  lemma RootAdded(roots: seq<RootRef>, before: seq<seq<Ending>>, lists: seq<seq<Ending>>, r: RootRef, maxSuffixLen: int)
    requires RootsOk(roots, before, maxSuffixLen) && before <= lists && r.clas < |lists|
    requires maxSuffixLen >= 1 ==> ShortEndings(lists[r.clas], maxSuffixLen)
    ensures RootsOk(roots + [r], lists, maxSuffixLen)
    ensures ExpandAll(roots + [r], lists) == ExpandAll(roots, before) + Expand(r.root, lists[r.clas])
  {
    ExpandAllStable(roots, before, lists);
    ExpandAllAppend(roots, r, lists);
    forall x | x in roots + [r]
      ensures x.clas < |lists| && (maxSuffixLen >= 1 ==> ShortEndings(lists[x.clas], maxSuffixLen))
    {
      if x in roots { assert lists[x.clas] == before[x.clas]; }
    }
  }

  /** The tables and the roots after all forms have been split off; some form is split off each time. */
  function FactorAll(v: TableValue, forms: seq<Form>, maxSuffixLen: int, roots: seq<RootRef>): (TableValue,
                     seq<RootRef>)
    decreases |forms|
  {
    if forms == [] then (v, roots)
    else
      var s := SplitOff(forms, maxSuffixLen);
      var w := WithClass(v, s.endings);
      if |s.rest| >= |forms| then (v, roots)
      else FactorAll(w, s.rest, maxSuffixLen, roots + [RootRef(s.root, ClassIn(w.lists, s.endings))])
  }

  /** Splits the forms of a lemma into classes until none is left. The roots and classes stand for exactly
      the set of forms, and every ending is shorter than the limit. */
  method FactorLemma(tables: Tables, raw: seq<Form>, maxSuffixLen: int) returns (roots: seq<RootRef>)
    requires tables.Valid() && FormsTabFree(raw)
    modifies tables
    ensures tables.Valid() && old(tables.lists) <= tables.lists
    ensures RootsOk(roots, tables.lists, maxSuffixLen)
    ensures multiset(ExpandAll(roots, tables.lists)) == multiset(SortUnique(raw))
    ensures AllShort(old(tables.lists), maxSuffixLen) ==> AllShort(tables.lists, maxSuffixLen)
    ensures OrderedBy(RootLeq, roots)
    ensures var r := FactorAll(old(tables.Value()), SortUnique(raw), maxSuffixLen, []);
      tables.Value() == r.0 && roots == SortBy(RootLeq, r.1)
  {
    hide AllShort, Sorted, Expand, ExpandAll, SortUnique, RootsOk, EndingsOk, Tables.Valid, SplitOff, WithClass,
      ClassIn, RootLeq, SortBy;
    var forms := SortUnique(raw);
    SortUniqueOk(raw);
    ghost var all := forms;
    roots := [];
    NoRoots(tables.lists, maxSuffixLen);
    while forms != []
      invariant tables.Valid() && old(tables.lists) <= tables.lists
      invariant Sorted(forms) && FormsTabFree(forms)
      invariant RootsOk(roots, tables.lists, maxSuffixLen)
      invariant multiset(ExpandAll(roots, tables.lists)) + multiset(forms) == multiset(all)
      invariant AllShort(old(tables.lists), maxSuffixLen) ==> AllShort(tables.lists, maxSuffixLen)
      invariant FactorAll(tables.Value(), forms, maxSuffixLen, roots) ==
        FactorAll(old(tables.Value()), all, maxSuffixLen, [])
      decreases |forms|
    {
      var root, endings, rest := TakeClass(forms, maxSuffixLen);
      ghost var before := tables.lists;
      var clas := tables.AddClass(endings);
      ShortAdded(before, endings, maxSuffixLen);
      RootAdded(roots, before, tables.lists, RootRef(root, clas), maxSuffixLen);
      roots := roots + [RootRef(root, clas)];
      forms := rest;
    }
    roots := SortRoots(roots, tables.lists, maxSuffixLen);
  }

  /** All classes keep to the limit. */
  ghost predicate AllShort(lists: seq<seq<Ending>>, maxSuffixLen: int) {
    maxSuffixLen >= 1 ==> forall l <- lists :: ShortEndings(l, maxSuffixLen)
  }

  lemma ShortAdded(lists: seq<seq<Ending>>, endings: seq<Ending>, maxSuffixLen: int)
    requires maxSuffixLen >= 1 ==> ShortEndings(endings, maxSuffixLen)
    ensures AllShort(lists, maxSuffixLen) ==> AllShort(lists + [endings], maxSuffixLen)
  {
  }

  lemma NoRoots(lists: seq<seq<Ending>>, maxSuffixLen: int)
    ensures RootsOk([], lists, maxSuffixLen) && ExpandAll([], lists) == []
  {
  }

  ghost predicate ShortEndings(endings: seq<Ending>, limit: int) {
    forall e <- endings :: |e.suffix| < limit
  }

  predicate RootLeq(a: RootRef, b: RootRef) {
    if a.root == b.root then a.clas <= b.clas else TextLeq(a.root, b.root)
  }

  lemma RootsTotal()
    ensures TotalOrder(RootLeq)
  {
    hide TextLeq;
    forall a: RootRef, b: RootRef
      ensures RootLeq(a, b) || RootLeq(b, a)
    {
      TextLeqTotal(a.root, b.root);
    }
    forall a: RootRef, b: RootRef, c: RootRef | RootLeq(a, b) && RootLeq(b, c)
      ensures RootLeq(a, c)
    {
      TextLeqTotal(a.root, b.root);
      TextLeqTotal(b.root, c.root);
      TextLeqTransitive(a.root, b.root, c.root);
    }
  }

  method SortRoots(roots: seq<RootRef>, ghost lists: seq<seq<Ending>>, ghost maxSuffixLen: int)
    returns (sorted: seq<RootRef>)
    requires RootsOk(roots, lists, maxSuffixLen)
    ensures multiset(sorted) == multiset(roots) && RootsOk(sorted, lists, maxSuffixLen)
    ensures sorted == SortBy(RootLeq, roots) && OrderedBy(RootLeq, sorted)
    ensures multiset(ExpandAll(sorted, lists)) == multiset(ExpandAll(roots, lists))
  {
    sorted := SortBy(RootLeq, roots);
    SortByContents(RootLeq, roots);
    RootsTotal();
    SortByOrders(RootLeq, roots);
    forall r | r in sorted
      ensures r in roots
    {
      assert r in multiset(sorted) && r in multiset(roots);
    }
    ExpandAllIsConcatMap(sorted, lists);
    ExpandAllIsConcatMap(roots, lists);
    ConcatMapContents((r: RootRef) => ExpandRoot(r, lists), sorted, roots);
  }

  function ExpandRoot(r: RootRef, lists: seq<seq<Ending>>): seq<Form> {
    if r.clas < |lists| then Expand(r.root, lists[r.clas]) else []
  }

  lemma {:induction false} ExpandAllIsConcatMap(roots: seq<RootRef>, lists: seq<seq<Ending>>)
    ensures ExpandAll(roots, lists) == ConcatMap((r: RootRef) => ExpandRoot(r, lists), roots)
  {
    if roots != [] { ExpandAllIsConcatMap(roots[..|roots| - 1], lists); }
  }
}
