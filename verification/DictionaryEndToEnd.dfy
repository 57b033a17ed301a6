/** From the raw dictionary to answers: compile, encode, load, look up (src/morpho/morpho_dictionary_encoder.h
    and morpho_dictionary.h). */
module DictionaryEndToEnd {
  import opened Bytes
  import opened Sequences
  import opened ClassFactoring
  import opened DictionaryAnswers
  import opened DictionaryCodec
  import opened DictionaryCompiler
  import opened DictionaryFile
  import DictionaryForms
  import opened DictionaryLoader
  import opened MorphoDictionary
  import FnvHash
  import MapFile
  import PersistentMap
  import SuffixTable
  import Trie

  type Entry = FnvHash.Entry

  // ----- The suffix table

  /** Every number about suffixes fits in two bytes. */
  predicate SuffixesFit(suffixes: Suffixes, bound: nat) {
    bound <= 0x1_0000 && forall s <- suffixes :: SuffixTable.Fits(suffixes[s], bound)
  }

  /** The encoded entry of each suffix. */
  ghost function Payloads(suffixes: Suffixes, bound: nat): map<Text, seq<Byte>> {
    map s | s in suffixes :: SuffixTable.Payload(suffixes[s], bound)
  }

  method EncodePayloads(suffixes: Suffixes, bound: nat) returns (r: map<Text, seq<Byte>>)
    requires SuffixesFit(suffixes, bound)
    ensures r == Payloads(suffixes, bound)
  {
    hide SuffixTable.Fits, SuffixTable.Payload;
    r := map[];
    var remaining := suffixes.Keys;
    while remaining != {}
      invariant remaining <= suffixes.Keys && r.Keys == suffixes.Keys - remaining
      invariant forall s <- r :: r[s] == SuffixTable.Payload(suffixes[s], bound)
      decreases |remaining|
    {
      var s :| s in remaining;
      var data := SuffixTable.Encode(suffixes[s], bound);
      r, remaining := r[s := data], remaining - {s};
    }
  }

  /** The items list the map, each key once. */
  ghost predicate Lists(items: seq<Entry>, m: map<Text, seq<Byte>>) {
    && PersistentMap.DistinctKeys(items)
    && (forall e <- items :: e.key in m && m[e.key] == e.payload)
    && forall key <- m :: HasKey(items, key)
  }

  method ListItems(m: map<Text, seq<Byte>>) returns (items: seq<Entry>)
    ensures Lists(items, m)
  {
    items := [];
    var remaining := m.Keys;
    while remaining != {}
      invariant remaining <= m.Keys && PersistentMap.DistinctKeys(items)
      invariant forall e <- items :: e.key in m && m[e.key] == e.payload && e.key !in remaining
      invariant forall key <- m :: key in remaining || HasKey(items, key)
      decreases |remaining|
    {
      var key :| key in remaining;
      ghost var before := items;
      items, remaining := items + [FnvHash.Entry(key, m[key])], remaining - {key};
      HasKeyAppend(before, FnvHash.Entry(key, m[key]));
    }
  }

  lemma HasKeyAppend(items: seq<Entry>, e: Entry)
    ensures forall key :: HasKey(items + [e], key) <==> HasKey(items, key) || key == e.key
  {
    forall key
      ensures HasKey(items + [e], key) <==> HasKey(items, key) || key == e.key
    {
      assert e in items + [e];
      assert forall x <- items :: x in items + [e];
    }
  }

  /** The entries of the table: those of all suffixes, and empty ones for their suffixes. */
  ghost function TableMap(suffixes: Suffixes, bound: nat): map<Text, seq<Byte>> {
    PersistentMap.Enlarged(Payloads(suffixes, bound), false, true, SuffixTable.Payload(map[], bound))
  }

  const LOAD_FACTOR := 5

  /** The hashes of some items can be built and saved: the number of lengths fits in one byte, and for each length
      the number of buckets, one more, in four, and the size in a signed number of four. */
  predicate Saveable(items: seq<Entry>) {
    && PersistentMap.Lengths(items) < 0x100
    && forall len :: 0 <= len < PersistentMap.Lengths(items) ==> HashFits(items, len)
  }

  predicate HashFits(items: seq<Entry>, len: nat) {
    && FnvHash.Buckets(PersistentMap.Elems(len, LOAD_FACTOR * |PersistentMap.OfLength(items, len)|)) + 1 < 0x1_0000_0000
    && PersistentMap.TotalSize(PersistentMap.OfLength(items, len)) <= MAX_DATA
  }

  /** So can those of the table, in whatever order its entries are listed. */
  ghost predicate TableFits(suffixes: Suffixes, bound: nat) {
    forall items :: Lists(items, TableMap(suffixes, bound)) ==> Saveable(items)
  }

  // ----- The order of listing does not matter

  lemma {:induction false} OnceEach(items: seq<Entry>, e: Entry)
    requires PersistentMap.DistinctKeys(items)
    ensures multiset(items)[e] == if e in items then 1 else 0
  {
    if items != [] {
      var n := |items| - 1;
      OnceEach(items[..n], e);
      assert items == items[..n] + [items[n]];
      forall i | 0 <= i < n
        ensures items[..n][i] != items[n]
      {
        assert items[i].key != items[n].key;
      }
    }
  }

  lemma ListsAlike(a: seq<Entry>, b: seq<Entry>, m: map<Text, seq<Byte>>)
    requires Lists(a, m) && Lists(b, m)
    ensures multiset(a) == multiset(b)
  {
    forall e
      ensures multiset(a)[e] == multiset(b)[e]
    {
      OnceEach(a, e);
      OnceEach(b, e);
      ListedIff(a, m, e);
      ListedIff(b, m, e);
    }
  }

  lemma ListedIff(items: seq<Entry>, m: map<Text, seq<Byte>>, e: Entry)
    requires Lists(items, m)
    ensures e in items <==> e.key in m && m[e.key] == e.payload
  {
    if e.key in m && m[e.key] == e.payload {
      assert HasKey(items, e.key);
      var x :| x in items && x.key == e.key;
      assert x == e;
    }
  }

  function IfLength(e: Entry, len: nat): seq<Entry> {
    if |e.key| == len then [e] else []
  }

  lemma {:induction false} OfLengthIsConcatMap(items: seq<Entry>, len: nat)
    ensures PersistentMap.OfLength(items, len) == ConcatMap((e: Entry) => IfLength(e, len), items)
  {
    if items != [] { OfLengthIsConcatMap(items[..|items| - 1], len); }
  }

  lemma {:induction false} TotalSizeIsConcatMap(items: seq<Entry>)
    ensures PersistentMap.TotalSize(items) == |ConcatMap((e: Entry) => e.Bytes(), items)|
  {
    if items != [] { TotalSizeIsConcatMap(items[..|items| - 1]); }
  }

  lemma SameHashes(a: seq<Entry>, b: seq<Entry>, len: nat)
    requires multiset(a) == multiset(b)
    ensures |PersistentMap.OfLength(a, len)| == |PersistentMap.OfLength(b, len)|
    ensures PersistentMap.TotalSize(PersistentMap.OfLength(a, len)) ==
      PersistentMap.TotalSize(PersistentMap.OfLength(b, len))
  {
    OfLengthIsConcatMap(a, len);
    OfLengthIsConcatMap(b, len);
    ConcatMapContents((e: Entry) => IfLength(e, len), a, b);
    var x, y := PersistentMap.OfLength(a, len), PersistentMap.OfLength(b, len);
    assert multiset(x) == multiset(y) && |multiset(x)| == |x| && |multiset(y)| == |y|;
    TotalSizeIsConcatMap(x);
    TotalSizeIsConcatMap(y);
    ConcatMapContents((e: Entry) => e.Bytes(), x, y);
    var p, q := ConcatMap((e: Entry) => e.Bytes(), x), ConcatMap((e: Entry) => e.Bytes(), y);
    assert |multiset(p)| == |p| && |multiset(q)| == |q|;
  }

  lemma {:induction false} LongestKey(items: seq<Entry>) returns (e: Entry)
    requires items != []
    ensures e in items && |e.key| == PersistentMap.Lengths(items) - 1
  {
    var n := |items| - 1;
    if n == 0 || |items[n].key| >= PersistentMap.Lengths(items[..n]) {
      e := items[n];
    } else {
      e := LongestKey(items[..n]);
    }
  }

  lemma SameLengths(a: seq<Entry>, b: seq<Entry>)
    requires multiset(a) == multiset(b)
    ensures PersistentMap.Lengths(a) <= PersistentMap.Lengths(b)
  {
    if a != [] {
      var e := LongestKey(a);
      assert e in multiset(a) && e in multiset(b);
    }
  }

  lemma SaveableAlike(a: seq<Entry>, b: seq<Entry>, m: map<Text, seq<Byte>>)
    requires Lists(a, m) && Lists(b, m) && Saveable(a)
    ensures Saveable(b)
  {
    hide Lists, PersistentMap.Lengths, PersistentMap.OfLength, PersistentMap.TotalSize, PersistentMap.Elems,
      FnvHash.Buckets;
    ListsAlike(a, b, m);
    SameLengths(a, b);
    SameLengths(b, a);
    forall len | 0 <= len < PersistentMap.Lengths(b)
      ensures HashFits(b, len)
    {
      assert HashFits(a, len);
      SameHashes(a, b, len);
    }
  }

  /** One listing tells whether the table fits. */
  lemma FitsByListing(items: seq<Entry>, suffixes: Suffixes, bound: nat)
    requires Lists(items, TableMap(suffixes, bound))
    ensures TableFits(suffixes, bound) <==> Saveable(items)
  {
    hide Lists, Saveable;
    if Saveable(items) {
      forall other | Lists(other, TableMap(suffixes, bound))
        ensures Saveable(other)
      {
        SaveableAlike(items, other, TableMap(suffixes, bound));
      }
    }
  }

  // ----- Building the table

  /** Builds the suffix table, closed under non-empty suffixes, and saves it, if it fits. */
  method EncodeSuffixes(suffixes: Suffixes, bound: nat)
    returns (data: Option<seq<Byte>>, ghost images: seq<MapFile.Image>, ghost items: seq<Entry>)
    requires SuffixesFit(suffixes, bound)
    ensures SuffixItems(items, suffixes, bound) && MapFile.Hold(images, items)
    ensures data.None? <==> !TableFits(suffixes, bound)
    ensures data.Some? ==> MapFile.AllFit(images) && |images| < 0x100 && data.value == MapFile.MapBytes(images)
  {
    hide SuffixTable.Fits, SuffixTable.Payload, SuffixItems, PersistentMap.Enlarged, PersistentMap.Map.Holds, Lists,
      Saveable, TableFits, MapFile.Hold, MapFile.Images;
    EmptyFits(bound);
    var payloads := EncodePayloads(suffixes, bound);
    var default := SuffixTable.Encode(map[], bound);
    var enlarged := PersistentMap.Enlarge(payloads, false, true, default);
    var list := ListItems(enlarged);
    items := list;
    EnlargedItems(items, suffixes, bound);
    var m := new PersistentMap.Map();
    m.Construct(list, n => LOAD_FACTOR * n);
    MapFile.ImagesHold(m, items);
    images := MapFile.Images(m);
    ImagesFit(m, items);
    FitsByListing(items, suffixes, bound);
    data := MapFile.Save(m);
  }

  /** The hashes built can be saved exactly if the entries alone say so. */
  lemma ImagesFit(m: PersistentMap.Map, items: seq<Entry>)
    requires m.Holds(items) && |m.hashes| == PersistentMap.Lengths(items)
    requires forall i :: 0 <= i < |m.hashes| ==>
      m.hashes[i].buckets == FnvHash.Buckets(PersistentMap.Elems(i, LOAD_FACTOR * |PersistentMap.OfLength(items, i)|))
    ensures MapFile.AllFit(MapFile.Images(m)) <==> Saveable(items)
  {
    hide PersistentMap.Map.Holds, PersistentMap.Lengths, PersistentMap.OfLength, PersistentMap.TotalSize,
      PersistentMap.Elems, FnvHash.Buckets;
    var images := MapFile.Images(m);
    forall i | 0 <= i < |images|
      ensures images[i].Fits() <==> HashFits(items, i)
    {
      m.DataSize(items, i);
      HashEntries(m, items, i);
    }
    if Saveable(items) {
      assert forall i :: 0 <= i < |images| ==> HashFits(items, i);
    } else if |images| < 0x100 {
      var i :| 0 <= i < |images| && !HashFits(items, i);
      assert images[i] in images;
    }
  }

  lemma HashEntries(m: PersistentMap.Map, items: seq<Entry>, i: nat)
    requires m.Holds(items) && i < |m.hashes|
    ensures |m.hashes[i].hash| == m.hashes[i].buckets + 1
  {
  }

  lemma EmptyFits(bound: nat)
    requires bound <= 0x1_0000
    ensures SuffixTable.Fits(map[], bound)
  {
    NoIds(bound);
  }

  lemma {:induction false} NoIds(bound: nat)
    ensures SuffixTable.Ids(map[], bound) == []
  {
    if bound > 0 { NoIds(bound - 1); }
  }

  lemma EnlargedItems(items: seq<Entry>, suffixes: Suffixes, bound: nat)
    requires SuffixesFit(suffixes, bound)
    requires Lists(items, TableMap(suffixes, bound))
    ensures SuffixItems(items, suffixes, bound)
  {
    hide SuffixTable.Fits, SuffixTable.Payload, PersistentMap.Enlarged, HasKey;
    var payloads, default := Payloads(suffixes, bound), SuffixTable.Payload(map[], bound);
    var enlarged := TableMap(suffixes, bound);
    EmptyFits(bound);
    forall key, i | HasKey(items, key) && 0 <= i < |key|
      ensures HasKey(items, key[i..])
    {
      HasKeyListed(items, enlarged, key);
      PersistentMap.EnlargedSuffixes(payloads, default, key, i);
    }
    forall key | HasKey(items, key) && key == []
      ensures key in suffixes
    {
      HasKeyListed(items, enlarged, key);
    }
    forall e | e in items
      ensures e.payload == SuffixTable.Payload(EntryOf(suffixes, e.key), bound)
    {
      SuffixTable.SizeDelimits(EntryOf(suffixes, e.key), bound);
    }
  }

  lemma HasKeyListed(items: seq<Entry>, m: map<Text, seq<Byte>>, key: Text)
    requires Lists(items, m) && HasKey(items, key)
    ensures key in m
  {
  }

  // ----- When the compiled dictionary answers what the raw one says

  /** What an analysis returns, as `Analyze` promises it. */
  ghost predicate Analysed(c: Compiled, form: Text, format: Text -> Text, result: seq<Tagged>) {
    if [] in c.suffixes then multiset(result) == multiset(Answers(c.lemmas, c.lists, form, format)) else result == []
  }

  /** The analysis of a form is right iff some class has the empty suffix or there is nothing to find. */
  lemma RightExactlyWhen(c: Compiled, form: Text, format: Text -> Text, result: seq<Tagged>)
    requires Analysed(c, form, format, result)
    ensures multiset(result) == multiset(Answers(c.lemmas, c.lists, form, format)) <==>
            [] in c.suffixes || Answers(c.lemmas, c.lists, form, format) == []
  {
    var answers := Answers(c.lemmas, c.lists, form, format);
    assert |multiset(answers)| == |answers| && |multiset(result)| == |result|;
  }

  /** All forms of a dictionary are analysed correctly iff some class has the empty suffix or no lemma has
      any form. */
  lemma AllRightExactlyWhen(c: Compiled, format: Text -> Text, analyze: Text -> seq<Tagged>)
    requires forall form :: Analysed(c, form, format, analyze(form))
    ensures (forall form :: multiset(analyze(form)) == multiset(Answers(c.lemmas, c.lists, form, format))) <==>
            [] in c.suffixes || forall l <- c.lemmas :: ExpandAll(l.roots, c.lists) == []
  {
    hide Answers, ExpandAll, Analysed;
    forall form
      ensures multiset(analyze(form)) == multiset(Answers(c.lemmas, c.lists, form, format)) <==>
              [] in c.suffixes || Answers(c.lemmas, c.lists, form, format) == []
    {
      RightExactlyWhen(c, form, format, analyze(form));
    }
    if [] !in c.suffixes {
      if forall l <- c.lemmas :: ExpandAll(l.roots, c.lists) == [] {
        forall form
          ensures Answers(c.lemmas, c.lists, form, format) == []
        {
          NoFormsNoAnswers(c.lemmas, c.lists, form, format);
        }
      } else {
        var l :| l in c.lemmas && ExpandAll(l.roots, c.lists) != [];
        var f := ExpandAll(l.roots, c.lists)[0];
        FormHasAnswer(c.lemmas, c.lists, l, f, format);
      }
    }
  }

  lemma {:induction false} NoFormsNoAnswers(lemmas: seq<Lemma>, lists: seq<seq<Ending>>, form: Text,
                                            format: Text -> Text)
    requires forall l <- lemmas :: ExpandAll(l.roots, lists) == []
    ensures Answers(lemmas, lists, form, format) == []
  {
    hide ExpandAll;
    if lemmas != [] {
      assert lemmas[|lemmas| - 1] in lemmas;
      NoFormsNoAnswers(lemmas[..|lemmas| - 1], lists, form, format);
    }
  }

  lemma FormHasAnswer(lemmas: seq<Lemma>, lists: seq<seq<Ending>>, l: Lemma, f: Form, format: Text -> Text)
    requires l in lemmas && f in ExpandAll(l.roots, lists)
    ensures Answers(lemmas, lists, f.form, format) != []
  {
    hide Answers, ExpandAll;
    DictionaryForms.AnswersExactly(lemmas, lists, f.form, format, Tagged(Printed(l, format), f.tag));
  }

  /** A dictionary in which no class has the empty suffix: one lemma `a` with the forms `ab` and `ac`. */
  function Endless(): Compiled {
    var b: Byte, c: Byte, t: Byte := 98, 99, 116;
    Compiled([Lemma([97], [], [RootRef([97], 0)])], [[Ending([b], [t]), Ending([c], [t])]], [[t]], map[[t] := 0],
             map[[b] := map[0 := [0]], [c] := map[0 := [0]]])
  }

  /** The raw lemma that it is compiled from. */
  function EndlessRaw(): RawLemma {
    RawLemma([97], [Form([97, 98], [116]), Form([97, 99], [116])])
  }

  /** The trie of `ab` and `ac`, and the prefix that is chosen: `a`, after which it branches. */
  lemma EndlessPrefix(maxSuffixLen: int)
    requires maxSuffixLen >= 2
    ensures Trie.CandidatePrefix(Trie.AddAll([[97, 98], [97, 99]]), maxSuffixLen) == [97]
  {
    var leaf := Trie.EMPTY;
    var a := Trie.Trie([Trie.Child(98, leaf), Trie.Child(99, leaf)], 1);
    var root := Trie.Trie([Trie.Child(97, a)], 2);
    EndlessTrie();
    var best := Trie.Best([97], 1);
    LeafFinds(maxSuffixLen, [97] + [98], best);
    LeafFinds(maxSuffixLen, [97] + [99], best);
    assert Trie.FindInChildren(a, 0, maxSuffixLen, [97], best, 1) == best;
    assert Trie.FindInChildren(a, 1, maxSuffixLen, [97], best, 1) == best;
    assert Trie.FindInChildren(a, 2, maxSuffixLen, [97], best, 1) == best;
    var none := Trie.Best([], 0);
    assert [] + [97 as Byte] == [97];
    assert Trie.FindCandidate(a, maxSuffixLen, [97], none, 1) == best;
    assert Trie.FindInChildren(root, 0, maxSuffixLen, [], none, 0) == none;
    assert Trie.FindInChildren(root, 1, maxSuffixLen, [], none, 0) == best;
  }

  lemma LeafFinds(maxSuffixLen: int, current: Text, best: Trie.Best)
    requires best.length >= 1
    ensures Trie.FindCandidate(Trie.EMPTY, maxSuffixLen, current, best, 1) == best
  {
    assert Trie.FindInChildren(Trie.EMPTY, 0, maxSuffixLen, current, best, 1) == best;
  }

  lemma EndlessTrie()
    ensures Trie.AddAll([[97, 98], [97, 99]]) ==
            Trie.Trie([Trie.Child(97, Trie.Trie([Trie.Child(98, Trie.EMPTY), Trie.Child(99, Trie.EMPTY)], 1))], 2)
  {
    hide Trie.Add;
    var ab: Text, ac: Text := [97, 98], [97, 99];
    EndlessFirst();
    EndlessSecond();
    assert [ab, ac][..1] == [ab] && [ab][..0] == [];
    assert Trie.AddAll([]) == Trie.EMPTY;
    assert Trie.AddAll([ab]) == Trie.Add(Trie.EMPTY, ab);
  }

  lemma EndlessFirst()
    ensures Trie.Add(Trie.EMPTY, [97, 98]) == Trie.Trie([Trie.Child(97, Trie.Trie([Trie.Child(98, Trie.EMPTY)], 1))], 2)
  {
    var ab: Text := [97, 98];
    assert ab[1..] == [98] && ab[1..][1..] == [];
    assert Trie.Add(Trie.EMPTY, []) == Trie.EMPTY;
    assert Trie.Add(Trie.EMPTY, [98]) == Trie.Trie([Trie.Child(98, Trie.EMPTY)], 1);
  }

  lemma EndlessSecond()
    ensures Trie.Add(Trie.Trie([Trie.Child(97, Trie.Trie([Trie.Child(98, Trie.EMPTY)], 1))], 2), [97, 99]) ==
            Trie.Trie([Trie.Child(97, Trie.Trie([Trie.Child(98, Trie.EMPTY), Trie.Child(99, Trie.EMPTY)], 1))], 2)
  {
    var ac: Text := [97, 99];
    var b := Trie.Trie([Trie.Child(98, Trie.EMPTY)], 1);
    var bc := Trie.Trie([Trie.Child(98, Trie.EMPTY), Trie.Child(99, Trie.EMPTY)], 1);
    var one := Trie.Trie([Trie.Child(97, b)], 2);
    assert ac[1..] == [99] && ac[1..][1..] == [];
    assert Trie.Find(b.children, 99) == 1;
    assert Trie.Add(b, [99]) == bc by { assert Trie.Add(Trie.EMPTY, []) == Trie.EMPTY; }
    assert Trie.Find(one.children, 97) == 0;
    assert one.children[0 := Trie.Child(97, bc)] == [Trie.Child(97, bc)];
  }

  lemma EndlessSplit(maxSuffixLen: int)
    requires maxSuffixLen >= 2
    ensures SplitOff(EndlessRaw().forms, maxSuffixLen) == Split([97], [Ending([98], [116]), Ending([99], [116])], [])
  {
    hide Trie.CandidatePrefix, Trie.AddAll;
    var forms, prefix: Text := EndlessRaw().forms, [97];
    assert FormTexts(forms) == [[97, 98], [97, 99]];
    EndlessPrefix(maxSuffixLen);
    assert RunEnd(forms, prefix, 0, true) == 0;
    assert RunEnd(forms, prefix, 2, false) == 2;
    assert RunEnd(forms, prefix, 1, false) == 2;
    assert RunEnd(forms, prefix, 0, false) == 2;
    assert CommonEnd(forms[0].form, forms[1].form, 1) == 1;
    assert forms[0].form[..1] == [97] && forms[0].form[1..] == [98] && forms[1].form[1..] == [99];
    assert forms[0..2] == forms && forms[..0] + forms[2..] == [];
    assert EndingsFrom(forms, 1) == [Ending([98], [116]), Ending([99], [116])];
  }

  lemma EndlessSorted()
    ensures SortUnique(EndlessRaw().forms) == EndlessRaw().forms
  {
    var forms := EndlessRaw().forms;
    assert forms[..1] == [forms[0]] && [forms[0]][..0] == [];
    assert SortUnique([]) == [];
    assert SortUnique([forms[0]]) == [forms[0]];
    assert !TextLeq([99], [98]) && TextLeq([98], [99]);
    assert forms[0].form[1..] == [98] && forms[1].form[1..] == [99];
    assert FormLeq(forms[0], forms[1]);
    assert forms == [forms[0]] + [forms[1]];
  }

  lemma EndlessClass()
    ensures var d, endings := Endless(), [Ending([98], [116]), Ending([99], [116])];
      WithClass(NO_TABLES, endings) == TableValue(d.lists, d.tags, d.tagsMap, d.suffixes)
        && ClassIn([endings], endings) == 0
  {
    var d, endings := Endless(), [Ending([98], [116]), Ending([99], [116])];
    assert endings[..1] == [endings[0]] && [endings[0]][..0] == [];
    var v := WithEnding(NO_TABLES, 0, endings[0]);
    var b: Text, t: Text, none: Suffixes, noIds: map<nat, seq<nat>> := [98], [116], map[], map[];
    assert [] + [t] == [t] && Stored(none, b, 0) + [0] == [0] && EntryOf(none, b) == noIds;
    assert noIds[0 := [0]] == map[0 := [0]] && none[b := map[0 := [0]]] == map[b := map[0 := [0]]];
    assert v.tags == [t] && v.tagsMap == map[t := 0] && v.suffixes == map[b := map[0 := [0]]];
    var w := WithEnding(v, 0, endings[1]);
    assert v.suffixes[[99] := map[0 := [0]]] == d.suffixes;
    assert Stored(v.suffixes, [99], 0) + [0] == [0];
    assert w.suffixes == d.suffixes;
    assert WithEndings(NO_TABLES, 0, []) == NO_TABLES;
    assert WithEndings(NO_TABLES, 0, [endings[0]]) == v;
    assert WithEndings(NO_TABLES, 0, endings) == w;
  }

  /** One class takes all forms of a lemma. */
  lemma FactoredOnce(v: TableValue, forms: seq<Form>, maxSuffixLen: int, root: Text, endings: seq<Ending>)
    requires forms != [] && SplitOff(forms, maxSuffixLen) == Split(root, endings, [])
    ensures var w := WithClass(v, endings);
      FactorAll(v, forms, maxSuffixLen, []) == (w, [RootRef(root, ClassIn(w.lists, endings))])
  {
    hide SplitOff, WithClass, ClassIn;
    var w := WithClass(v, endings);
    var roots := [RootRef(root, ClassIn(w.lists, endings))];
    assert [] + roots == roots;
    assert FactorAll(w, [], maxSuffixLen, roots) == (w, roots);
  }

  lemma CompiledOnce(raw: RawLemma, maxSuffixLen: int, language: Language, v: TableValue, root: RootRef)
    requires FactorAll(NO_TABLES, SortUnique(raw.forms), maxSuffixLen, []) == (v, [root])
    ensures CompileFrom(NO_TABLES, [raw], maxSuffixLen, language) ==
      (v, [Lemma(language.raw(raw.name), language.info(raw.name), [root])])
  {
    hide FactorAll, SortUnique, SortBy;
    OnlyOneSorts(RootLeq, root);
    var l := Lemma(language.raw(raw.name), language.info(raw.name), [root]);
    assert CompileOne(NO_TABLES, raw, maxSuffixLen, language) == (v, l);
    assert [raw][..0] == [] && [] + [l] == [l];
    assert CompileFrom(NO_TABLES, [], maxSuffixLen, language) == (NO_TABLES, []);
  }

  /** The dictionary is what the compiler makes of the lemma `a` with the forms `ab` and `ac`. */
  lemma EndlessCompiled(maxSuffixLen: int, language: Language)
    requires maxSuffixLen >= 2 && language.raw([97]) == [97] && language.info([97]) == []
    ensures Compilation([EndlessRaw()], maxSuffixLen, language) == Endless()
  {
    hide SplitOff, WithClass, SortUnique, ClassIn, FactorAll, CompileFrom, SortBy;
    var endings := [Ending([98], [116]), Ending([99], [116])];
    EndlessSorted();
    EndlessSplit(maxSuffixLen);
    EndlessClass();
    FactoredOnce(NO_TABLES, EndlessRaw().forms, maxSuffixLen, [97], endings);
    var root := RootRef([97], 0);
    CompiledOnce(EndlessRaw(), maxSuffixLen, language, WithClass(NO_TABLES, endings), root);
    OnlyOneSorts(LemmaLeq, Lemma([97], [], [root]));
  }

  lemma OnlyOneSorts<T>(leq: (T, T) -> bool, x: T)
    ensures SortBy(leq, [x]) == [x]
  {
    assert [x][..0] == [];
    assert SortBy(leq, []) == [];
  }

  /** So what the compiler makes of the lemma `a` with the forms `ab` and `ac` finds nothing for `ab`, although the
      raw dictionary has it. */
  lemma EndlessIsWrong(maxSuffixLen: int, language: Language, result: seq<Tagged>)
    requires maxSuffixLen >= 2 && language.raw([97]) == [97] && language.info([97]) == []
    requires Analysed(Compilation([EndlessRaw()], maxSuffixLen, language), [97, 98], language.format, result)
    ensures result == [] && Tagged([97], [116]) in RawAnswers([EndlessRaw()], [97, 98])
    ensures TablesOk(Endless()) && Answers(Endless().lemmas, Endless().lists, [97, 98], language.format) != []
  {
    hide Answers, RawAnswers, Compilation;
    EndlessCompiled(maxSuffixLen, language);
    var d := Endless();
    var l := d.lemmas[0];
    EndlessTables();
    ExpandAllAppend([], l.roots[0], d.lists);
    assert [] + [l.roots[0]] == l.roots;
    var f := Expand(l.roots[0].root, d.lists[0])[0];
    assert f.form == [97, 98];
    FormHasAnswer(d.lemmas, d.lists, l, f, language.format);
    RawAnswersExactly([EndlessRaw()], [97, 98], Tagged([97], [116]));
    assert EndlessRaw() in [EndlessRaw()] && Form([97, 98], [116]) in EndlessRaw().forms;
  }

  lemma EndlessTables()
    ensures TablesOk(Endless())
  {
    hide TagIds, Stored;
    var d := Endless();
    forall suffix, c: nat | c < |d.lists|
      ensures Stored(d.suffixes, suffix, c) == TagIds(d.lists[c], suffix, d.tagsMap)
    {
      EndlessStored(suffix);
    }
  }

  lemma EndlessStored(suffix: Text)
    ensures Stored(Endless().suffixes, suffix, 0) == TagIds(Endless().lists[0], suffix, Endless().tagsMap)
  {
    hide TagIds;
    var tagsMap, b, c := Endless().tagsMap, Ending([98], [116]), Ending([99], [116]);
    assert TagIds([], suffix, tagsMap) == [] by { NoTagIds(suffix, tagsMap); }
    assert [] + [b] == [b] && [b] + [c] == Endless().lists[0];
    TagIdsAppend([], b, suffix, tagsMap);
    TagIdsAppend([b], c, suffix, tagsMap);
    assert TagIds([b], suffix, tagsMap) == if suffix == [98] then [0] else [];
  }

  lemma NoTagIds(suffix: Text, tagsMap: map<Text, nat>)
    ensures TagIds([], suffix, tagsMap) == []
  {
  }

  // ----- The whole way

  /** Everything fits in the fields of the file, but for the table of suffixes, and of the loaded hashes. */
  predicate FieldsFit(lemmas: seq<Lemma>, tags: seq<Text>, suffixes: Suffixes, bound: nat) {
    && |lemmas| < 0x8000_0000 && |tags| < 0x1_0000
    && (forall l <- lemmas :: LemmaFits(l)) && (forall t <- tags :: |t| < 0x100)
    && SuffixesFit(suffixes, bound) && PlacesFit(lemmas)
  }

  /** Everything fits. */
  ghost predicate AllWidthsFit(c: Compiled) {
    FieldsFit(c.lemmas, c.tags, c.suffixes, |c.lists|) && TableFits(c.suffixes, |c.lists|)
  }

  /** When the lemmas and roots fit, so do the numbers of different lengths. */
  lemma LengthsFit(unsorted: seq<Lemma>, lemmasHist: Histogram, formsHist: Histogram)
    requires lemmasHist.Counts(LemmaTexts(unsorted)) && formsHist.Counts(RootTexts(unsorted))
    requires forall l <- unsorted :: LemmaFits(l)
    ensures |lemmasHist.Sizes()| < 0x100 && |formsHist.Sizes()| < 0x100
  {
    hide RootTexts;
    var n, m := |lemmasHist.lengths|, |formsHist.lengths|;
    if n > 0 {
      var t :| t in lemmasHist.lengths[n - 1];
      var i :| 0 <= i < |unsorted| && LemmaTexts(unsorted)[i] == t;
      assert LemmaFits(unsorted[i]);
    }
    if m > 0 {
      var t :| t in formsHist.lengths[m - 1];
      var l, r := RootTextOf(unsorted, t);
      assert LemmaFits(l);
    }
  }

  lemma FileWillFit(unsorted: seq<Lemma>, lemmas: seq<Lemma>, tags: seq<Text>, lemmasHist: Histogram,
                    formsHist: Histogram)
    requires lemmasHist.Counts(LemmaTexts(unsorted)) && formsHist.Counts(RootTexts(unsorted))
    requires lemmas == SortBy(LemmaLeq, unsorted)
    requires |lemmas| < 0x1_0000_0000 && |tags| < 0x1_0000 && (forall l <- lemmas :: LemmaFits(l))
    requires forall t <- tags :: |t| < 0x100
    ensures FileFits(lemmasHist.Sizes(), formsHist.Sizes(), lemmas, tags)
  {
    hide SortBy, RootTexts, LemmaTexts, Histogram.Counts, LemmaFits;
    SortedLemmas(unsorted);
    forall l | l in unsorted
      ensures LemmaFits(l)
    {
      assert l in multiset(unsorted);
      assert l in multiset(lemmas);
    }
    LengthsFit(unsorted, lemmasHist, formsHist);
  }

  lemma {:induction false} RootTextOf(lemmas: seq<Lemma>, t: Text) returns (l: Lemma, r: RootRef)
    requires t in RootTexts(lemmas)
    ensures l in lemmas && r in l.roots && r.root == t
  {
    var n := |lemmas| - 1;
    if t in TextsOf(lemmas[n].roots) {
      var i :| 0 <= i < |lemmas[n].roots| && TextsOf(lemmas[n].roots)[i] == t;
      l, r := lemmas[n], lemmas[n].roots[i];
    } else {
      l, r := RootTextOf(lemmas[..n], t);
    }
  }

  /** The histograms cover the texts of all lemmas and roots. */
  lemma HistogramsCover(unsorted: seq<Lemma>, lemmasHist: Histogram, formsHist: Histogram)
    requires lemmasHist.Counts(LemmaTexts(unsorted)) && formsHist.Counts(RootTexts(unsorted))
    ensures forall l <- SortBy(LemmaLeq, unsorted) :: LengthsOk(l, |lemmasHist.Sizes()|, |formsHist.Sizes()|)
  {
    hide SortBy, RootTexts;
    SortedLemmas(unsorted);
    forall l | l in unsorted
      ensures LengthsOk(l, |lemmasHist.Sizes()|, |formsHist.Sizes()|)
    {
      var k :| 0 <= k < |unsorted| && unsorted[k] == l;
      assert LemmaTexts(unsorted)[k] in LemmaTexts(unsorted);
      forall r | r in l.roots
        ensures |r.root| < |formsHist.Sizes()|
      {
        RootTextsAll(unsorted, l, r);
      }
    }
  }

  lemma {:induction false} RootTextsAll(lemmas: seq<Lemma>, l: Lemma, r: RootRef)
    requires l in lemmas && r in l.roots
    ensures r.root in RootTexts(lemmas)
  {
    var n := |lemmas| - 1;
    if l == lemmas[n] {
      var i :| 0 <= i < |l.roots| && l.roots[i] == r;
      assert TextsOf(l.roots)[i] == r.root;
    } else {
      assert lemmas == lemmas[..n] + [lemmas[n]];
      RootTextsAll(lemmas[..n], l, r);
    }
  }

  /** The dictionary has loaded what is compiled of the raw one. */
  ghost predicate Published(d: Dictionary, raws: seq<RawLemma>, maxSuffixLen: int, language: Language,
                            items: seq<Entry>)
    reads d, d.lemmas, d.lemmas.hashes, d.roots, d.roots.hashes, d.suffixes, d.suffixes.hashes
  {
    var c := Compilation(raws, maxSuffixLen, language);
    d.Loaded(c, items) && d.ClassesLoaded(c)
      && AllStandFor(CompileFrom(NO_TABLES, raws, maxSuffixLen, language).1, raws, c.lists, language)
  }

  /** Compiles, encodes and loads a raw dictionary. Fails exactly when something does not fit in its field;
      otherwise the loaded dictionary stands for the raw one. */
  method Publish(raws: seq<RawLemma>, maxSuffixLen: int, language: Language)
    returns (r: Option<Dictionary>, ghost items: seq<Entry>)
    requires forall r <- raws :: FormsTabFree(r.forms)
    ensures var c := Compilation(raws, maxSuffixLen, language);
      && (r.None? <==> !AllWidthsFit(c))
      && (r.Some? ==> Published(r.value, raws, maxSuffixLen, language, items))
      && TablesOk(c) && AllStandFor(CompileFrom(NO_TABLES, raws, maxSuffixLen, language).1, raws, c.lists, language)
      && OrderedBy(LemmaLeq, c.lemmas) && AllShort(c.lists, maxSuffixLen)
    ensures (forall x <- raws :: Canonical(x.name, language)) ==>
      var c := Compilation(raws, maxSuffixLen, language);
      forall form :: multiset(Answers(c.lemmas, c.lists, form, language.format)) == multiset(RawAnswers(raws, form))
  {
    hide Answers, RawAnswers, Canonical, ShortEndings, Tables.Valid, AllStandFor, SortBy, FormsTabFree, FileFits,
      SuffixesFit, PlacesFit, FileBytes, LengthsOk, TablesOk, SuffixItems, Dictionary.Loaded,
      Dictionary.ClassesLoaded, PersistentMap.Map.Holds, Histogram.Counts, CompileFrom, OrderedBy, TableFits,
      MapFile.AllFit, MapFile.Hold, MapFile.MapBytes;
    var tables := new Tables();
    assert AllShort(tables.lists, maxSuffixLen);
    var lemmasHist := new Histogram();
    var formsHist := new Histogram();
    var lemmas;
    ghost var unsorted;
    lemmas, unsorted := Compile(raws, maxSuffixLen, language, tables, lemmasHist, formsHist);
    ghost var c := CompiledTables(lemmas, tables);
    assert c == Compilation(raws, maxSuffixLen, language);
    items := [];
    forall form | forall x <- raws :: Canonical(x.name, language)
      ensures multiset(Answers(c.lemmas, c.lists, form, language.format)) == multiset(RawAnswers(raws, form))
    {
      CompiledAnswers(unsorted, raws, tables.lists, language, form);
    }
    ClassCount(tables);
    CompiledTablesOk(unsorted, raws, tables, language);
    var bound := |tables.classes|;
    if !FieldsFit(lemmas, tables.tags, tables.suffixes, bound) {
      return None, items;
    }
    FileWillFit(unsorted, lemmas, tables.tags, lemmasHist, formsHist);
    HistogramsCover(unsorted, lemmasHist, formsHist);
    var data := EncodeFile(lemmasHist, formsHist, lemmas, tables.tags);
    var table;
    ghost var images;
    table, images, items := EncodeSuffixes(tables.suffixes, bound);
    if table.None? {
      return None, items;
    }
    var d := new Dictionary();
    d.Load(data + table.value, lemmasHist.Sizes(), formsHist.Sizes(), images, c, items);
    r := Some(d);
  }

  lemma ClassCount(tables: Tables)
    requires tables.Valid()
    ensures |tables.classes| == |tables.lists|
  {
  }

  /** Looking up a form in a published dictionary finds exactly what the raw dictionary says about it, if
      some class has the empty suffix. */
  lemma PublishedAnswers(c: Compiled, raws: seq<RawLemma>, language: Language, form: Text, result: seq<Tagged>)
    requires multiset(Answers(c.lemmas, c.lists, form, language.format)) == multiset(RawAnswers(raws, form))
    requires Analysed(c, form, language.format, result) && [] in c.suffixes
    ensures multiset(result) == multiset(RawAnswers(raws, form))
    ensures forall t :: t in result <==> exists r <- raws :: r.name == t.name && Form(form, t.tag) in r.forms
  {
    hide Answers, RawAnswers;
    forall t
      ensures t in result <==> exists r <- raws :: r.name == t.name && Form(form, t.tag) in r.forms
    {
      RawAnswersExactly(raws, form, t);
      assert t in result <==> t in multiset(result);
      assert t in RawAnswers(raws, form) <==> t in multiset(RawAnswers(raws, form));
    }
  }

  lemma {:induction false} RawAnswersExactly(raws: seq<RawLemma>, form: Text, t: Tagged)
    ensures t in RawAnswers(raws, form) <==> exists r <- raws :: r.name == t.name && Form(form, t.tag) in r.forms
  {
    hide Select, SortUnique;
    if raws != [] {
      var front, r := raws[..|raws| - 1], raws[|raws| - 1];
      assert raws == front + [r];
      RawAnswersExactly(front, form, t);
      DictionaryForms.SelectExactly(SortUnique(r.forms), form, r.name, t);
      SortUniqueOk(r.forms);
    }
  }

  /** An answer is listed once for each raw lemma of that name that has the form with the tag. */
  lemma RawAnswersCount(raws: seq<RawLemma>, form: Text, t: Tagged)
    ensures multiset(RawAnswers(raws, form))[t]
         == |set k | 0 <= k < |raws| && raws[k].name == t.name && Form(form, t.tag) in raws[k].forms|
  {
    hide RawAnswers, Number;
    var p := (r: RawLemma) => r.name == t.name && Form(form, t.tag) in r.forms;
    RawAnswersNumber(raws, form, t, p, |raws|);
    var ks := NumberIs(raws, p, |raws|);
    assert raws[..|raws|] == raws;
    assert ks == set k | 0 <= k < |raws| && raws[k].name == t.name && Form(form, t.tag) in raws[k].forms;
  }

  lemma {:induction false} RawAnswersNumber(raws: seq<RawLemma>, form: Text, t: Tagged, p: RawLemma -> bool, n: nat)
    requires n <= |raws| && forall r: RawLemma :: p(r) <==> r.name == t.name && Form(form, t.tag) in r.forms
    ensures multiset(RawAnswers(raws[..n], form))[t] == Number(raws, p, n)
  {
    hide Select, SortUnique, Sorted;
    if n > 0 {
      var r := raws[n - 1];
      assert raws[..n][..n - 1] == raws[..n - 1];
      RawAnswersNumber(raws, form, t, p, n - 1);
      SortUniqueOk(r.forms);
      SelectCount(SortUnique(r.forms), form, r.name, t);
    }
  }

  lemma {:induction false} SelectCount(forms: seq<Form>, form: Text, name: Text, t: Tagged)
    requires Sorted(forms)
    ensures multiset(Select(forms, form, name))[t] == if name == t.name && Form(form, t.tag) in forms then 1 else 0
  {
    hide FormLeq;
    if forms != [] {
      var front, last := forms[..|forms| - 1], forms[|forms| - 1];
      assert forms == front + [last];
      SelectCount(front, form, name, t);
      assert last !in front;
      assert Select(forms, form, name) == Select(front, form, name) + if last.form == form then [Tagged(name, last.tag)]
        else [];
    }
  }

  // ----- Generation

  /** One lemma generated: its name, and its forms in whatever order. */
  type Listing = (Text, multiset<Form>)

  predicate AsksFor(q: DictionaryForms.Query, r: RawLemma, language: Language) {
    language.raw(r.name) == q.raw && q.matches(language.info(r.name)) && q.generatable(language.info(r.name))
  }

  /** What the raw dictionary says about a query: each lemma asked for that has accepted forms, with these. */
  function RawGenerated(raws: seq<RawLemma>, q: DictionaryForms.Query, language: Language): seq<Listing> {
    if raws == [] then []
    else
      var r := raws[|raws| - 1];
      RawGenerated(raws[..|raws| - 1], q, language)
      + if AsksFor(q, r, language)
        then Listed(q.raw + q.format(language.info(r.name)), DictionaryForms.Accepted(SortUnique(r.forms), q.filter))
        else []
  }

  /** Lemmas without forms are not listed. */
  function Listed(name: Text, forms: seq<Form>): seq<Listing> {
    if forms == [] then [] else [(name, multiset(forms))]
  }

  function Listings(result: seq<DictionaryForms.LemmaForms>): (r: seq<Listing>)
    ensures |r| == |result| && forall i :: 0 <= i < |r| ==> r[i] == (result[i].name, multiset(result[i].forms))
  {
    seq(|result|, i requires 0 <= i < |result| => (result[i].name, multiset(result[i].forms)))
  }

  /** What a query lists of one compiled lemma. */
  function ListedLemma(c: Compiled, q: DictionaryForms.Query, l: Lemma): seq<Listing> {
    if l.text == q.raw
      && DictionaryForms.Asked(l, q) then Listed(q.raw + q.format(l.info), DictionaryForms.FormsAsked(c, l, q)) else []
  }

  lemma {:induction false} GeneratedListings(c: Compiled, ls: seq<Lemma>, q: DictionaryForms.Query,
                                             result: seq<DictionaryForms.LemmaForms>)
    requires DictionaryForms.Generated(c, ls, q, result)
    requires forall l <- ls :: l.text == q.raw && DictionaryForms.Asked(l, q)
    ensures Listings(result) == ConcatMap((l: Lemma) => ListedLemma(c, q, l), ls)
  {
    hide DictionaryForms.FormsAsked, DictionaryForms.Asked;
    if ls != [] {
      var front, l := ls[..|ls| - 1], ls[|ls| - 1];
      assert l in ls && ls == front + [l];
      if DictionaryForms.FormsAsked(c, l, q) == [] {
        GeneratedListings(c, front, q, result);
      } else {
        var n := |result| - 1;
        GeneratedListings(c, front, q, result[..n]);
        assert Listings(result) == Listings(result[..n]) + [(result[n].name, multiset(result[n].forms))];
      }
    }
  }

  /** Lemmas that are not asked for list nothing. */
  lemma {:induction false} ChosenListings(c: Compiled, lemmas: seq<Lemma>, q: DictionaryForms.Query)
    ensures var f := (l: Lemma) => ListedLemma(c, q, l);
      ConcatMap(f, DictionaryForms.Chosen(lemmas, q)) == ConcatMap(f, lemmas)
  {
    hide DictionaryForms.FormsAsked, DictionaryForms.Asked, Listed;
    if lemmas != [] {
      var front, l := lemmas[..|lemmas| - 1], lemmas[|lemmas| - 1];
      var f := (l: Lemma) => ListedLemma(c, q, l);
      ChosenListings(c, front, q);
      var chosen := DictionaryForms.Chosen(front, q);
      if l.text == q.raw && DictionaryForms.Asked(l, q) {
        ConcatMapAppend(f, chosen, l);
      } else {
        assert f(l) == [] && chosen + [] == chosen;
      }
      assert ConcatMap(f, lemmas) == ConcatMap(f, front) + f(l);
    }
  }

  function AcceptedForm(f: Form, filter: Text -> bool): seq<Form> {
    if filter(f.tag) then [f] else []
  }

  lemma {:induction false} AcceptedAsConcatMap(forms: seq<Form>, filter: Text -> bool)
    ensures DictionaryForms.Accepted(forms, filter) == ConcatMap((f: Form) => AcceptedForm(f, filter), forms)
  {
    if forms != [] { AcceptedAsConcatMap(forms[..|forms| - 1], filter); }
  }

  lemma ListedAlike(name: Text, a: seq<Form>, b: seq<Form>, filter: Text -> bool)
    requires multiset(a) == multiset(b)
    ensures Listed(name, DictionaryForms.Accepted(a, filter)) == Listed(name, DictionaryForms.Accepted(b, filter))
  {
    AcceptedAsConcatMap(a, filter);
    AcceptedAsConcatMap(b, filter);
    ConcatMapContents((f: Form) => AcceptedForm(f, filter), a, b);
    var x, y := DictionaryForms.Accepted(a, filter), DictionaryForms.Accepted(b, filter);
    assert multiset(x) == multiset(y) && |multiset(x)| == |x| && |multiset(y)| == |y|;
  }

  lemma LemmaListing(c: Compiled, l: Lemma, r: RawLemma, q: DictionaryForms.Query, language: Language)
    requires StandsFor(l, r, c.lists, language)
    ensures ListedLemma(c, q, l) ==
      if AsksFor(q, r, language)
        then Listed(q.raw + q.format(language.info(r.name)), DictionaryForms.Accepted(SortUnique(r.forms), q.filter))
        else []
  {
    hide Listed, DictionaryForms.Accepted, SortUnique, ExpandAll;
    ListedAlike(q.raw + q.format(l.info), ExpandAll(l.roots, c.lists), SortUnique(r.forms), q.filter);
  }

  lemma {:induction false} UnsortedListings(c: Compiled, lemmas: seq<Lemma>, raws: seq<RawLemma>,
                                            q: DictionaryForms.Query, language: Language)
    requires AllStandFor(lemmas, raws, c.lists, language)
    ensures ConcatMap((l: Lemma) => ListedLemma(c, q, l), lemmas) == RawGenerated(raws, q, language)
  {
    hide Listed, DictionaryForms.Accepted, SortUnique, StandsFor, ListedLemma;
    if raws != [] {
      var n := |raws| - 1;
      assert StandsFor(lemmas[n], raws[n], c.lists, language);
      UnsortedListings(c, lemmas[..n], raws[..n], q, language);
      LemmaListing(c, lemmas[n], raws[n], q, language);
      var f := (l: Lemma) => ListedLemma(c, q, l);
      assert ConcatMap(f, lemmas) == ConcatMap(f, lemmas[..n]) + f(lemmas[n]);
    }
  }

  /** Generating from a published dictionary lists exactly the raw lemmas asked for that have accepted forms, as
      often as they occur, each with exactly its accepted forms. */
  lemma PublishedForms(c: Compiled, unsorted: seq<Lemma>, raws: seq<RawLemma>, language: Language,
                       q: DictionaryForms.Query,
                       result: seq<DictionaryForms.LemmaForms>)
    requires AllStandFor(unsorted, raws, c.lists, language) && c.lemmas == SortBy(LemmaLeq, unsorted)
    requires DictionaryForms.Generated(c, DictionaryForms.Chosen(c.lemmas, q), q, result)
    ensures multiset(Listings(result)) == multiset(RawGenerated(raws, q, language))
    ensures DictionaryForms.Chosen(c.lemmas, q) != [] <==> exists r <- raws :: AsksFor(q, r, language)
  {
    hide DictionaryForms.Generated, DictionaryForms.Chosen, DictionaryForms.Asked, RawGenerated, AllStandFor,
      ListedLemma, SortBy, StandsFor;
    var f := (l: Lemma) => ListedLemma(c, q, l);
    var chosen := DictionaryForms.Chosen(c.lemmas, q);
    forall l
      ensures l in chosen <==> l in c.lemmas && l.text == q.raw && DictionaryForms.Asked(l, q)
    {
      DictionaryForms.ChosenExactly(c.lemmas, q, l);
    }
    GeneratedListings(c, chosen, q, result);
    ChosenListings(c, c.lemmas, q);
    SortedLemmas(unsorted);
    ConcatMapContents(f, c.lemmas, unsorted);
    UnsortedListings(c, unsorted, raws, q, language);
    SomeoneAsked(c, unsorted, raws, language, q);
    assert chosen != [] ==> chosen[0] in chosen;
  }

  lemma SomeoneAsked(c: Compiled, unsorted: seq<Lemma>, raws: seq<RawLemma>, language: Language,
                     q: DictionaryForms.Query)
    requires AllStandFor(unsorted, raws, c.lists, language) && multiset(c.lemmas) == multiset(unsorted)
    ensures (exists l <- c.lemmas :: l.text == q.raw && DictionaryForms.Asked(l, q)) <==>
      exists r <- raws :: AsksFor(q, r, language)
  {
    hide ExpandAll, SortUnique;
    forall l
      ensures l in c.lemmas <==> l in unsorted
    {
      assert l in multiset(c.lemmas) <==> l in multiset(unsorted);
    }
    if l :| l in c.lemmas && l.text == q.raw && DictionaryForms.Asked(l, q) {
      var k :| 0 <= k < |unsorted| && unsorted[k] == l;
      assert StandsFor(unsorted[k], raws[k], c.lists, language) && raws[k] in raws;
    }
    if r :| r in raws && AsksFor(q, r, language) {
      var k :| 0 <= k < |raws| && raws[k] == r;
      assert StandsFor(unsorted[k], raws[k], c.lists, language) && unsorted[k] in unsorted;
    }
  }

  lemma {:induction false} RawGeneratedExactly(raws: seq<RawLemma>, q: DictionaryForms.Query, language: Language,
                                               name: Text, f: Form)
    ensures (exists x <- RawGenerated(raws, q, language) :: x.0 == name && f in x.1) <==>
      exists r <- raws ::
        AsksFor(q, r, language) && q.raw + q.format(language.info(r.name)) == name && f in r.forms && q.filter(f.tag)
  {
    hide SortUnique, DictionaryForms.Accepted, AsksFor;
    if raws != [] {
      var front, r := raws[..|raws| - 1], raws[|raws| - 1];
      assert raws == front + [r];
      RawGeneratedExactly(front, q, language, name, f);
      var accepted := DictionaryForms.Accepted(SortUnique(r.forms), q.filter);
      DictionaryForms.AcceptedExactly(SortUnique(r.forms), q.filter, f);
      SortUniqueOk(r.forms);
      assert f in multiset(accepted) <==> f in accepted;
      var last := if AsksFor(q, r, language) then Listed(q.raw + q.format(language.info(r.name)), accepted) else [];
      assert RawGenerated(raws, q, language) == RawGenerated(front, q, language) + last;
    }
  }

  /** The accepted ones of some forms, each once. */
  lemma {:induction false} AcceptedOnce(forms: seq<Form>, filter: Text -> bool, f: Form)
    requires Sorted(forms)
    ensures multiset(DictionaryForms.Accepted(forms, filter))[f] == if f in forms && filter(f.tag) then 1 else 0
  {
    hide FormLeq;
    if forms != [] {
      var front, last := forms[..|forms| - 1], forms[|forms| - 1];
      assert forms == front + [last] && last !in front;
      AcceptedOnce(front, filter, f);
    }
  }

  /** A lemma is listed with the set of its accepted forms, unless that is empty. */
  lemma ListedMeans(name: Text, forms: seq<Form>, filter: Text -> bool)
    ensures var s := set f | f in forms && filter(f.tag);
      Listed(name, DictionaryForms.Accepted(SortUnique(forms), filter)) == if s == {} then [] else [(name, multiset(s))]
  {
    hide SortUnique, Sorted, DictionaryForms.Accepted;
    var s := set f | f in forms && filter(f.tag);
    var accepted := DictionaryForms.Accepted(SortUnique(forms), filter);
    SortUniqueOk(forms);
    forall f: Form
      ensures multiset(accepted)[f] == (if f in s then 1 else 0) && (f in accepted <==> f in s)
    {
      AcceptedOnce(SortUnique(forms), filter, f);
      assert f in accepted <==> f in multiset(accepted);
    }
    assert multiset(accepted) == multiset(s);
    assert accepted != [] ==> accepted[0] in s;
  }

  /** How often a name is listed with some forms: once for each raw lemma asked for that is printed so and whose
      forms with accepted tags are these. */
  lemma RawGeneratedCount(raws: seq<RawLemma>, q: DictionaryForms.Query, language: Language, name: Text, s: set<Form>)
    requires s != {}
    ensures multiset(RawGenerated(raws, q, language))[(name, multiset(s))] == |set k |
      && 0 <= k < |raws| && language.raw(raws[k].name) == q.raw
      && q.matches(language.info(raws[k].name)) && q.generatable(language.info(raws[k].name))
      && q.raw + q.format(language.info(raws[k].name)) == name
      && s == set f | f in raws[k].forms && q.filter(f.tag)|
  {
    hide RawGenerated, Number;
    var p := (r: RawLemma) => AsksFor(q, r, language) && q.raw + q.format(language.info(r.name)) == name
      && s == set f | f in r.forms && q.filter(f.tag);
    RawGeneratedNumber(raws, q, language, name, s, p, |raws|);
    var ks := NumberIs(raws, p, |raws|);
    assert raws[..|raws|] == raws;
    assert ks == set k |
      && 0 <= k < |raws| && language.raw(raws[k].name) == q.raw
      && q.matches(language.info(raws[k].name)) && q.generatable(language.info(raws[k].name))
      && q.raw + q.format(language.info(raws[k].name)) == name
      && s == set f | f in raws[k].forms && q.filter(f.tag);
  }

  lemma {:induction false} RawGeneratedNumber(raws: seq<RawLemma>, q: DictionaryForms.Query, language: Language,
                                              name: Text, s: set<Form>, p: RawLemma -> bool, n: nat)
    requires s != {} && n <= |raws|
    requires forall r: RawLemma :: p(r) <==>
      AsksFor(q, r, language) && q.raw + q.format(language.info(r.name)) == name
        && s == set f | f in r.forms && q.filter(f.tag)
    ensures multiset(RawGenerated(raws[..n], q, language))[(name, multiset(s))] == Number(raws, p, n)
  {
    hide AsksFor, Listed, SortUnique, DictionaryForms.Accepted;
    if n > 0 {
      var r := raws[n - 1];
      assert raws[..n][..n - 1] == raws[..n - 1];
      RawGeneratedNumber(raws, q, language, name, s, p, n - 1);
      ListedMeans(q.raw + q.format(language.info(r.name)), r.forms, q.filter);
      var t := set f | f in r.forms && q.filter(f.tag);
      assert forall f: Form :: f in multiset(s) <==> f in s;
      assert multiset(s) == multiset(t) ==> s == t;
    }
  }

  /** A form is generated under a name exactly if the raw dictionary has it under that name, the query asks for
      the name, and its tag is accepted. */
  lemma PublishedFormsExactly(raws: seq<RawLemma>, language: Language, q: DictionaryForms.Query,
                              result: seq<DictionaryForms.LemmaForms>,
                              name: Text, f: Form)
    requires multiset(Listings(result)) == multiset(RawGenerated(raws, q, language))
    requires q.format == language.format && q.format([]) == []
    requires forall r <- raws ::
      r.name ==
        language.raw(r.name) + if language.info(r.name) != [] then language.format(language.info(r.name)) else []
    ensures (exists x <- result :: x.name == name && f in x.forms) <==>
            exists r <- raws ::
              && r.name == name && language.raw(name) == q.raw
              && q.matches(language.info(name)) && q.generatable(language.info(name))
              && f in r.forms && q.filter(f.tag)
  {
    hide RawGenerated;
    RawGeneratedExactly(raws, q, language, name, f);
    var listings, raw := Listings(result), RawGenerated(raws, q, language);
    forall x
      ensures x in listings <==> x in raw
    {
      assert x in multiset(listings) <==> x in multiset(raw);
    }
    if x :| x in result && x.name == name && f in x.forms {
      var i :| 0 <= i < |result| && result[i] == x;
      assert f in multiset(x.forms) && listings[i] in listings;
    }
    if x :| x in raw && x.0 == name && f in x.1 {
      var i :| 0 <= i < |listings| && listings[i] == x;
      assert f in multiset(result[i].forms) && result[i] in result;
    }
    forall r | r in raws && AsksFor(q, r, language)
      ensures q.raw + q.format(language.info(r.name)) == r.name
    {
    }
  }

  // ----- Asking a published dictionary

  /** Analyses a form. */
  method AskAnalyses(d: Dictionary, form: Text, ghost raws: seq<RawLemma>, ghost maxSuffixLen: int, language: Language,
                     ghost items: seq<Entry>)
    returns (result: seq<Tagged>)
    requires Published(d, raws, maxSuffixLen, language, items)
    requires forall r <- raws ::
      r.name ==
        language.raw(r.name) + if language.info(r.name) != [] then language.format(language.info(r.name)) else []
    ensures if [] in Compilation(raws, maxSuffixLen, language).suffixes
      then multiset(result) == multiset(RawAnswers(raws, form)) else result == []
    ensures [] in Compilation(raws, maxSuffixLen, language).suffixes ==> forall t ::
      multiset(result)[t] == |set k | 0 <= k < |raws| && raws[k].name == t.name && Form(form, t.tag) in raws[k].forms|
  {
    hide Dictionary.Loaded, Dictionary.ClassesLoaded, AllStandFor, CompileFrom, SortBy, Answers,
      RawAnswers;
    ghost var c, unsorted := Compilation(raws, maxSuffixLen, language), CompileFrom(NO_TABLES, raws, maxSuffixLen,
                                         language).1;
    CompiledAnswers(unsorted, raws, c.lists, language, form);
    result := d.Analyze(form, language.format, c, items);
    forall t
      ensures multiset(RawAnswers(raws, form))[t]
           == |set k | 0 <= k < |raws| && raws[k].name == t.name && Form(form, t.tag) in raws[k].forms|
    {
      RawAnswersCount(raws, form, t);
    }
  }

  /** Generates forms. Under each name, a set of forms is listed once for each raw lemma asked for that is printed so
      and whose forms with accepted tags are these. */
  method AskForms(d: Dictionary, q: DictionaryForms.Query, ghost raws: seq<RawLemma>, ghost maxSuffixLen: int,
                  ghost language: Language,
                  ghost items: seq<Entry>)
    returns (matched: bool, result: seq<DictionaryForms.LemmaForms>)
    requires Published(d, raws, maxSuffixLen, language, items)
    ensures multiset(Listings(result)) == multiset(RawGenerated(raws, q, language))
    ensures matched <==> exists r <- raws ::
      language.raw(r.name) == q.raw && q.matches(language.info(r.name)) && q.generatable(language.info(r.name))
    ensures forall name: Text, s: set<Form> :: s != {} ==>
      multiset(Listings(result))[(name, multiset(s))] == |set k |
        && 0 <= k < |raws| && language.raw(raws[k].name) == q.raw
        && q.matches(language.info(raws[k].name)) && q.generatable(language.info(raws[k].name))
        && q.raw + q.format(language.info(raws[k].name)) == name
        && s == set f | f in raws[k].forms && q.filter(f.tag)|
    ensures forall x <- result :: x.forms != [] && forall f :: multiset(x.forms)[f] <= 1
  {
    matched, result := GenerateForms(d, q, raws, maxSuffixLen, language, items);
    forall name: Text, s: set<Form> | s != {}
      ensures multiset(Listings(result))[(name, multiset(s))] == |set k |
        && 0 <= k < |raws| && language.raw(raws[k].name) == q.raw
        && q.matches(language.info(raws[k].name)) && q.generatable(language.info(raws[k].name))
        && q.raw + q.format(language.info(raws[k].name)) == name
        && s == set f | f in raws[k].forms && q.filter(f.tag)|
    {
      RawGeneratedCount(raws, q, language, name, s);
    }
    forall x | x in result
      ensures x.forms != [] && forall f :: multiset(x.forms)[f] <= 1
    {
      var i :| 0 <= i < |result| && result[i] == x;
      var y := Listings(result)[i];
      assert y in multiset(Listings(result)) && y in RawGenerated(raws, q, language);
      ListedSets(raws, q, language, y);
    }
  }

  lemma {:induction false} ListedSets(raws: seq<RawLemma>, q: DictionaryForms.Query, language: Language, x: Listing)
    requires x in RawGenerated(raws, q, language)
    ensures x.1 != multiset{} && forall f :: x.1[f] <= 1
  {
    hide AsksFor, Listed, SortUnique, DictionaryForms.Accepted;
    var front, r := raws[..|raws| - 1], raws[|raws| - 1];
    if x in RawGenerated(front, q, language) {
      ListedSets(front, q, language, x);
    } else {
      ListedMeans(q.raw + q.format(language.info(r.name)), r.forms, q.filter);
      var s := set f | f in r.forms && q.filter(f.tag);
      var f :| f in s;
      assert x.1 == multiset(s) && multiset(s)[f] == 1;
    }
  }

  method GenerateForms(d: Dictionary, q: DictionaryForms.Query, ghost raws: seq<RawLemma>, ghost maxSuffixLen: int,
                       ghost language: Language, ghost items: seq<Entry>)
    returns (matched: bool, result: seq<DictionaryForms.LemmaForms>)
    requires Published(d, raws, maxSuffixLen, language, items)
    ensures multiset(Listings(result)) == multiset(RawGenerated(raws, q, language))
    ensures matched <==> exists r <- raws :: AsksFor(q, r, language)
  {
    hide Dictionary.Loaded, Dictionary.ClassesLoaded, AllStandFor, CompileFrom, SortBy, RawGenerated, Listings,
      AsksFor, DictionaryForms.Generated, DictionaryForms.Chosen;
    ghost var c, unsorted := Compilation(raws, maxSuffixLen, language), CompileFrom(NO_TABLES, raws, maxSuffixLen,
                                         language).1;
    matched, result := d.Generate(q, c, items);
    PublishedForms(c, unsorted, raws, language, q, result);
  }
}
