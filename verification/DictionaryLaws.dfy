/** What compilation makes of the forms of a lemma, said of the forms themselves, and what fits in the file, number by
    number (src/morpho/morpho_dictionary_encoder.h). */
module DictionaryLaws {
  import opened Sequences
  import opened ClassFactoring
  import opened DictionaryAnswers
  import opened DictionaryCompiler
  import opened DictionaryEndToEnd
  import opened DictionaryEntries
  import FnvHash
  import PersistentMap
  import SuffixTable
  import Trie

  // ----- Splitting off a class

  lemma {:induction false} RunEndIs(forms: seq<Form>, prefix: Text, from: nat, starts: bool)
    requires from <= |forms|
    ensures var i := RunEnd(forms, prefix, from, starts);
      && from <= i <= |forms| && (i < |forms| ==> (prefix <= forms[i].form) == starts)
      && forall j :: from <= j < i ==> (prefix <= forms[j].form) != starts
    decreases |forms| - from
  {
    if from < |forms| && (prefix <= forms[from].form) != starts { RunEndIs(forms, prefix, from + 1, starts); }
  }

  lemma {:induction false} CommonEndIs(a: Text, b: Text, n: nat)
    requires n <= |a| && n <= |b| && a[..n] == b[..n]
    ensures var c := CommonEnd(a, b, n);
      n <= c <= |a| && c <= |b| && a[..c] == b[..c] && (c < |a| && c < |b| ==> a[c] != b[c])
    decreases |a| - n
  {
    if n < |a| && n < |b| && a[n] == b[n] {
      assert a[..n + 1] == a[..n] + [a[n]] && b[..n + 1] == b[..n] + [b[n]];
      CommonEndIs(a, b, n + 1);
    }
  }

  /** In a sorted list, what starts with a prefix stands together. */
  lemma PrefixTogether(forms: seq<Form>, prefix: Text, i: nat, j: nat, k: nat)
    requires Sorted(forms) && i <= j <= k < |forms| && prefix <= forms[i].form && prefix <= forms[k].form
    ensures prefix <= forms[j].form
  {
    hide TextLeq;
    var a, b, c := forms[i].form, forms[j].form, forms[k].form;
    TextLeqTotal(a, a);
    TextLeqTotal(c, c);
    assert TextLeq(a, b) && TextLeq(b, c);
    assert a[..|prefix|] == prefix == c[..|prefix|];
    Between(a, b, c, |prefix|);
  }

  /** The run of forms that start with the candidate prefix: there are some, and they are all there are. */
  lemma RunOfPrefix(forms: seq<Form>, maxSuffixLen: int) returns (prefix: Text, start: nat, end: nat)
    requires forms != [] && Sorted(forms)
    ensures prefix == Trie.CandidatePrefix(Trie.AddAll(FormTexts(forms)), maxSuffixLen)
    ensures start < end <= |forms|
    ensures start == RunEnd(forms, prefix, 0, true) && end == RunEnd(forms, prefix, start, false)
    ensures forall j :: 0 <= j < |forms| ==> (prefix <= forms[j].form <==> start <= j < end)
  {
    hide Sorted, Trie.CandidatePrefix, Trie.AddAll, RunEnd;
    var texts := FormTexts(forms);
    prefix := Trie.CandidatePrefix(Trie.AddAll(texts), maxSuffixLen);
    Trie.CandidateIsUsable(texts, maxSuffixLen);
    var f :| f in texts && prefix <= f;
    var k :| 0 <= k < |texts| && texts[k] == f;
    RunEndIs(forms, prefix, 0, true);
    start := RunEnd(forms, prefix, 0, true);
    RunEndIs(forms, prefix, start, false);
    end := RunEnd(forms, prefix, start, false);
    forall j | end <= j < |forms|
      ensures !(prefix <= forms[j].form)
    {
      if prefix <= forms[j].form { PrefixTogether(forms, prefix, start, end, j); }
    }
  }

  /** The class that is split off: all forms that start with the candidate prefix and no others. Its root is all that
      they share, as some ending is empty or two start differently; and all other forms are left. */
  lemma SplitMeans(forms: seq<Form>, maxSuffixLen: int)
    requires forms != [] && Sorted(forms)
    ensures var prefix := Trie.CandidatePrefix(Trie.AddAll(FormTexts(forms)), maxSuffixLen);
      var s := SplitOff(forms, maxSuffixLen);
      && prefix <= s.root && s.endings != []
      && (forall f :: f in Expand(s.root, s.endings) <==> f in forms && prefix <= f.form)
      && (forall f :: f in s.rest <==> f in forms && !(prefix <= f.form))
      && ((exists e <- s.endings :: e.suffix == []) || exists d, e ::
            d in s.endings && e in s.endings && d.suffix != [] && e.suffix != [] && d.suffix[0] != e.suffix[0])
  {
    hide Sorted, Trie.CandidatePrefix, Trie.AddAll, RunEnd, CommonEnd, SplitOff, EndingsFrom, FormTexts;
    var prefix, start, end := RunOfPrefix(forms, maxSuffixLen);
    var run, first, last := forms[start..end], forms[start].form, forms[end - 1].form;
    assert first[..|prefix|] == prefix == last[..|prefix|];
    CommonEndIs(first, last, |prefix|);
    var common := CommonEnd(first, last, |prefix|);
    SortedRun(forms, start, end);
    RunShares(run, first, last, prefix);
    LongEnough(run, first[..common]);
    SplitIs(forms, maxSuffixLen, start, end, common, run, prefix);
    EndingsExpand(run, first[..common]);
    var s := SplitOff(forms, maxSuffixLen);
    RunMembers(forms, prefix, start, end);
    assert s.endings[0] in s.endings && s.endings[|run| - 1] in s.endings;
    assert s.endings[0].suffix == first[common..] && s.endings[|run| - 1].suffix == last[common..];
    assert first[..|prefix|] == first[..common][..|prefix|];
  }

  lemma RunMembers(forms: seq<Form>, prefix: Text, start: nat, end: nat)
    requires start < end <= |forms| && forall j :: 0 <= j < |forms| ==> (prefix <= forms[j].form <==> start <= j < end)
    ensures forall f :: f in forms[start..end] <==> f in forms && prefix <= f.form
    ensures forall f :: f in forms[..start] + forms[end..] <==> f in forms && !(prefix <= f.form)
  {
    forall f | f in forms
      ensures f in forms[start..end] || f in forms[..start] + forms[end..]
    {
      assert forms == forms[..start] + forms[start..end] + forms[end..];
    }
    forall f | f in forms[..start] + forms[end..]
      ensures f in forms && !(prefix <= f.form)
    {
      var j :| 0 <= j < start + |forms| - end && (forms[..start] + forms[end..])[j] == f;
      assert f == forms[if j < start then j else j - start + end];
    }
  }

  // ----- The empty suffix

  /** A suffix that is stored has a class. */
  ghost predicate Used(suffixes: Suffixes) {
    forall s <- suffixes :: suffixes[s] != map[]
  }

  lemma {:induction false} EndingsUsed(v: TableValue, id: nat, endings: seq<Ending>)
    requires Used(v.suffixes)
    ensures Used(WithEndings(v, id, endings).suffixes)
  {
    if endings != [] {
      EndingsUsed(v, id, endings[..|endings| - 1]);
      EndingUsed(WithEndings(v, id, endings[..|endings| - 1]), id, endings[|endings| - 1]);
    }
  }

  lemma EndingUsed(v: TableValue, id: nat, e: Ending)
    requires Used(v.suffixes)
    ensures Used(WithEnding(v, id, e).suffixes)
  {
    var w := WithTag(v, e.tag);
    var entry := EntryOf(w.suffixes, e.suffix)[id := Stored(w.suffixes, e.suffix, id) + [TagIdIn(w, e.tag)]];
    assert id in entry;
  }

  lemma {:induction false} FactorUsed(v: TableValue, forms: seq<Form>, maxSuffixLen: int, roots: seq<RootRef>)
    requires Used(v.suffixes)
    ensures Used(FactorAll(v, forms, maxSuffixLen, roots).0.suffixes)
    decreases |forms|
  {
    hide SplitOff, Used, ClassIn, WithEndings;
    if forms != [] {
      var s := SplitOff(forms, maxSuffixLen);
      var w := WithClass(v, s.endings);
      EndingsUsed(v, |v.lists|, s.endings);
      if |s.rest| < |forms| {
        FactorUsed(w, s.rest, maxSuffixLen, roots + [RootRef(s.root, ClassIn(w.lists, s.endings))]);
      }
    }
  }

  lemma {:induction false} CompilationUsed(v: TableValue, raws: seq<RawLemma>, maxSuffixLen: int, language: Language)
    requires Used(v.suffixes)
    ensures Used(CompileFrom(v, raws, maxSuffixLen, language).0.suffixes)
  {
    hide Used, FactorAll, SortUnique, SortBy;
    if raws != [] {
      var front, r := raws[..|raws| - 1], raws[|raws| - 1];
      CompilationUsed(v, front, maxSuffixLen, language);
      FactorUsed(CompileFrom(v, front, maxSuffixLen, language).0, SortUnique(r.forms), maxSuffixLen, []);
    }
  }

  /** The empty suffix is stored exactly if it is an ending of some class, that is, if some form is the whole of what
      the forms of its class share. */
  lemma EmptySuffixMeans(raws: seq<RawLemma>, maxSuffixLen: int, language: Language)
    requires TablesOk(Compilation(raws, maxSuffixLen, language))
    ensures var c := Compilation(raws, maxSuffixLen, language);
      [] in c.suffixes <==> exists l <- c.lists :: exists e <- l :: e.suffix == []
  {
    hide CompileFrom, SortBy, TagIds;
    var c := Compilation(raws, maxSuffixLen, language);
    assert Used(NO_TABLES.suffixes);
    CompilationUsed(NO_TABLES, raws, maxSuffixLen, language);
    if [] in c.suffixes {
      var clas: nat :| clas in c.suffixes[[]];
      assert Stored(c.suffixes, [], clas) == TagIds(c.lists[clas], [], c.tagsMap) != [];
      TagIdsMean(c.lists[clas], [], c.tagsMap);
      assert c.lists[clas] in c.lists;
    }
    if l, e :| l in c.lists && e in l && e.suffix == [] {
      var clas :| 0 <= clas < |c.lists| && c.lists[clas] == l;
      TagIdsMean(l, [], c.tagsMap);
      assert Stored(c.suffixes, [], clas) == TagIds(l, [], c.tagsMap);
    }
  }

  lemma {:induction false} TagIdsMean(endings: seq<Ending>, suffix: Text, tagsMap: map<Text, nat>)
    requires TagsKnown(endings, tagsMap)
    ensures TagIds(endings, suffix, tagsMap) != [] <==> exists e <- endings :: e.suffix == suffix
  {
    if endings != [] {
      var front, last := endings[..|endings| - 1], endings[|endings| - 1];
      assert endings == front + [last];
      TagIdsMean(front, suffix, tagsMap);
    }
  }

  // ----- What fits

  /** How many bytes the keys of one length and their payloads take, added up one after the other. */
  lemma {:induction false} SizeIs(items: seq<FnvHash.Entry>, len: nat, sums: seq<nat>, n: nat)
    requires n <= |items| && |sums| == |items| + 1 && sums[0] == 0
    requires forall k :: 0 <= k < |items| ==>
      sums[k + 1] == sums[k] + if |items[k].key| == len then len + |items[k].payload| else 0
    ensures PersistentMap.TotalSize(PersistentMap.OfLength(items[..n], len)) == sums[n]
  {
    hide PersistentMap.OfLength, PersistentMap.TotalSize;
    if n == 0 {
      NothingHasSize(len);
    } else {
      SizeIs(items, len, sums, n - 1);
      assert items[..n] == items[..n - 1] + [items[n - 1]];
      PersistentMap.OfLengthAppend(items[..n - 1], items[n - 1], len);
      SizeAppend(PersistentMap.OfLength(items[..n - 1], len), items[n - 1]);
    }
  }

  lemma NothingHasSize(len: nat)
    ensures PersistentMap.TotalSize(PersistentMap.OfLength([], len)) == 0
  {
  }

  lemma SizeAppend(items: seq<FnvHash.Entry>, e: FnvHash.Entry)
    ensures PersistentMap.TotalSize(items + []) == PersistentMap.TotalSize(items)
    ensures PersistentMap.TotalSize(items + [e]) == PersistentMap.TotalSize(items) + |e.key| + |e.payload|
  {
    assert items + [] == items && (items + [e])[..|items|] == items;
  }

  /** How many lengths there are: one more than the longest key has bytes. */
  lemma {:induction false} LengthsAre(items: seq<FnvHash.Entry>)
    ensures var n := PersistentMap.Lengths(items);
      && (forall e <- items :: |e.key| < n)
      && (n == 0 || exists e <- items :: |e.key| == n - 1)
  {
    if items != [] {
      var front, e := items[..|items| - 1], items[|items| - 1];
      assert items == front + [e];
      LengthsAre(front);
    }
  }

  /** The classes with a suffix and their tags, counted class by class. */
  ghost predicate Counted(m: SuffixTable.Classes, classes: seq<nat>, tags: seq<nat>) {
    && |classes| == |tags| >= 1 && classes[0] == tags[0] == 0
    && forall c :: 0 <= c < |classes| - 1 ==>
         && classes[c + 1] == classes[c] + (if c in m then 1 else 0)
         && tags[c + 1] == tags[c] + if c in m then |m[c]| else 0
  }

  lemma {:induction false} CountedOnce(m: SuffixTable.Classes, classes: seq<nat>, tags: seq<nat>, bound: nat)
    requires Counted(m, classes, tags) && bound < |classes|
    ensures |SuffixTable.Ids(m, bound)| == classes[bound]
    ensures |SuffixTable.TagsOf(m, SuffixTable.Ids(m, bound))| == tags[bound]
  {
    hide SuffixTable.TagsOf;
    if bound == 0 {
      TagsOfNone(m);
    } else {
      CountedOnce(m, classes, tags, bound - 1);
      TagsOfMore(m, bound);
    }
  }

  lemma TagsOfMore(m: SuffixTable.Classes, bound: nat)
    requires bound > 0
    ensures SuffixTable.Ids(m, bound) == SuffixTable.Ids(m, bound - 1) + if bound - 1 in m then [bound - 1] else []
    ensures SuffixTable.TagsOf(m, SuffixTable.Ids(m, bound))
         == SuffixTable.TagsOf(m, SuffixTable.Ids(m, bound - 1)) + if bound - 1 in m then m[bound - 1] else []
  {
    var front := SuffixTable.Ids(m, bound - 1);
    assert (front + [bound - 1])[..|front|] == front && front + [] == front;
  }

  lemma {:induction false} TagsListed(m: SuffixTable.Classes, bound: nat, t: nat)
    ensures t in SuffixTable.TagsOf(m, SuffixTable.Ids(m, bound)) <==> exists c <- m :: c < bound && t in m[c]
  {
    hide SuffixTable.TagsOf, SuffixTable.Ids;
    if bound == 0 {
      NoIdsBelow(m);
      TagsOfNone(m);
    } else {
      TagsListed(m, bound - 1, t);
      TagsOfMore(m, bound);
      assert (exists c <- m :: c < bound && t in m[c]) <==>
          (exists c <- m :: c < bound - 1 && t in m[c]) || (bound - 1 in m && t in m[bound - 1]);
    }
  }

  lemma NoIdsBelow(m: SuffixTable.Classes)
    ensures SuffixTable.Ids(m, 0) == []
  {
  }

  lemma TagsOfNone(m: SuffixTable.Classes)
    ensures SuffixTable.TagsOf(m, []) == []
  {
  }

  /** What is stored with a suffix fits exactly if there are at most 65536 classes in all, and less than that many with
      this suffix, less than that many tags for it, and each tag has a number less than that. */
  lemma SuffixFitsMeans(m: SuffixTable.Classes, bound: nat, classes: seq<nat>, tags: seq<nat>)
    requires Counted(m, classes, tags) && |classes| == bound + 1
    ensures SuffixTable.Fits(m, bound) <==>
      && bound <= 65536 && (forall c <- m :: c < bound) && classes[bound] < 65536 && tags[bound] < 65536
      && forall c <- m :: forall t <- m[c] :: t < 65536
  {
    hide SuffixTable.TagsOf, SuffixTable.Ids;
    CountedOnce(m, classes, tags, bound);
    var listed := SuffixTable.TagsOf(m, SuffixTable.Ids(m, bound));
    forall c, t | c in m && c < bound && t in m[c] && forall u <- listed :: u < 65536
      ensures t < 65536
    {
      TagsListed(m, bound, t);
      assert t in listed;
    }
    forall t | t in listed && forall c <- m :: forall u <- m[c] :: u < 65536
      ensures t < 65536
    {
      TagsListed(m, bound, t);
      var c :| c in m && c < bound && t in m[c];
    }
  }

  /** What fits in the fields of the file, number by number. */
  lemma WidthsMean(c: Compiled)
    ensures AllWidthsFit(c) <==>
      && |c.lemmas| < 2147483648 && |c.tags| < 65536 && (forall t <- c.tags :: |t| < 256)
      && (forall l <- c.lemmas :: |l.text| < 255 && |l.info| < 256 && |l.roots| < 256)
      && (forall l <- c.lemmas :: forall r <- l.roots :: |r.root| < 255 && r.clas < 65536)
      && |c.lists| <= 65536 && (forall s <- c.suffixes :: SuffixTable.Fits(c.suffixes[s], |c.lists|))
      && PersistentMap.HashesFit(LemmaEntries(c.lemmas, []), 2147483647)
      && PersistentMap.HashesFit(RootEntries(c.lemmas, []), 2147483647)
      && TableFits(c.suffixes, |c.lists|)
  {
    hide PersistentMap.HashesFit, TableFits, SuffixTable.Fits, LemmaEntries, RootEntries;
  }

  /** What hashes of the suffix table fit, number by number. */
  lemma SaveableMeans(items: seq<FnvHash.Entry>)
    ensures Saveable(items) <==>
      && PersistentMap.Lengths(items) < 256
      && forall len :: 0 <= len < PersistentMap.Lengths(items) ==>
           && PersistentMap.TotalSize(PersistentMap.OfLength(items, len)) <= 2147483647
           && FnvHash.Buckets(PersistentMap.Elems(len, 5 * |PersistentMap.OfLength(items, len)|)) < 4294967295
  {
    hide PersistentMap.TotalSize, PersistentMap.OfLength, FnvHash.Buckets, PersistentMap.Elems, PersistentMap.Lengths;
    forall len | 0 <= len < PersistentMap.Lengths(items)
      ensures HashFits(items, len) <==>
        && PersistentMap.TotalSize(PersistentMap.OfLength(items, len)) <= 2147483647
        && FnvHash.Buckets(PersistentMap.Elems(len, 5 * |PersistentMap.OfLength(items, len)|)) < 4294967295
    {
      assert LOAD_FACTOR * |PersistentMap.OfLength(items, len)| == 5 * |PersistentMap.OfLength(items, len)|;
    }
    if !Saveable(items) && PersistentMap.Lengths(items) < 256 {
      var len :| 0 <= len < PersistentMap.Lengths(items) && !HashFits(items, len);
      assert PersistentMap.TotalSize(PersistentMap.OfLength(items, len)) > 2147483647
        || FnvHash.Buckets(PersistentMap.Elems(len, 5 * |PersistentMap.OfLength(items, len)|)) >= 4294967295;
    }
  }
}