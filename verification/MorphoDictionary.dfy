/** The loaded dictionary and its queries (src/morpho/morpho_dictionary.h). */
module MorphoDictionary {
  import opened Bytes
  import opened Words
  import opened ClassFactoring
  import opened DictionaryCodec
  import opened DictionaryEntries
  import opened DictionaryAnswers
  import opened DictionaryFile
  import opened DictionaryForms
  import opened DictionaryLoader
  import opened FnvHash
  import MapFile
  import opened PersistentMap
  import EditScript
  import SuffixTable

  // ----- The suffix table

  /** A suffix is stored if a class uses it, or if it is a proper non-empty suffix of one that is. Each
      comes with the classes that use it. */
  ghost predicate SuffixItems(items: seq<Entry>, suffixes: Suffixes, bound: nat) {
    && (forall e <- items :: e.payload == SuffixTable.Payload(EntryOf(suffixes, e.key), bound))
    && (forall s <- suffixes :: SuffixTable.Fits(suffixes[s], bound) && HasKey(items, s))
    && SuffixTable.Fits(map[], bound)
      && (forall key, i :: HasKey(items, key) && 0 <= i < |key| ==> HasKey(items, key[i..]))
    && (forall key :: HasKey(items, key) && key == [] ==> key in suffixes)
    && DistinctKeys(items)
  }

  ghost predicate HasKey(items: seq<Entry>, key: Key) {
    exists e <- items :: e.key == key
  }

  lemma EntryFits(items: seq<Entry>, suffixes: Suffixes, bound: nat, s: Text)
    requires SuffixItems(items, suffixes, bound)
    ensures SuffixTable.Fits(EntryOf(suffixes, s), bound)
  {
  }

  /** The last `n` bytes of a form. */
  function Tail(form: Text, n: nat): (r: Text)
    requires n <= |form|
    ensures |r| == n
  {
    form[|form| - n..]
  }

  ghost predicate StoredTails(items: seq<Entry>, form: Text, m: nat)
    requires m <= |form| + 1
  {
    forall n :: 0 <= n < m ==> HasKey(items, Tail(form, n))
  }

  /** The search covers all suffixes that classes use, provided the empty suffix is one of them. */
  ghost predicate SearchedEnough(c: Compiled, form: Text, m: nat) {
    if [] in c.suffixes then m > 0 && forall n :: m <= n <= |form| ==> Tail(form, n) !in c.suffixes else m == 0
  }

  lemma NoTails(items: seq<Entry>, form: Text)
    ensures StoredTails(items, form, 0)
  {
  }

  lemma SuffixSizes(items: seq<Entry>, suffixes: Suffixes, bound: nat)
    requires SuffixItems(items, suffixes, bound)
    ensures forall e <- items :: e.Bytes() != [] && Delimits(SuffixTable.Size, e.payload)
  {
    hide SuffixTable.Size, SuffixTable.Payload, SuffixTable.Fits;
    forall e | e in items
      ensures e.Bytes() != [] && Delimits(SuffixTable.Size, e.payload)
    {
      EntryFits(items, suffixes, bound, e.key);
      SuffixTable.SizeDelimits(EntryOf(suffixes, e.key), bound);
    }
  }

  // ----- What the entries of roots and lemmas say

  /** A reader of roots skips class, place and length. */
  function RootSize(data: seq<Byte>): nat {
    7
  }

  /** A reader of lemmas skips the information and the references to roots. */
  function LemmaSize(data: seq<Byte>): nat {
    if |data| == 0 then 0 else
      var info: nat := data[0];
      if |data| < info + 2 then 0 else
        var roots: nat := data[info + 1];
        info + 2 + 7 * roots
  }

  lemma LemmaSizeDelimits(l: Lemma, places: seq<nat>, base: nat)
    requires LemmaFits(l)
    ensures Delimits(LemmaSize, LemmaEntry(l, places, base).payload) && LemmaEntry(l, places, base).payload != []
  {
    hide Refs;
    var payload := LemmaEntry(l, places, base).payload;
    assert Header(l)[0] == |l.info| && Header(l)[|l.info| + 1] == |l.roots|;
    forall rest: seq<Byte>
      ensures LemmaSize(payload + rest) == |payload|
    {
      var data := payload + rest;
      assert data[0] == |l.info| && data[data[0] + 1] == |l.roots|;
    }
  }

  /** The parts of a root entry, read where it is stored. */
  lemma ReadRootEntry(data: seq<Byte>, p: nat, r: RootRef, place: nat, textLen: nat)
    requires p <= |data| && RootEntry(r, place, textLen).Bytes() <= data[p..]
    requires r.clas < 0x1_0000 && place < 0x1_0000_0000 && textLen < 0x100
    ensures p + |r.root| + 7 <= |data| && data[p..p + |r.root|] == r.root
    ensures Word(data, p + |r.root|) == r.clas && Quad(data, p + |r.root| + 2) == place
    ensures data[p + |r.root| + 6] == textLen
  {
    hide Word, Quad, Le2, Le4, RootEntry;
    RootEntryBytes(r, place, textLen);
    var q, last := p + |r.root|, [textLen % 0x100];
    EditScript.Consume(data, p, r.root, Le2(r.clas) + (Le4(place) + last));
    EditScript.Consume(data, q, Le2(r.clas), Le4(place) + last);
    EditScript.Consume(data, q + 2, Le4(place), last);
    assert last + [] == last;
    EditScript.Consume(data, q + 6, last, []);
    WordOfLe2(data, q, r.clas);
    QuadOfLe4(data, q + 2, place);
  }

  lemma RootEntryBytes(r: RootRef, place: nat, textLen: nat)
    ensures RootEntry(r, place, textLen).Bytes() == r.root + (Le2(r.clas) + (Le4(place) + [textLen % 0x100]))
  {
    hide Le2, Le4;
  }

  /** The parts of a lemma entry, read where it is stored. */
  lemma ReadLemmaEntry(data: seq<Byte>, p: nat, l: Lemma, places: seq<nat>, base: nat)
    requires p <= |data| && LemmaEntry(l, places, base).Bytes() <= data[p..] && LemmaFits(l)
    ensures var q := p + |l.text|;
      var refs := q + 1 + |l.info| + 1;
      && refs + 7 * |l.roots| <= |data| && data[p..q] == l.text && data[q] == |l.info|
        && data[q + 1..q + 1 + |l.info|] == l.info
      && data[q + 1 + |l.info|] == |l.roots|
      && data[refs..refs + 7 * |l.roots|] == Refs(l.roots, places, base)
  {
    hide Refs, Header, LemmaEntry, LemmaFits;
    var q, header, refs := p + |l.text|, Header(l), Refs(l.roots, places, base);
    HeaderLength(l);
    LemmaEntryBytes(l, places, base);
    ThreeParts(data, p, l.text, header, refs);
    HeaderAt(data, q, l);
  }

  lemma ThreeParts(data: seq<Byte>, p: nat, a: seq<Byte>, b: seq<Byte>, c: seq<Byte>)
    requires p <= |data| && a + (b + c) <= data[p..]
    ensures var q, r := p + |a|, p + |a| + |b|;
      r + |c| <= |data| && data[p..q] == a && data[q..r] == b && data[r..r + |c|] == c
  {
    EditScript.Consume(data, p, a, b + c);
    EditScript.Consume(data, p + |a|, b, c);
    assert c + [] == c;
    EditScript.Consume(data, p + |a| + |b|, c, []);
  }

  lemma LemmaEntryBytes(l: Lemma, places: seq<nat>, base: nat)
    ensures LemmaEntry(l, places, base).Bytes() == l.text + (Header(l) + Refs(l.roots, places, base))
  {
  }

  lemma SliceOfSlice(data: seq<Byte>, q: nat, n: nat, from: nat, to: nat)
    requires q + n <= |data| && from <= to <= n
    ensures data[q..q + n][from..to] == data[q + from..q + to]
  {
    var window := data[q..q + n];
    forall i | 0 <= i < to - from
      ensures window[from..to][i] == data[q + from..q + to][i]
    {
      assert window[from..to][i] == window[from + i] == data[q + (from + i)];
    }
  }

  lemma HeaderAt(data: seq<Byte>, q: nat, l: Lemma)
    requires q + |Header(l)| <= |data| && data[q..q + |Header(l)|] == Header(l) && LemmaFits(l)
    ensures data[q] == |l.info| && data[q + 1..q + 1 + |l.info|] == l.info && data[q + 1 + |l.info|] == |l.roots|
  {
    var window := data[q..q + |Header(l)|];
    assert |Header(l)| == 2 + |l.info| && Header(l)[1..1 + |l.info|] == l.info;
    assert window[0] == data[q + 0] && window[1 + |l.info|] == data[q + (1 + |l.info|)];
    SliceOfSlice(data, q, |Header(l)|, 1, 1 + |l.info|);
  }

  lemma {:induction false} FlatAt(lemmas: seq<Lemma>, k: nat, i: nat)
    requires k < |lemmas| && i < |lemmas[k].roots|
    ensures |Flat(lemmas)| == RootCount(lemmas) && RootCount(lemmas[..k]) + i < |Flat(lemmas)|
    ensures Flat(lemmas)[RootCount(lemmas[..k]) + i] == Owned(lemmas[k], lemmas[k].roots[i])
  {
    var n := |lemmas| - 1;
    FlatLength(lemmas);
    FlatLength(lemmas[..n]);
    if k < n {
      FlatAt(lemmas[..n], k, i);
      assert lemmas[..n][..k] == lemmas[..k];
    }
  }

  lemma {:induction false} FlatLength(lemmas: seq<Lemma>)
    ensures |Flat(lemmas)| == RootCount(lemmas)
  {
    if lemmas != [] { FlatLength(lemmas[..|lemmas| - 1]); }
  }

  /** The roots behind given numbers contribute their analyses. */
  function AnswersFor(c: Compiled, os: seq<Owned>, js: seq<nat>, form: Text, format: Text -> Text): seq<Tagged> {
    if js == [] then []
    else
      var j := js[|js| - 1];
      AnswersFor(c, os, js[..|js| - 1], form, format)
      + if j < |os| then RootAnswer(c, os[j].owner, os[j].root, form, format) else []
  }

  lemma AnswersForAppend(c: Compiled, os: seq<Owned>, js: seq<nat>, j: nat, form: Text, format: Text -> Text)
    requires j < |os|
    ensures AnswersFor(c, os, js + [j], form, format) ==
            AnswersFor(c, os, js, form, format) + RootAnswer(c, os[j].owner, os[j].root, form, format)
  {
    assert (js + [j])[..|js|] == js;
  }

  lemma {:induction false} AnswersForPrefix(c: Compiled, os: seq<Owned>, n: nat, js: seq<nat>, form: Text,
                                            format: Text -> Text)
    requires n <= |os| && forall t :: 0 <= t < |js| ==> js[t] < n
    ensures AnswersFor(c, os, js, form, format) == AnswersFor(c, os[..n], js, form, format)
  {
    hide RootAnswer;
    if js != [] {
      AnswersForPrefix(c, os, n, js[..|js| - 1], form, format);
    }
  }

  /** The roots that equal a prefix of the form are the only ones of that length that contribute. */
  lemma {:induction false} KeyAnswers(c: Compiled, items: seq<Entry>, os: seq<Owned>, len: nat, form: Text,
                                      format: Text -> Text)
    requires len <= |form| && |items| == |os| && forall j :: 0 <= j < |os| ==> items[j].key == os[j].root.root
    ensures AnswersFor(c, os, KeyIndices(items, form[..len]), form, format) ==
      ByLength(c, os, len, len + 1, form, format)
  {
    hide KeyIndices, RootAnswer, AnswersFor, ByLength;
    var key := form[..len];
    if os == [] {
      NoKeys(items, key);
      NoAnswers(c, len, form, format);
    } else {
      var n := |os| - 1;
      KeyAnswers(c, items[..n], os[..n], len, form, format);
      LastKey(items, key);
      ByLengthLast(c, os, len, len + 1, form, format);
      var front := KeyIndices(items[..n], key);
      assert forall t :: 0 <= t < |front| ==> front[t] in front;
      AnswersForPrefix(c, os, n, front, form, format);
      AnswersForAppend(c, os, front, n, form, format);
      NoAnswer(c, os[n], len, form, format);
    }
  }

  lemma NoAnswers(c: Compiled, len: nat, form: Text, format: Text -> Text)
    ensures AnswersFor(c, [], [], form, format) == [] && ByLength(c, [], len, len + 1, form, format) == []
  {
  }

  lemma ByLengthLast(c: Compiled, os: seq<Owned>, from: int, to: int, form: Text, format: Text -> Text)
    requires os != []
    ensures var n := |os| - 1;
      ByLength(c, os, from, to, form, format) ==
      ByLength(c, os[..n], from, to, form, format)
      + if from <= |os[n].root.root| < to then RootAnswer(c, os[n].owner, os[n].root, form, format) else []
  {
  }

  lemma NoKeys(items: seq<Entry>, key: Key)
    requires items == []
    ensures KeyIndices(items, key) == []
  {
  }

  lemma LastKey(items: seq<Entry>, key: Key)
    requires items != []
    ensures var n := |items| - 1;
      KeyIndices(items, key) == if items[n].key == key then KeyIndices(items[..n], key) + [n]
        else KeyIndices(items[..n], key)
  {
  }

  lemma NoAnswer(c: Compiled, o: Owned, len: nat, form: Text, format: Text -> Text)
    requires len <= |form|
    ensures |o.root.root| == len && o.root.root != form[..len] ==> RootAnswer(c, o.owner, o.root, form, format) == []
  {
  }

  // ----- The dictionary

  class Dictionary {
    var lemmas: PersistentMap.Map
    var roots: PersistentMap.Map
    var suffixes: PersistentMap.Map
    var tags: seq<Text>
    var classes: seq<seq<SuffixTags>>

    constructor ()
      ensures fresh(lemmas) && fresh(roots) && fresh(suffixes) && lemmas != roots && suffixes != lemmas
      ensures suffixes != roots
      ensures lemmas.hashes == [] && roots.hashes == [] && suffixes.hashes == [] && tags == [] && classes == []
    {
      lemmas := new PersistentMap.Map();
      roots := new PersistentMap.Map();
      suffixes := new PersistentMap.Map();
      tags, classes := [], [];
    }

    /** The hashes store the compiled tables, and every place fits in four bytes. */
    ghost predicate Loaded(c: Compiled, items: seq<Entry>)
      reads `lemmas, `roots, `suffixes, `tags, lemmas, lemmas.hashes, roots, roots.hashes, suffixes, suffixes.hashes
    {
      && AllFit(c.lemmas) && TablesOk(c) && tags == c.tags
      && lemmas.Holds(LemmaEntries(c.lemmas, RootPlaces(c))) && roots.Holds(RootEntries(c.lemmas, LemmaPlaces(c)))
      && suffixes.Holds(items) && SuffixItems(items, c.suffixes, |c.lists|)
      && (forall i :: 0 <= i < |lemmas.hashes| ==> |lemmas.hashes[i].data| <= 0x1_0000_0000)
      && (forall i :: 0 <= i < |roots.hashes| ==> |roots.hashes[i].data| <= 0x1_0000_0000)
    }

    ghost function LemmaPlaces(c: Compiled): seq<nat>
      reads `lemmas, lemmas
    {
      lemmas.Places(LemmaEntries(c.lemmas, []))
    }

    ghost function RootPlaces(c: Compiled): seq<nat>
      reads `roots, roots
    {
      roots.Places(RootEntries(c.lemmas, []))
    }

    /** Where lemma `k` is stored, and how. */
    lemma LemmaStored(c: Compiled, items: seq<Entry>, k: nat)
      requires Loaded(c, items) && k < |c.lemmas|
      ensures LemmaFits(c.lemmas[k]) && |c.lemmas[k].text| < |lemmas.hashes|
      ensures var p, data := PlaceOf(LemmaPlaces(c), k), lemmas.hashes[|c.lemmas[k].text|].data;
        p < |data| && p < 0x1_0000_0000
          && LemmaEntry(c.lemmas[k], RootPlaces(c), RootCount(c.lemmas[..k])).Bytes() <= data[p..]
    {
      hide LemmaEntry, RootEntries, Map.Holds, Map.Place, SuffixItems, TablesOk, LemmaFits, EqualSlots;
      var shapes, entries := LemmaEntries(c.lemmas, []), LemmaEntries(c.lemmas, RootPlaces(c));
      assert EqualSlots(shapes, entries) by { LemmaShapes(c.lemmas, RootPlaces(c)); }
      assert c.lemmas[k] in c.lemmas;
      assert entries[k] == LemmaEntry(c.lemmas[k], RootPlaces(c), RootCount(c.lemmas[..k]));
      assert entries[k].ToSlot() == LemmaSlot(c.lemmas[k]);
      PlacedWithin(lemmas, shapes, entries, k, entries[k]);
    }

    /** Where the `i`-th root of lemma `k` is stored. */
    lemma RootStored(c: Compiled, items: seq<Entry>, k: nat, i: nat)
      requires Loaded(c, items) && k < |c.lemmas| && i < |c.lemmas[k].roots|
      ensures |c.lemmas[k].roots[i].root| < |roots.hashes|
      ensures var p, r := PlaceOf(RootPlaces(c), RootCount(c.lemmas[..k]) + i), c.lemmas[k].roots[i];
        var data := roots.hashes[|r.root|].data;
        p < |data| && p < 0x1_0000_0000
          && RootEntry(r, PlaceOf(LemmaPlaces(c), k), |c.lemmas[k].text|).Bytes() <= data[p..]
    {
      hide LemmaEntries, RootEntries, RootEntry, RootCount, Map.Holds, Map.Place, Map.Places, SuffixItems, TablesOk,
        AllFit, EqualSlots, PlaceOf;
      var shapes, entries, j := RootEntries(c.lemmas, []), RootEntries(c.lemmas, LemmaPlaces(c)),
        RootCount(c.lemmas[..k]) + i;
      RootShapes(c.lemmas, LemmaPlaces(c));
      RootEntryAt(c.lemmas, LemmaPlaces(c), k, i);
      var e := RootEntry(c.lemmas[k].roots[i], PlaceOf(LemmaPlaces(c), k), |c.lemmas[k].text|);
      assert e.ToSlot() == RootSlot(c.lemmas[k].roots[i]);
      PlacedWithin(roots, shapes, entries, j, e);
    }

    // ----- Analysis

    /** The entry of the suffix that consists of the last `n` bytes of the form. */
    ghost predicate SuffixAt(c: Compiled, form: Text, n: nat, position: nat)
      reads `suffixes, suffixes, suffixes.hashes
    {
      && n <= |form| && n < |suffixes.hashes| && position <= |suffixes.hashes[n].data|
      && SuffixTable.Payload(EntryOf(c.suffixes, Tail(form, n)), |c.lists|) <= suffixes.hashes[n].data[position..]
    }

    ghost predicate SuffixesAt(c: Compiled, form: Text, suff: seq<nat>)
      reads `suffixes, suffixes, suffixes.hashes
    {
      forall n :: 0 <= n < |suff| ==> SuffixAt(c, form, n, suff[n])
    }

    /** Looks up longer and longer suffixes until one is missing. When the empty suffix is stored, no
        longer suffix is used by any class. */
    method FindSuffixes(form: Text, ghost c: Compiled, ghost items: seq<Entry>) returns (suff: seq<nat>)
      requires Loaded(c, items)
      ensures |suff| <= |form| + 1 && SuffixesAt(c, form, suff) && SearchedEnough(c, form, |suff|)
    {
      hide Dictionary.SuffixAt, SuffixTable.Size, Map.Readable, StoredTails, SearchedEnough, SuffixItems,
        Dictionary.Loaded;
      suff := [];
      SuffixesReadable(c, items);
      NoTails(items, form);
      while |suff| <= |form| && |suff| < |suffixes.hashes|
        invariant |suff| <= |form| + 1 && SuffixesAt(c, form, suff) && StoredTails(items, form, |suff|)
        decreases |form| + 1 - |suff|
      {
        var r, k := suffixes.At(Tail(form, |suff|), SuffixTable.Size, items);
        if r.None? {
          SuffixMissing(c, items, form, |suff|);
          return;
        }
        SuffixFound(c, items, form, |suff|, r.value, items[k]);
        suff := suff + [r.value];
      }
      SuffixesExhausted(c, items, form, |suff|);
    }

    lemma SuffixesReadable(c: Compiled, items: seq<Entry>)
      requires Loaded(c, items)
      ensures suffixes.Readable(items, SuffixTable.Size) && PersistentMap.NoneEmpty(items)
      ensures SuffixItems(items, c.suffixes, |c.lists|)
    {
      hide SuffixItems, SuffixTable.Size, Map.Holds;
      SuffixSizes(items, c.suffixes, |c.lists|);
    }

    lemma SuffixFound(c: Compiled, items: seq<Entry>, form: Text, n: nat, position: nat, e: Entry)
      requires SuffixItems(items, c.suffixes, |c.lists|) && n <= |form| && e in items && e.key == Tail(form, n)
      requires StoredTails(items, form, n)
      requires n < |suffixes.hashes| && position <= |suffixes.hashes[n].data|
      requires e.payload <= suffixes.hashes[n].data[position..]
      ensures SuffixAt(c, form, n, position) && StoredTails(items, form, n + 1)
    {
    }

    lemma SuffixMissing(c: Compiled, items: seq<Entry>, form: Text, m: nat)
      requires SuffixItems(items, c.suffixes, |c.lists|) && m <= |form| && StoredTails(items, form, m)
      requires forall i <- items :: i.key != Tail(form, m)
      ensures SearchedEnough(c, form, m)
    {
      assert Tail(form, 0) == [];
      forall n | m <= n <= |form| && m > 0
        ensures Tail(form, n) !in c.suffixes
      {
        assert Tail(form, n)[n - m..] == Tail(form, m);
      }
    }

    lemma SuffixesExhausted(c: Compiled, items: seq<Entry>, form: Text, m: nat)
      requires SuffixItems(items, c.suffixes, |c.lists|) && suffixes.Readable(items, SuffixTable.Size)
      requires m <= |form| + 1 && (m == |form| + 1 || m >= |suffixes.hashes|) && StoredTails(items, form, m)
      ensures SearchedEnough(c, form, m)
    {
      assert Tail(form, 0) == [];
    }

    /** The `j`-th root: its entry, where its lemma is, and what both say. */
    lemma RootFacts(c: Compiled, items: seq<Entry>, j: nat, len: nat, position: nat)
      returns (l: Lemma, r: RootRef, place: nat)
      requires Loaded(c, items) && j < RootCount(c.lemmas) && len < |roots.hashes|
      requires position <= |roots.hashes[len].data|
      requires var e := RootEntries(c.lemmas, LemmaPlaces(c))[j];
        |e.key| == len && e.Bytes() <= roots.hashes[len].data[position..]
      ensures j < |Flat(c.lemmas)| && Flat(c.lemmas)[j] == Owned(l, r)
      ensures RootEntries(c.lemmas, LemmaPlaces(c))[j].key == r.root && r.clas < |c.lists| && |l.text| < |lemmas.hashes|
      ensures var data, q := roots.hashes[len].data, position + len;
        && q + 7 <= |data| && data[position..q] == r.root
        && Word(data, q) == r.clas && Quad(data, q + 2) == place && data[q + 6] == |l.text|
      ensures var data, q := lemmas.hashes[|l.text|].data, place + |l.text|;
        && q < |data| && data[place..q] == l.text && data[q] == |l.info| && q + 1 + |l.info| <= |data|
        && data[q + 1..q + 1 + |l.info|] == l.info
    {
      hide Word, Quad, Le2, Le4, RootEntry, LemmaEntry, RootEntries, Header, Refs, Map.Holds, SuffixItems,
        LemmaEntries, Dictionary.LemmaPlaces, Dictionary.RootPlaces;
      ghost var k, i := RootOwner(c.lemmas, LemmaPlaces(c), j);
      l, r, place := c.lemmas[k], c.lemmas[k].roots[i], PlaceOf(LemmaPlaces(c), k);
      FlatAt(c.lemmas, k, i);
      RootWithin(c, items, k, i);
      RootEntryBytes(r, place, |l.text|);
      assert RootEntry(r, place, |l.text|).ToSlot() == RootSlot(r);
      LemmaStored(c, items, k);
      ReadRootEntry(roots.hashes[len].data, position, r, place, |l.text|);
      ReadLemmaEntry(lemmas.hashes[|l.text|].data, place, l, RootPlaces(c), RootCount(c.lemmas[..k]));
    }

    lemma RootWithin(c: Compiled, items: seq<Entry>, k: nat, i: nat)
      requires Loaded(c, items) && k < |c.lemmas| && i < |c.lemmas[k].roots|
      ensures LemmaFits(c.lemmas[k]) && RootFits(c.lemmas[k].roots[i]) && c.lemmas[k].roots[i].clas < |c.lists|
    {
      assert c.lemmas[k] in c.lemmas && c.lemmas[k].roots[i] in c.lemmas[k].roots && ClassesKnown(c.lemmas[k], c.lists);
    }

    /** The analyses that one root gives with the suffix after it. */
    method AnswerRoot(form: Text, rootLen: nat, position: nat, suffixPosition: nat, format: Text -> Text,
                      ghost c: Compiled, ghost items: seq<Entry>, ghost j: nat)
      returns (more: seq<Tagged>)
      requires Loaded(c, items) && rootLen <= |form| && rootLen < |roots.hashes|
      requires SuffixAt(c, form, |form| - rootLen, suffixPosition)
      requires j < RootCount(c.lemmas) && position <= |roots.hashes[rootLen].data|
      requires RootEntries(c.lemmas, LemmaPlaces(c))[j].key == form[..rootLen]
      requires RootEntries(c.lemmas, LemmaPlaces(c))[j].Bytes() <= roots.hashes[rootLen].data[position..]
      ensures j < |Flat(c.lemmas)|
      ensures more == RootAnswer(c, Flat(c.lemmas)[j].owner, Flat(c.lemmas)[j].root, form, format)
    {
      hide Word, Quad, RootEntries, LemmaEntries, Map.Holds, SuffixItems, SuffixTable.Payload, SuffixTable.Fits,
        EntryOf, Dictionary.Loaded, Named, Stored, Flat, RootCount;
      ghost var l, r, at := RootFacts(c, items, j, rootLen, position);
      var data := roots.hashes[rootLen].data;
      var clas, place, len := Word(data, position + rootLen), Quad(data, position + rootLen + 2),
        data[position + rootLen + 6];
      var lemmaData := lemmas.hashes[len].data;
      var name := lemmaData[place..place + len];
      if lemmaData[place + len] != 0 {
        name := name + format(lemmaData[place + len + 1..place + len + 1 + lemmaData[place + len]]);
      }
      assert name == Printed(l, format);
      more := TagsOfRoot(form, rootLen, clas, suffixPosition, name, c, items);
    }

    /** The tags that a class has for the suffix after the root. */
    method TagsOfRoot(form: Text, rootLen: nat, clas: nat, suffixPosition: nat, name: Text, ghost c: Compiled,
                      ghost items: seq<Entry>)
      returns (more: seq<Tagged>)
      requires Loaded(c, items) && rootLen <= |form| && clas < |c.lists|
      requires SuffixAt(c, form, |form| - rootLen, suffixPosition)
      ensures more == Named(Stored(c.suffixes, form[rootLen..], clas), c.tags, name)
    {
      hide Map.Holds, SuffixItems, SuffixTable.Payload, SuffixTable.Fits, SuffixTable.WordsAt, Named, TablesOk,
        EntryOf, Stored;
      ghost var suffix := Tail(form, |form| - rootLen);
      EntryFits(items, c.suffixes, |c.lists|, suffix);
      TagsForStored(c.suffixes, suffix, clas);
      TagNumbers(c, suffix, clas);
      var data := suffixes.hashes[|form| - rootLen].data;
      var from, to := SuffixTable.FindTags(data, suffixPosition, clas, EntryOf(c.suffixes, suffix), |c.lists|);
      more := CollectTags(data, from, to, name, tags, Stored(c.suffixes, suffix, clas));
    }

    lemma RootsReadable(c: Compiled, items: seq<Entry>)
      requires Loaded(c, items)
      ensures roots.Readable(RootEntries(c.lemmas, LemmaPlaces(c)), RootSize)
      ensures PersistentMap.NoneEmpty(RootEntries(c.lemmas, LemmaPlaces(c)))
      ensures |Flat(c.lemmas)| == RootCount(c.lemmas)
      ensures forall j :: 0 <= j < RootCount(c.lemmas) ==>
        RootEntries(c.lemmas, LemmaPlaces(c))[j].key == Flat(c.lemmas)[j].root.root
    {
      hide RootEntries, RootEntry, LemmaEntries, Map.Holds, SuffixItems, TablesOk, AllFit, Flat, RootCount,
        Dictionary.LemmaPlaces;
      var entries := RootEntries(c.lemmas, LemmaPlaces(c));
      FlatLength(c.lemmas);
      forall j | 0 <= j < |entries|
        ensures entries[j].key == Flat(c.lemmas)[j].root.root && |entries[j].payload| == 7 && |entries[j].Bytes()| > 0
      {
        var k, i := RootOwner(c.lemmas, LemmaPlaces(c), j);
        FlatAt(c.lemmas, k, i);
        assert entries[j].ToSlot() == RootSlot(c.lemmas[k].roots[i]);
      }
    }

    /** The analyses of one split of the form: every root equal to its first part. */
    method ScanRoots(form: Text, rootLen: nat, suffixPosition: nat, format: Text -> Text, ghost c: Compiled,
                     ghost items: seq<Entry>)
      returns (more: seq<Tagged>)
      requires Loaded(c, items) && rootLen <= |form| && rootLen < |roots.hashes|
      requires SuffixAt(c, form, |form| - rootLen, suffixPosition)
      ensures more == ByLength(c, Flat(c.lemmas), rootLen, rootLen + 1, form, format)
    {
      hide Dictionary.Loaded, Dictionary.SuffixAt, Map.Readable, RootEntries, RootCount, Flat, Matching, KeyIndices,
        RootAnswer, ByLength, Found, PersistentMap.NoneEmpty;
      ghost var entries := RootEntries(c.lemmas, LemmaPlaces(c));
      ghost var flat := Flat(c.lemmas);
      ghost var visited;
      RootsReadable(c, items);
      AllFound(entries, form[..rootLen]);
      var positions;
      positions, visited := roots.Iter(form[..rootLen], RootSize, entries);
      more := [];
      NoMatches(c, entries, form, format);
      for i := 0 to |positions|
        invariant more == AnswersFor(c, flat, Matching(entries, visited[..i], form[..rootLen]), form, format)
      {
        ghost var j := visited[i];
        var p := positions[i];
        assert visited[..i + 1] == visited[..i] + [j];
        MatchingAppend(entries, visited[..i], j, form[..rootLen]);
        EntryKeyAt(roots.hashes[rootLen].data, p, entries[j]);
        ghost var before := Matching(entries, visited[..i], form[..rootLen]);
        assert before + [] == before;
        if roots.hashes[rootLen].data[p..p + rootLen] == form[..rootLen] {
          var answers := AnswerRoot(form, rootLen, p, suffixPosition, format, c, items, j);
          AnswersForAppend(c, flat, before, j, form, format);
          more := more + answers;
        }
      }
      assert visited[..|positions|] == visited;
      KeyAnswers(c, entries, flat, rootLen, form, format);
    }

    /** Looks up a form: every way to split it into a stored root and a stored suffix. When the empty suffix
        is stored, the result is exactly what the dictionary says, repetitions included; otherwise it is
        empty. */
    method Analyze(form: Text, format: Text -> Text, ghost c: Compiled, ghost items: seq<Entry>)
      returns (result: seq<Tagged>)
      requires Loaded(c, items)
      ensures [] in c.suffixes ==> multiset(result) == multiset(Answers(c.lemmas, c.lists, form, format))
      ensures [] !in c.suffixes ==> result == []
    {
      hide Dictionary.Loaded, Dictionary.SuffixAt, Flat, ByLength, SearchedEnough, Answers, EntryOf,
        SuffixTable.Payload, Word;
      var suff := FindSuffixes(form, c, items);
      var suffLen := |suff| - 1;
      var rootLen := |form| - suffLen;
      ghost var from := rootLen;
      result := [];
      ByLengthEmpty(c, Flat(c.lemmas), from, form, format);
      while suffLen >= 0 && rootLen < |roots.hashes|
        invariant -1 <= suffLen < |suff| && suffLen + rootLen == |form| && from <= rootLen
        invariant rootLen > from ==> rootLen <= |roots.hashes|
        invariant multiset(result) == multiset(ByLength(c, Flat(c.lemmas), from, rootLen, form, format))
        invariant |suff| == 0 ==> result == []
        decreases suffLen + 1
      {
        ByLengthStep(c, Flat(c.lemmas), from, rootLen, form, format);
        assert SuffixAt(c, form, suffLen, suff[suffLen]);
        var used := SuffixUsed(form, suffLen, suff[suffLen], c, items);
        if used {
          var more := ScanRoots(form, rootLen, suff[suffLen], format, c, items);
          result := result + more;
        } else {
          UnusedSuffix(c, Flat(c.lemmas), rootLen, form, format);
        }
        suffLen, rootLen := suffLen - 1, rootLen + 1;
      }
      if [] in c.suffixes {
        RangeCovers(c, items, form, format, |suff|, rootLen);
        FlatAnswers(c, items, from, rootLen, form, format);
      } else {
        NothingSearched(c, form, |suff|);
      }
    }

    /** Whether any class uses the suffix. */
    method SuffixUsed(form: Text, n: nat, position: nat, ghost c: Compiled, ghost items: seq<Entry>)
      returns (used: bool)
      requires Loaded(c, items) && SuffixAt(c, form, n, position)
      ensures !used ==> EntryOf(c.suffixes, Tail(form, n)) == map[]
    {
      hide Map.Holds, SuffixItems, SuffixTable.Payload, SuffixTable.Fits, TablesOk, Word;
      var data := suffixes.hashes[n].data;
      ghost var m := EntryOf(c.suffixes, Tail(form, n));
      EntryFits(items, c.suffixes, |c.lists|, Tail(form, n));
      SuffixTable.ReadLayout(data, position, m, |c.lists|);
      used := Word(data, position) > 0;
      if !used {
        NoClasses(m, |c.lists|);
      }
    }

    lemma FlatAnswers(c: Compiled, items: seq<Entry>, from: int, to: int, form: Text, format: Text -> Text)
      requires Loaded(c, items) && Covers(c, Flat(c.lemmas), from, to, form, format)
      ensures ByLength(c, Flat(c.lemmas), from, to, form, format) == Answers(c.lemmas, c.lists, form, format)
    {
      ByLengthAnswers(c, c.lemmas, from, to, form, format);
    }

    /** The splits tried are the only ones that can give an analysis. */
    lemma RangeCovers(c: Compiled, items: seq<Entry>, form: Text, format: Text -> Text, m: nat, to: int)
      requires Loaded(c, items) && SearchedEnough(c, form, m) && [] in c.suffixes && m <= |form| + 1
      requires to == |form| + 1 || to >= |roots.hashes|
      ensures Covers(c, Flat(c.lemmas), |form| - m + 1, to, form, format)
    {
      hide Dictionary.Loaded, Flat, RootCount;
      var from, flat := |form| - m + 1, Flat(c.lemmas);
      forall o | o in flat && !(from <= |o.root.root| < to)
        ensures RootAnswer(c, o.owner, o.root, form, format) == []
      {
        RootShort(c, items, o);
        if o.root.root <= form && |o.root.root| < from {
          assert form[|o.root.root|..] == Tail(form, |form| - |o.root.root|);
        }
      }
    }

    lemma RootShort(c: Compiled, items: seq<Entry>, o: Owned)
      requires Loaded(c, items) && o in Flat(c.lemmas)
      ensures |o.root.root| < |roots.hashes|
    {
      hide Dictionary.Loaded, Flat, RootCount, RootEntries;
      RootsReadable(c, items);
      var j :| 0 <= j < |Flat(c.lemmas)| && Flat(c.lemmas)[j] == o;
      var entries := RootEntries(c.lemmas, LemmaPlaces(c));
      assert entries[j] in entries;
    }

    // ----- Loading

    /** Reads the stream of a dictionary. Whatever was encoded is what the loaded dictionary holds. */
    method Load(data: seq<Byte>, ghost lemmaSizes: seq<nat>, ghost rootSizes: seq<nat>,
                ghost images: seq<MapFile.Image>,
                ghost c: Compiled, ghost items: seq<Entry>)
      requires lemmas != roots && suffixes != lemmas && suffixes != roots
      requires lemmas.hashes == [] && roots.hashes == [] && classes == []
      requires FileFits(lemmaSizes, rootSizes, c.lemmas, c.tags) && MapFile.AllFit(images) && |images| < 0x100
      requires data == FileBytes(lemmaSizes, rootSizes, c.lemmas, c.tags) + MapFile.MapBytes(images)
      requires forall l <- c.lemmas :: LengthsOk(l, |lemmaSizes|, |rootSizes|)
      requires |c.lemmas| < 0x8000_0000 && PlacesFit(c.lemmas) && TablesOk(c)
      requires MapFile.Hold(images, items) && SuffixItems(items, c.suffixes, |c.lists|)
      modifies this, lemmas, roots, suffixes
      ensures Loaded(c, items) && ClassesLoaded(c)
    {
      hide HistogramBytes, LemmasBytes, TagsBytes, Le2, Le4, Word, SuffixItems, TablesOk, Map.Holds, LengthsOk,
        Complete, Separate, PlacesFit, Map.AllAdding, AllFit, LemmaFits, Dictionary.Loaded, Dictionary.ClassesLoaded,
        MapFile.AllFit, MapFile.Hold, MapFile.MapBytes, MapFile.Images;
      ghost var saved := MapFile.MapBytes(images);
      ghost var afterTags := TagsBytes(c.tags) + saved;
      ghost var afterLemmas := Le2(|c.tags|) + afterTags;
      ghost var afterSizes := Le4(|c.lemmas|) + (LemmasBytes([], c.lemmas) + afterLemmas);
      assert AllFit(c.lemmas) by { FileLemmasFit(lemmaSizes, rootSizes, c); }
      FileParts(lemmaSizes, rootSizes, c.lemmas, c.tags, saved);
      var next := LoadAllLengths(data, lemmaSizes, rootSizes, afterSizes);
      next := LoadLemmas(lemmas, roots, data, next, c.lemmas, afterLemmas);
      EditScript.Consume(data, next, Le2(|c.tags|), afterTags);
      WordOfLe2(data, next, |c.tags|);
      tags, next := ReadTags(data, next + 2, Word(data, next), c.tags, saved);
      assert saved + [] == saved;
      next := MapFile.Load(suffixes, data, next, images, items, []);
      NowLoaded(c, items);
      LoadClasses(c, items);
    }

    /** Announces the lengths of lemmas and roots. */
    method LoadAllLengths(data: seq<Byte>, ghost lemmaSizes: seq<nat>, ghost rootSizes: seq<nat>, ghost tail: seq<Byte>)
      returns (next: nat)
      requires lemmas != roots && lemmas.hashes == [] && roots.hashes == [] && |lemmaSizes| < 0x100
      requires |rootSizes| < 0x100
      requires HistogramBytes(lemmaSizes) + (HistogramBytes(rootSizes) + tail) <= data
      modifies lemmas, roots
      ensures Separate(lemmas, roots) && lemmas.AllAdding([]) && roots.AllAdding([])
      ensures |lemmas.hashes| == |lemmaSizes| && |roots.hashes| == |rootSizes|
      ensures forall i :: 0 <= i < |lemmas.hashes| ==> fresh(lemmas.hashes[i])
      ensures forall i :: 0 <= i < |roots.hashes| ==> fresh(roots.hashes[i])
      ensures next <= |data| && tail <= data[next..]
    {
      hide HistogramBytes, Map.AllAdding;
      assert data[0..] == data;
      next := LoadLengths(lemmas, data, 0, lemmaSizes, HistogramBytes(rootSizes) + tail);
      next := LoadLengths(roots, data, next, rootSizes, tail);
    }

    lemma NowLoaded(c: Compiled, items: seq<Entry>)
      requires Complete(lemmas, roots, c.lemmas) && AllFit(c.lemmas) && TablesOk(c) && tags == c.tags
      requires PlacesFit(c.lemmas)
      requires suffixes.Holds(items) && SuffixItems(items, c.suffixes, |c.lists|)
      ensures Loaded(c, items)
    {
      hide Map.Holds, SuffixItems, TablesOk, LemmaEntries, RootEntries, PersistentMap.HashesFit;
      forall i | 0 <= i < |lemmas.hashes|
        ensures |lemmas.hashes[i].data| <= 0x1_0000_0000
      {
        LemmaShapes(c.lemmas, RootPlaces(c));
        lemmas.HashBound(LemmaEntries(c.lemmas, []), LemmaEntries(c.lemmas, RootPlaces(c)), i, MAX_DATA);
      }
      forall i | 0 <= i < |roots.hashes|
        ensures |roots.hashes[i].data| <= 0x1_0000_0000
      {
        RootShapes(c.lemmas, LemmaPlaces(c));
        roots.HashBound(RootEntries(c.lemmas, []), RootEntries(c.lemmas, LemmaPlaces(c)), i, MAX_DATA);
      }
    }

    // ----- Classes

    /** The classes hold the endings of the compiled lists, in some order. */
    ghost predicate ClassesLoaded(c: Compiled)
      reads `classes
    {
      forall clas: nat :: clas < |c.lists| ==> ClassLoaded(c, Row(classes, clas), clas)
    }

    /** Distributes the suffixes over the classes that use them. */
    method LoadClasses(ghost c: Compiled, ghost items: seq<Entry>)
      requires Loaded(c, items) && classes == []
      modifies `classes
      ensures Loaded(c, items) && ClassesLoaded(c)
    {
      hide Dictionary.Loaded, Map.Readable, Map.VisitedEach, OnceEach, SuffixItems, RowsSoFar, EntryOf, PartOf,
        SuffixTable.Fits, SuffixTable.Payload, PersistentMap.NoneEmpty;
      SuffixesReadable(c, items);
      var lengths, positions;
      ghost var visited;
      lengths, positions, visited := suffixes.IterAll(SuffixTable.Size, items);
      VisitedLength(items, lengths, positions, visited);
      NoKeysYet(c.suffixes, items, visited);
      for i := 0 to |positions|
        invariant RowsSoFar(c.suffixes, items, visited, i, classes)
      {
        SuffixVisited(c, items, lengths, positions, visited, i);
        ghost var key := items[visited[i]].key;
        ghost var before := classes;
        classes := AddSuffix(classes, suffixes.hashes[lengths[i]].data, positions[i], lengths[i], key,
          EntryOf(c.suffixes, key), |c.lists|);
        RowsNext(c.suffixes, items, visited, i, before, classes);
      }
      LoadedTables(c, items);
      AllRows(c, items, |suffixes.hashes|, visited, classes);
    }

    lemma LoadedTables(c: Compiled, items: seq<Entry>)
      requires Loaded(c, items)
      ensures TablesOk(c) && tags == c.tags
    {
    }

    lemma VisitedLength(items: seq<Entry>, lengths: seq<nat>, positions: seq<nat>, visited: seq<nat>)
      requires suffixes.VisitedEach(items, lengths, positions, visited)
      ensures |lengths| == |positions| == |visited| && forall i :: 0 <= i < |visited| ==> visited[i] < |items|
    {
    }

    /** What the walk finds at the `i`-th stop. */
    lemma SuffixVisited(c: Compiled, items: seq<Entry>, lengths: seq<nat>, positions: seq<nat>, visited: seq<nat>,
                        i: nat)
      requires suffixes.VisitedEach(items, lengths, positions, visited) && SuffixItems(items, c.suffixes, |c.lists|)
      requires i < |visited|
      ensures visited[i] < |items| && lengths[i] < |suffixes.hashes| && lengths[i] == |items[visited[i]].key|
      ensures var data, p, key := suffixes.hashes[lengths[i]].data, positions[i], items[visited[i]].key;
        && p + |key| <= |data| && data[p..p + |key|] == key
        && SuffixTable.Fits(EntryOf(c.suffixes, key), |c.lists|)
        && SuffixTable.Payload(EntryOf(c.suffixes, key), |c.lists|) <= data[p + |key|..]
    {
      hide SuffixTable.Fits, SuffixTable.Payload;
      var e := items[visited[i]];
      assert e in items;
      EntryFits(items, c.suffixes, |c.lists|, e.key);
      assert e.Bytes() + [] == e.key + (e.payload + []);
      EditScript.Consume(suffixes.hashes[lengths[i]].data, positions[i], e.key, e.payload);
    }

    // ----- Generation

    /** An entry met when looking up a lemma: where it is stored, and which it is. */
    ghost predicate LemmaMet(c: Compiled, q: Query, position: nat, k: nat)
      reads `lemmas, `roots, lemmas, lemmas.hashes, roots, roots.hashes
    {
      var entries := LemmaEntries(c.lemmas, RootPlaces(c));
      && k < |c.lemmas| && |c.lemmas[k].text| == |q.raw| < |lemmas.hashes| && entries[k].key == c.lemmas[k].text
      && position <= |lemmas.hashes[|q.raw|].data| && entries[k].Bytes() <= lemmas.hashes[|q.raw|].data[position..]
    }

    /** The entries met when looking up a lemma. */
    method FindLemmas(q: Query, ghost c: Compiled, ghost items: seq<Entry>)
      returns (positions: seq<nat>, ghost visited: seq<nat>)
      requires Loaded(c, items)
      ensures |positions| == |visited| && forall i :: 0 <= i < |positions| ==> LemmaMet(c, q, positions[i], visited[i])
      ensures var entries := LemmaEntries(c.lemmas, RootPlaces(c));
        Matching(entries, visited, q.raw) == KeyIndices(entries, q.raw)
      ensures forall k :: 0 <= k < |c.lemmas| ==> LemmaEntries(c.lemmas, RootPlaces(c))[k].key == c.lemmas[k].text
    {
      hide Dictionary.Loaded, Dictionary.RootPlaces, Map.Readable, LemmaEntries, Matching, KeyIndices, LemmaSize,
        Found, PersistentMap.NoneEmpty;
      ghost var entries := LemmaEntries(c.lemmas, RootPlaces(c));
      LemmasReadable(c, items);
      AllFound(entries, q.raw);
      positions, visited := lemmas.Iter(q.raw, LemmaSize, entries);
    }

    /** The forms of all lemmas that answer a query. */
    method Generate(q: Query, ghost c: Compiled, ghost items: seq<Entry>)
      returns (matched: bool, result: seq<LemmaForms>)
      requires Loaded(c, items) && ClassesLoaded(c)
      ensures Generated(c, Chosen(c.lemmas, q), q, result)
      ensures matched <==> Chosen(c.lemmas, q) != []
    {
      hide Dictionary.Loaded, Dictionary.ClassesLoaded, Dictionary.RootPlaces, LemmaEntries, Matching, KeyIndices,
        Generated, Chosen, ChosenAt, FormsAsked;
      ghost var entries := LemmaEntries(c.lemmas, RootPlaces(c));
      var positions;
      ghost var visited;
      positions, visited := FindLemmas(q, c, items);
      matched, result := false, [];
      ghost var ls: seq<Lemma> := [];
      NothingChosen(c, entries, q);
      for i := 0 to |positions|
        invariant ls == ChosenAt(c.lemmas, Matching(entries, visited[..i], q.raw), q)
        invariant Generated(c, ls, q, result) && (matched <==> ls != [])
      {
        ghost var k := visited[i];
        ChosenNext(c.lemmas, entries, visited, i, q);
        var asked, name, forms := GenerateLemma(positions[i], q, c, items, k);
        if asked {
          matched := true;
          GeneratedNext(c, ls, c.lemmas[k], q, result, forms);
          if forms != [] {
            result := result + [LemmaForms(name, forms)];
          }
          ls := ls + [c.lemmas[k]];
        }
      }
      assert visited[..|positions|] == visited;
      ChosenAtKey(c.lemmas, entries, q);
    }

    /** Whether the lemma at a position is asked for; if so, its name and accepted forms. */
    method GenerateLemma(position: nat, q: Query, ghost c: Compiled, ghost items: seq<Entry>, ghost k: nat)
      returns (asked: bool, name: Text, forms: seq<Form>)
      requires Loaded(c, items) && ClassesLoaded(c) && LemmaMet(c, q, position, k)
      ensures asked <==> c.lemmas[k].text == q.raw && Asked(c.lemmas[k], q)
      ensures asked ==>
        name == q.raw + q.format(c.lemmas[k].info) && multiset(forms) == multiset(FormsAsked(c, c.lemmas[k], q))
    {
      hide Dictionary.Loaded, Dictionary.ClassesLoaded, LemmaEntries, FormsAsked, Refs, RootCount,
        Dictionary.RootPlaces;
      LemmaAt(c, items, k, position);
      asked, name, forms := false, [], [];
      var data, p := lemmas.hashes[|q.raw|].data, position + |q.raw|;
      if data[position..p] == q.raw {
        var info := data[p + 1..p + 1 + data[p]];
        if q.matches(info) && q.generatable(info) {
          forms := GenerateRoots(data, p + 1 + data[p], q, c, items, k);
          asked, name := true, q.raw + q.format(info);
        }
      }
    }

    lemma LemmasReadable(c: Compiled, items: seq<Entry>)
      requires Loaded(c, items)
      ensures lemmas.Readable(LemmaEntries(c.lemmas, RootPlaces(c)), LemmaSize)
      ensures PersistentMap.NoneEmpty(LemmaEntries(c.lemmas, RootPlaces(c)))
      ensures forall k :: 0 <= k < |c.lemmas| ==> LemmaEntries(c.lemmas, RootPlaces(c))[k].key == c.lemmas[k].text
    {
      hide LemmaEntry, RootEntries, Map.Holds, SuffixItems, TablesOk, LemmaFits, LemmaSize, Dictionary.RootPlaces;
      var entries := LemmaEntries(c.lemmas, RootPlaces(c));
      forall k | 0 <= k < |entries|
        ensures entries[k].key == c.lemmas[k].text && entries[k].Bytes() != []
        ensures Delimits(LemmaSize, entries[k].payload)
      {
        var e := LemmaEntry(c.lemmas[k], RootPlaces(c), RootCount(c.lemmas[..k]));
        assert entries[k] == e && e.ToSlot() == LemmaSlot(c.lemmas[k]);
        assert c.lemmas[k] in c.lemmas;
        LemmaSizeDelimits(c.lemmas[k], RootPlaces(c), RootCount(c.lemmas[..k]));
      }
    }

    /** What the entry of lemma `k` says. */
    lemma LemmaAt(c: Compiled, items: seq<Entry>, k: nat, position: nat)
      requires Loaded(c, items) && k < |c.lemmas| && |c.lemmas[k].text| < |lemmas.hashes|
      requires position <= |lemmas.hashes[|c.lemmas[k].text|].data|
      requires LemmaEntries(c.lemmas, RootPlaces(c))[k].Bytes() <= lemmas.hashes[|c.lemmas[k].text|].data[position..]
      ensures var l, data := c.lemmas[k], lemmas.hashes[|c.lemmas[k].text|].data;
        var p := position + |l.text|;
        var refs := p + 1 + |l.info| + 1;
        && refs + 7 * |l.roots| <= |data| && data[position..p] == l.text && data[p] == |l.info|
          && data[p + 1..p + 1 + |l.info|] == l.info
        && data[p + 1 + |l.info|] == |l.roots|
        && data[refs..refs + 7 * |l.roots|] == Refs(l.roots, RootPlaces(c), RootCount(c.lemmas[..k]))
    {
      hide LemmaEntry, RootEntries, Map.Holds, SuffixItems, TablesOk, Refs, Dictionary.RootPlaces;
      assert c.lemmas[k] in c.lemmas;
      assert LemmaEntries(c.lemmas, RootPlaces(c))[k] ==
        LemmaEntry(c.lemmas[k], RootPlaces(c), RootCount(c.lemmas[..k]));
      ReadLemmaEntry(lemmas.hashes[|c.lemmas[k].text|].data, position, c.lemmas[k], RootPlaces(c),
        RootCount(c.lemmas[..k]));
    }

    /** The accepted forms of all roots of lemma `k`. */
    method GenerateRoots(data: seq<Byte>, at: nat, q: Query, ghost c: Compiled, ghost items: seq<Entry>, ghost k: nat)
      returns (forms: seq<Form>)
      requires Loaded(c, items) && ClassesLoaded(c) && k < |c.lemmas|
      requires at + 1 + 7 * |c.lemmas[k].roots| <= |data| && data[at] == |c.lemmas[k].roots|
      requires data[at + 1..at + 1 + 7 * |c.lemmas[k].roots|] ==
        Refs(c.lemmas[k].roots, RootPlaces(c), RootCount(c.lemmas[..k]))
      ensures multiset(forms) == multiset(FormsAsked(c, c.lemmas[k], q))
    {
      hide Dictionary.Loaded, Dictionary.ClassesLoaded, Refs, Word, Quad, Accepted, Expand, ExpandAll,
        Dictionary.RootPlaces;
      ghost var roots := c.lemmas[k].roots;
      var count := data[at];
      forms := [];
      NoForms(c, roots, q);
      for i := 0 to count
        invariant multiset(forms) == multiset(Accepted(ExpandAll(roots[..i], c.lists), q.filter))
      {
        var more := GenerateRoot(data, at + 1 + 7 * i, q, c, items, k, i, at + 1);
        FormsNext(c, roots, i, q);
        forms := forms + more;
      }
      assert roots[..count] == roots;
    }

    /** The accepted forms of the `i`-th root of lemma `k`, which the reference at `p` leads to. */
    method GenerateRoot(data: seq<Byte>, p: nat, q: Query, ghost c: Compiled, ghost items: seq<Entry>, ghost k: nat,
                        ghost i: nat, ghost refs: nat)
      returns (forms: seq<Form>)
      requires Loaded(c, items) && ClassesLoaded(c) && k < |c.lemmas| && i < |c.lemmas[k].roots|
      requires refs + 7 * |c.lemmas[k].roots| <= |data| && p == refs + 7 * i
      requires data[refs..refs + 7 * |c.lemmas[k].roots|] ==
        Refs(c.lemmas[k].roots, RootPlaces(c), RootCount(c.lemmas[..k]))
      ensures c.lemmas[k].roots[i].clas < |c.lists|
      ensures multiset(forms) ==
        multiset(Accepted(Expand(c.lemmas[k].roots[i].root, c.lists[c.lemmas[k].roots[i].clas]), q.filter))
    {
      hide Dictionary.Loaded, Refs, Word, Quad, Accepted, Expand, SpelledRow, IdsBounded, Row, ClassLoaded,
        Dictionary.RootPlaces;
      ghost var r := c.lemmas[k].roots[i];
      RefFacts(data, p, c, items, k, i, refs);
      LoadedTables(c, items);
      var place, rootLen, clas := Quad(data, p), data[p + 4], Word(data, p + 5);
      var root := roots.hashes[rootLen].data[place..place + rootLen];
      ClassExists(c, classes, clas);
      forms := ExpandRow(root, classes[clas], q.filter, tags);
      AcceptedContents(root, SpelledRow(classes[clas], tags), c.lists[clas], q.filter);
    }

    /** What a reference from a lemma to a root says, and what is found there. */
    lemma RefFacts(data: seq<Byte>, p: nat, c: Compiled, items: seq<Entry>, k: nat, i: nat, refs: nat)
      requires Loaded(c, items) && k < |c.lemmas| && i < |c.lemmas[k].roots|
      requires refs + 7 * |c.lemmas[k].roots| <= |data| && p == refs + 7 * i
      requires data[refs..refs + 7 * |c.lemmas[k].roots|] ==
        Refs(c.lemmas[k].roots, RootPlaces(c), RootCount(c.lemmas[..k]))
      ensures p + 7 <= |data| && data[p + 4] == |c.lemmas[k].roots[i].root| < |roots.hashes|
      ensures Word(data, p + 5) == c.lemmas[k].roots[i].clas < |c.lists|
      ensures var place, r := Quad(data, p), c.lemmas[k].roots[i];
        place + |r.root| <= |roots.hashes[|r.root|].data|
          && roots.hashes[|r.root|].data[place..place + |r.root|] == r.root
    {
      hide Dictionary.Loaded, Refs, Word, Quad, RefBytes, RootEntry, RootCount, Dictionary.RootPlaces;
      var r, place := c.lemmas[k].roots[i], PlaceOf(RootPlaces(c), RootCount(c.lemmas[..k]) + i);
      RootWithin(c, items, k, i);
      RootText(c, items, k, i);
      RefAt(c.lemmas[k].roots, RootPlaces(c), RootCount(c.lemmas[..k]), i);
      SliceOfSlice(data, refs, 7 * |c.lemmas[k].roots|, 7 * i, 7 * i + 7);
      ReadRef(data, p, r, place);
    }

    /** The text of a root is where its place says. */
    lemma RootText(c: Compiled, items: seq<Entry>, k: nat, i: nat)
      requires Loaded(c, items) && k < |c.lemmas| && i < |c.lemmas[k].roots|
      ensures |c.lemmas[k].roots[i].root| < |roots.hashes|
      ensures var place, r := PlaceOf(RootPlaces(c), RootCount(c.lemmas[..k]) + i), c.lemmas[k].roots[i];
        place < 0x1_0000_0000 && place + |r.root| <= |roots.hashes[|r.root|].data|
        && roots.hashes[|r.root|].data[place..place + |r.root|] == r.root
    {
      hide Dictionary.Loaded, RootEntry, RootCount, Dictionary.RootPlaces, Dictionary.LemmaPlaces;
      RootStored(c, items, k, i);
      var r, place := c.lemmas[k].roots[i], PlaceOf(RootPlaces(c), RootCount(c.lemmas[..k]) + i);
      var e := RootEntry(r, PlaceOf(LemmaPlaces(c), k), |c.lemmas[k].text|);
      assert e.ToSlot() == RootSlot(r);
      EntryKeyAt(roots.hashes[|r.root|].data, place, e);
    }
  }

  /** The lemmas with given numbers that a query asks for. */
  function ChosenAt(lemmas: seq<Lemma>, js: seq<nat>, q: Query): seq<Lemma> {
    if js == [] then []
    else
      var j := js[|js| - 1];
      ChosenAt(lemmas, js[..|js| - 1], q) + if j < |lemmas| && Asked(lemmas[j], q) then [lemmas[j]] else []
  }

  lemma ChosenAtAppend(lemmas: seq<Lemma>, js: seq<nat>, k: nat, q: Query)
    requires k < |lemmas|
    ensures ChosenAt(lemmas, js + [k], q) == if Asked(lemmas[k], q) then ChosenAt(lemmas, js, q) + [lemmas[k]]
      else ChosenAt(lemmas, js, q)
  {
    assert (js + [k])[..|js|] == js;
  }

  lemma NothingChosen(c: Compiled, entries: seq<Entry>, q: Query)
    ensures ChosenAt(c.lemmas, Matching(entries, [], q.raw), q) == [] && Generated(c, [], q, [])
  {
  }

  lemma ChosenNext(lemmas: seq<Lemma>, entries: seq<Entry>, visited: seq<nat>, i: nat, q: Query)
    requires i < |visited| && visited[i] < |entries| == |lemmas|
    ensures var k := visited[i];
      var before := ChosenAt(lemmas, Matching(entries, visited[..i], q.raw), q);
      ChosenAt(lemmas, Matching(entries, visited[..i + 1], q.raw), q) ==
      if entries[k].key == q.raw && Asked(lemmas[k], q) then before + [lemmas[k]] else before
  {
    hide ChosenAt, Matching, Asked;
    var k := visited[i];
    assert visited[..i + 1] == visited[..i] + [k];
    MatchingAppend(entries, visited[..i], k, q.raw);
    var before := Matching(entries, visited[..i], q.raw);
    assert before + [] == before;
    ChosenAtAppend(lemmas, before, k, q);
  }

  lemma {:induction false} ChosenAtPrefix(lemmas: seq<Lemma>, n: nat, js: seq<nat>, q: Query)
    requires n <= |lemmas| && forall t :: 0 <= t < |js| ==> js[t] < n
    ensures ChosenAt(lemmas, js, q) == ChosenAt(lemmas[..n], js, q)
  {
    if js != [] { ChosenAtPrefix(lemmas, n, js[..|js| - 1], q); }
  }

  /** The lemmas found by key are those that the query chooses. */
  lemma {:induction false} ChosenAtKey(lemmas: seq<Lemma>, entries: seq<Entry>, q: Query)
    requires |entries| == |lemmas| && forall k :: 0 <= k < |lemmas| ==> entries[k].key == lemmas[k].text
    ensures ChosenAt(lemmas, KeyIndices(entries, q.raw), q) == Chosen(lemmas, q)
  {
    hide KeyIndices, Asked;
    if lemmas == [] {
      NoKeys(entries, q.raw);
    } else {
      var n := |lemmas| - 1;
      ChosenAtKey(lemmas[..n], entries[..n], q);
      LastKey(entries, q.raw);
      var front := KeyIndices(entries[..n], q.raw);
      assert forall t :: 0 <= t < |front| ==> front[t] in front;
      ChosenAtPrefix(lemmas, n, front, q);
      ChosenAtAppend(lemmas, front, n, q);
    }
  }

  lemma NoForms(c: Compiled, roots: seq<RootRef>, q: Query)
    ensures Accepted(ExpandAll(roots[..0], c.lists), q.filter) == []
  {
  }

  lemma FormsNext(c: Compiled, roots: seq<RootRef>, i: nat, q: Query)
    requires i < |roots| && roots[i].clas < |c.lists|
    ensures Accepted(ExpandAll(roots[..i + 1], c.lists), q.filter) ==
            Accepted(ExpandAll(roots[..i], c.lists), q.filter)
              + Accepted(Expand(roots[i].root, c.lists[roots[i].clas]), q.filter)
  {
    hide Accepted, Expand, ExpandAll;
    assert roots[..i + 1] == roots[..i] + [roots[i]];
    ExpandAllAppend(roots[..i], roots[i], c.lists);
    AcceptedConcat(ExpandAll(roots[..i], c.lists), Expand(roots[i].root, c.lists[roots[i].clas]), q.filter);
  }

  lemma ClassExists(c: Compiled, classes: seq<seq<SuffixTags>>, clas: nat)
    requires TablesOk(c) && clas < |c.lists| && ClassLoaded(c, Row(classes, clas), clas)
    ensures clas < |classes| && IdsBounded(classes[clas], |c.tags|)
    ensures multiset(SpelledRow(classes[clas], c.tags)) == multiset(c.lists[clas])
  {
    hide IdsBounded;
    assert c.lists[clas] in c.lists;
    assert |multiset(c.lists[clas])| == |c.lists[clas]|;
    if clas >= |classes| { EmptyRow(c.tags); }
  }

  /** The accepted forms that a class makes with a root. */
  method ExpandRow(root: Text, row: seq<SuffixTags>, filter: Text -> bool, tags: seq<Text>) returns (forms: seq<Form>)
    requires IdsBounded(row, |tags|)
    ensures forms == Accepted(Expand(root, SpelledRow(row, tags)), filter)
  {
    hide Accepted, SpelledRow, Spelled, IdsBounded;
    forms := [];
    ghost var done: seq<Ending> := [];
    NoneAccepted(filter);
    EmptyRow(tags);
    assert row[..0] == [] && Expand(root, []) == [];
    for i := 0 to |row|
      invariant done == SpelledRow(row[..i], tags) && forms == Accepted(Expand(root, done), filter)
    {
      var suffix, ids := row[i].suffix, row[i].tags;
      ghost var before := done;
      RowIdsBounded(row, |tags|, i);
      NothingSpelled(suffix, tags, map[]);
      assert ids[..0] == [] && before + [] == before;
      for n := 0 to |ids|
        invariant done == before + Spelled(suffix, ids[..n], tags) && forms == Accepted(Expand(root, done), filter)
      {
        assert ids[..n + 1] == ids[..n] + [ids[n]];
        SpelledAppend(suffix, ids[..n], ids[n], tags);
        var tag := tags[ids[n]];
        assert Expand(root, done + [Ending(suffix, tag)]) == Expand(root, done) + [Form(root + suffix, tag)];
        AcceptedAppend(Expand(root, done), Form(root + suffix, tag), filter);
        if filter(tag) {
          forms := forms + [Form(root + suffix, tag)];
        }
        done := done + [Ending(suffix, tag)];
      }
      assert ids[..|ids|] == ids && row[..i + 1] == row[..i] + [row[i]];
      SpelledRowAppend(row[..i], row[i], tags);
    }
    assert row[..|row|] == row;
  }

  lemma RowIdsBounded(row: seq<SuffixTags>, n: nat, i: nat)
    requires IdsBounded(row, n) && i < |row|
    ensures forall k :: 0 <= k < |row[i].tags| ==> row[i].tags[k] < n
  {
    assert row[i] in row;
  }

  /** The parts of a reference. */
  lemma ReadRef(data: seq<Byte>, p: nat, r: RootRef, place: nat)
    requires p + 7 <= |data| && data[p..p + 7] == RefBytes(r, place) && place < 0x1_0000_0000 && RootFits(r)
    ensures Quad(data, p) == place && data[p + 4] == |r.root| && Word(data, p + 5) == r.clas
  {
    hide Word, Quad, Le2, Le4;
    var window := data[p..p + 7];
    SliceOfSlice(data, p, 7, 0, 4);
    SliceOfSlice(data, p, 7, 5, 7);
    assert RefBytes(r, place)[..4] == Le4(place) && RefBytes(r, place)[4] == |r.root|
      && RefBytes(r, place)[5..] == Le2(r.clas);
    assert window[4] == data[p + 4] && window[0..4] == Le4(place) && window[5..7] == Le2(r.clas);
    QuadOfLe4(data, p, place);
    WordOfLe2(data, p + 5, r.clas);
  }

  function Row(classes: seq<seq<SuffixTags>>, clas: nat): seq<SuffixTags> {
    if clas < |classes| then classes[clas] else []
  }

  function KeysOf(items: seq<Entry>, visited: seq<nat>): seq<Text>
    requires forall i :: 0 <= i < |visited| ==> visited[i] < |items|
  {
    seq(|visited|, i requires 0 <= i < |visited| => items[visited[i]].key)
  }

  /** The classes after the first `i` suffixes visited. */
  ghost predicate RowsSoFar(suffixes: Suffixes, items: seq<Entry>, visited: seq<nat>, i: nat,
                            classes: seq<seq<SuffixTags>>) {
    && i <= |visited| && (forall j :: 0 <= j < |visited| ==> visited[j] < |items|)
    && forall clas: nat :: Row(classes, clas) == RowOf(suffixes, KeysOf(items, visited)[..i], clas)
  }

  lemma NoKeysYet(suffixes: Suffixes, items: seq<Entry>, visited: seq<nat>)
    requires forall j :: 0 <= j < |visited| ==> visited[j] < |items|
    ensures RowsSoFar(suffixes, items, visited, 0, [])
  {
    assert KeysOf(items, visited)[..0] == [];
  }

  lemma RowsNext(suffixes: Suffixes, items: seq<Entry>, visited: seq<nat>, i: nat, before: seq<seq<SuffixTags>>,
                 after: seq<seq<SuffixTags>>)
    requires RowsSoFar(suffixes, items, visited, i, before) && i < |visited|
    requires var key := items[visited[i]].key;
      forall clas: nat :: Row(after, clas) == Row(before, clas) + PartOf(EntryOf(suffixes, key), key, clas)
    ensures RowsSoFar(suffixes, items, visited, i + 1, after)
  {
    hide PartOf, EntryOf, Row;
    var keys := KeysOf(items, visited);
    assert keys[..i + 1] == keys[..i] + [items[visited[i]].key];
    RowOfNext(suffixes, keys[..i], items[visited[i]].key);
  }

  lemma RowOfNext(suffixes: Suffixes, keys: seq<Text>, key: Text)
    ensures forall clas: nat ::
      RowOf(suffixes, keys + [key], clas) == RowOf(suffixes, keys, clas) + PartOf(EntryOf(suffixes, key), key, clas)
  {
    hide PartOf, EntryOf;
    assert (keys + [key])[..|keys|] == keys;
  }

  lemma AllRows(c: Compiled, items: seq<Entry>, len: nat, visited: seq<nat>, classes: seq<seq<SuffixTags>>)
    requires OnceEach(items, len, visited) && SuffixItems(items, c.suffixes, |c.lists|)
    requires forall e <- items :: |e.key| < len
    requires PersistentMap.NoneEmpty(items)
    requires TablesOk(c) && RowsSoFar(c.suffixes, items, visited, |visited|, classes)
    ensures forall clas: nat :: clas < |c.lists| ==> ClassLoaded(c, Row(classes, clas), clas)
  {
    hide OnceEach, SuffixItems, TablesOk, Row, IdsBounded, PersistentMap.NoneEmpty;
    var keys := KeysOf(items, visited);
    assert keys[..|visited|] == keys;
    KeysVisited(items, c.suffixes, |c.lists|, len, visited);
    forall clas: nat | clas < |c.lists|
      ensures ClassLoaded(c, Row(classes, clas), clas)
    {
      RowsAreClasses(c, keys, clas);
      RowBounded(c, keys, clas);
    }
  }

  /** A class holds the endings of its list, in some order. */
  ghost predicate ClassLoaded(c: Compiled, row: seq<SuffixTags>, clas: nat)
    requires clas < |c.lists|
  {
    multiset(SpelledRow(row, c.tags)) == multiset(c.lists[clas]) && IdsBounded(row, |c.tags|)
  }

  ghost predicate IdsBounded(row: seq<SuffixTags>, n: nat) {
    forall s, i :: s in row && 0 <= i < |s.tags| ==> s.tags[i] < n
  }

  lemma {:induction false} RowBounded(c: Compiled, keys: seq<Text>, clas: nat)
    requires TablesOk(c) && clas < |c.lists|
    ensures IdsBounded(RowOf(c.suffixes, keys, clas), |c.tags|)
  {
    hide TablesOk;
    if keys != [] {
      var front, key := keys[..|keys| - 1], keys[|keys| - 1];
      RowBounded(c, front, clas);
      TagNumbers(c, key, clas);
      assert forall s <- PartOfRow(c.suffixes, key, clas) :: s.tags == Stored(c.suffixes, key, clas);
    }
  }

  /** Every suffix has been visited, and none twice. */
  lemma KeysVisited(items: seq<Entry>, suffixes: Suffixes, bound: nat, len: nat, visited: seq<nat>)
    requires OnceEach(items, len, visited) && SuffixItems(items, suffixes, bound) && forall e <- items :: |e.key| < len
    requires PersistentMap.NoneEmpty(items)
    ensures Distinct(KeysOf(items, visited)) && forall s <- suffixes :: s in KeysOf(items, visited)
  {
    KeysDiffer(items, visited);
    forall s | s in suffixes
      ensures s in KeysOf(items, visited)
    {
      assert HasKey(items, s);
      KeyVisited(items, len, visited, s);
    }
  }

  lemma KeysDiffer(items: seq<Entry>, visited: seq<nat>)
    requires DistinctKeys(items) && (forall i :: 0 <= i < |visited| ==> visited[i] < |items|)
    requires forall i, j :: 0 <= i < j < |visited| ==> visited[i] != visited[j]
    ensures Distinct(KeysOf(items, visited))
  {
    var keys := KeysOf(items, visited);
    forall i, j | 0 <= i < j < |keys|
      ensures keys[i] != keys[j]
    {
      var a, b := visited[i], visited[j];
      assert items[if a < b then a else b].key != items[if a < b then b else a].key;
    }
  }

  lemma KeyVisited(items: seq<Entry>, len: nat, visited: seq<nat>, s: Text)
    requires OnceEach(items, len, visited) && (forall e <- items :: |e.key| < len) && PersistentMap.NoneEmpty(items)
    requires HasKey(items, s)
    ensures s in KeysOf(items, visited)
  {
    var e :| e in items && e.key == s;
    var k :| 0 <= k < |items| && items[k] == e;
    assert k in visited;
    var i :| 0 <= i < |visited| && visited[i] == k;
    assert KeysOf(items, visited)[i] == s;
  }

  /** Adds one suffix to the classes that use it. */
  method AddSuffix(before: seq<seq<SuffixTags>>, data: seq<Byte>, p: nat, len: nat, ghost key: Text,
                   ghost m: SuffixTable.Classes, ghost bound: nat)
    returns (classes: seq<seq<SuffixTags>>)
    requires p + len <= |data| && data[p..p + len] == key && SuffixTable.Fits(m, bound)
    requires SuffixTable.Payload(m, bound) <= data[p + len..]
    ensures forall clas: nat :: Row(classes, clas) == Row(before, clas) + PartOf(m, key, clas)
  {
    hide Word, SuffixTable.TagsOf, SuffixTable.Ids, SuffixTable.Fits, SuffixTable.Payload, PartOf, Row;
    ghost var ids := SuffixTable.Ids(m, bound);
    SuffixTable.ReadLayout(data, p + len, m, bound);
    SuffixTable.IdsExact(m, bound);
    var suffix := data[p..p + len];
    var n := Word(data, p + len);
    var classesAt, startsAt, tagsAt := p + len + 2, p + len + 2 + 2 * n, p + len + 2 + 2 * n + 2 * n + 2;
    classes := before;
    NoPartsYet(before, m, key, ids);
    for k := 0 to n
      invariant PartsAdded(before, classes, m, key, ids[..k])
    {
      var clas := Word(data, classesAt + 2 * k);
      assert clas == ids[k];
      SuffixTable.StartAt(data, startsAt, m, ids, k);
      SuffixTable.StartAt(data, startsAt, m, ids, k + 1);
      SuffixTable.TagsOfClass(data, tagsAt, m, ids, k);
      var tags :=
        ReadWords(data, tagsAt + 2 * Word(data, startsAt + 2 * k), tagsAt + 2 * Word(data, startsAt + 2 * (k + 1)),
        SuffixTable.TagsFor(m, clas));
      var grown := Resized(classes, clas + 1);
      PartAdded(before, classes, m, key, ids, k);
      classes := grown[clas := grown[clas] + [SuffixTags(suffix, tags)]];
    }
    assert ids[..n] == ids;
    AllPartsAdded(before, classes, m, key, bound);
  }

  function Resized(classes: seq<seq<SuffixTags>>, n: nat): (r: seq<seq<SuffixTags>>)
    ensures |r| >= n && forall clas: nat :: Row(r, clas) == Row(classes, clas)
  {
    if |classes| >= n then classes else classes + seq(n - |classes|, _ => [])
  }

  /** What has been added for the first classes of a suffix. */
  ghost predicate PartsAdded(before: seq<seq<SuffixTags>>, classes: seq<seq<SuffixTags>>, m: SuffixTable.Classes,
                             key: Text, ids: seq<nat>) {
    forall clas: nat :: Row(classes, clas) == Row(before, clas) + if clas in ids then PartOf(m, key, clas) else []
  }

  lemma NoPartsYet(before: seq<seq<SuffixTags>>, m: SuffixTable.Classes, key: Text, ids: seq<nat>)
    ensures PartsAdded(before, before, m, key, ids[..0])
  {
    hide Row;
    assert forall row: seq<SuffixTags> :: row + [] == row;
  }

  lemma PartAdded(before: seq<seq<SuffixTags>>, classes: seq<seq<SuffixTags>>, m: SuffixTable.Classes, key: Text,
                  ids: seq<nat>, k: nat)
    requires k < |ids| && PartsAdded(before, classes, m, key, ids[..k]) && ids[k] in m && SuffixTable.Ascending(ids)
    ensures var grown := Resized(classes, ids[k] + 1);
      PartsAdded(before, grown[ids[k] := grown[ids[k]] + [SuffixTags(key, m[ids[k]])]], m, key, ids[..k + 1])
  {
    var grown := Resized(classes, ids[k] + 1);
    var after := grown[ids[k] := grown[ids[k]] + [SuffixTags(key, m[ids[k]])]];
    assert ids[..k + 1] == ids[..k] + [ids[k]];
    assert ids[k] !in ids[..k];
    forall clas: nat
      ensures Row(after, clas) == Row(before, clas) + if clas in ids[..k + 1] then PartOf(m, key, clas) else []
    {
      assert Row(grown, clas) == Row(classes, clas);
    }
  }

  lemma AllPartsAdded(before: seq<seq<SuffixTags>>, classes: seq<seq<SuffixTags>>, m: SuffixTable.Classes, key: Text,
                      bound: nat)
    requires PartsAdded(before, classes, m, key, SuffixTable.Ids(m, bound)) && SuffixTable.Fits(m, bound)
    ensures forall clas: nat :: Row(classes, clas) == Row(before, clas) + PartOf(m, key, clas)
  {
    hide Row;
    SuffixTable.IdsExact(m, bound);
  }

  /** Reads the numbers between two positions. */
  method ReadWords(data: seq<Byte>, start: nat, to: nat, ghost words: seq<nat>) returns (r: seq<nat>)
    requires to == start + 2 * |words| && SuffixTable.WordsAt(data, start, words)
    ensures r == words
  {
    hide Word;
    r := [];
    var from: nat := start;
    while from < to
      invariant from == start + 2 * |r| && |r| <= |words| && r == words[..|r|]
      decreases |words| - |r|
    {
      assert Word(data, start + 2 * |r|) == words[|r|];
      r, from := r + [Word(data, from)], from + 2;
    }
  }

  /** Appends one analysis for each tag. */
  method CollectTags(data: seq<Byte>, start: nat, to: nat, name: Text, tags: seq<Text>, ghost ids: seq<nat>)
    returns (more: seq<Tagged>)
    requires to == start + 2 * |ids| && SuffixTable.WordsAt(data, start, ids)
    requires forall i :: 0 <= i < |ids| ==> ids[i] < |tags|
    ensures more == Named(ids, tags, name)
  {
    hide Word, Named;
    more := [];
    NothingNamed(tags, name);
    assert ids[..0] == [];
    var from: nat := start;
    ghost var i: nat := 0;
    assert more == Named(ids[..i], tags, name);
    while from < to
      invariant i <= |ids| && from == start + 2 * i && more == Named(ids[..i], tags, name)
      decreases |ids| - i
    {
      assert Word(data, start + 2 * i) == ids[i];
      NamedAppend(ids[..i], ids[i], tags, name);
      assert ids[..i + 1] == ids[..i] + [ids[i]];
      more := more + [Tagged(name, tags[Word(data, from)])];
      from, i := from + 2, i + 1;
    }
    assert ids[..i] == ids;
  }

  lemma NoClasses(m: SuffixTable.Classes, bound: nat)
    requires SuffixTable.Fits(m, bound) && SuffixTable.Ids(m, bound) == []
    ensures m == map[]
  {
    SuffixTable.IdsExact(m, bound);
    assert forall clas <- m :: clas in SuffixTable.Ids(m, bound);
  }

  /** When no class uses the suffix, a split gives nothing. */
  lemma {:induction false} UnusedSuffix(c: Compiled, os: seq<Owned>, len: nat, form: Text, format: Text -> Text)
    requires len <= |form| && EntryOf(c.suffixes, Tail(form, |form| - len)) == map[]
    ensures ByLength(c, os, len, len + 1, form, format) == []
  {
    if os != [] {
      UnusedSuffix(c, os[..|os| - 1], len, form, format);
      assert form[len..] == Tail(form, |form| - len);
    }
  }

  lemma NothingSearched(c: Compiled, form: Text, m: nat)
    requires SearchedEnough(c, form, m) && [] !in c.suffixes
    ensures m == 0
  {
  }

  lemma EntryKeyAt(data: seq<Byte>, p: nat, e: Entry)
    requires p <= |data| && e.Bytes() <= data[p..]
    ensures p + |e.key| <= |data| && data[p..p + |e.key|] == e.key
  {
    EditScript.Consume(data, p, e.key, e.payload);
  }

  lemma NoMatches(c: Compiled, entries: seq<Entry>, form: Text, format: Text -> Text)
    ensures forall key :: Matching(entries, [], key) == []
    ensures forall os :: AnswersFor(c, os, [], form, format) == []
  {
  }

  lemma NothingNamed(tags: seq<Text>, name: Text)
    ensures Named([], tags, name) == []
  {
  }

  lemma TagsForStored(suffixes: Suffixes, suffix: Text, clas: nat)
    ensures SuffixTable.TagsFor(EntryOf(suffixes, suffix), clas) == Stored(suffixes, suffix, clas)
  {
  }

  /** All tag numbers stored are numbers of tags. */
  lemma TagNumbers(c: Compiled, suffix: Text, clas: nat)
    requires TablesOk(c) && clas < |c.lists|
    ensures forall i :: 0 <= i < |Stored(c.suffixes, suffix, clas)| ==> Stored(c.suffixes, suffix, clas)[i] < |c.tags|
  {
    TagIdsBounded(c.lists[clas], suffix, c.tags, c.tagsMap);
  }

  lemma {:induction false} TagIdsBounded(endings: seq<Ending>, suffix: Text, tags: seq<Text>, tagsMap: map<Text, nat>)
    requires TagsMatch(tags, tagsMap)
    ensures forall i :: 0 <= i < |TagIds(endings, suffix, tagsMap)| ==> TagIds(endings, suffix, tagsMap)[i] < |tags|
  {
    if endings != [] { TagIdsBounded(endings[..|endings| - 1], suffix, tags, tagsMap); }
  }

  ghost predicate EqualSlots(shapes: seq<Entry>, entries: seq<Entry>) {
    |shapes| == |entries| && forall i :: 0 <= i < |entries| ==> entries[i].ToSlot() == shapes[i].ToSlot()
  }

  /** The size of a hash is summed up in a signed number of four bytes. */
  const MAX_DATA := 0x7FFF_FFFF

  /** No hash of lemmas or roots gets too large. */
  predicate PlacesFit(lemmas: seq<Lemma>) {
    PersistentMap.HashesFit(LemmaEntries(lemmas, []), MAX_DATA)
      && PersistentMap.HashesFit(RootEntries(lemmas, []), MAX_DATA)
  }

  lemma FileLemmasFit(lemmaSizes: seq<nat>, rootSizes: seq<nat>, c: Compiled)
    requires FileFits(lemmaSizes, rootSizes, c.lemmas, c.tags)
    ensures AllFit(c.lemmas)
  {
    hide LemmaFits;
  }

  lemma LemmaShapes(lemmas: seq<Lemma>, places: seq<nat>)
    ensures EqualSlots(LemmaEntries(lemmas, []), LemmaEntries(lemmas, places))
  {
    hide LemmaEntry, LemmaEntries;
    forall i | 0 <= i < |lemmas|
      ensures LemmaEntries(lemmas, places)[i].ToSlot() == LemmaEntries(lemmas, [])[i].ToSlot()
    {
      assert LemmaEntries(lemmas, places)[i] == LemmaEntry(lemmas[i], places, RootCount(lemmas[..i]));
      assert LemmaEntries(lemmas, [])[i] == LemmaEntry(lemmas[i], [], RootCount(lemmas[..i]));
    }
  }

  lemma RootShapes(lemmas: seq<Lemma>, places: seq<nat>)
    ensures EqualSlots(RootEntries(lemmas, []), RootEntries(lemmas, places))
  {
    hide RootEntries;
    forall j | 0 <= j < RootCount(lemmas)
      ensures RootEntries(lemmas, places)[j].ToSlot() == RootEntries(lemmas, [])[j].ToSlot()
    {
      SameRootSlots(lemmas, places, [], j);
    }
  }

  /** The place computed from keys and sizes is where the item is, and its number fits in four bytes. */
  lemma PlacedWithin(m: Map, shapes: seq<Entry>, entries: seq<Entry>, k: nat, e: Entry)
    requires m.Holds(entries) && EqualSlots(shapes, entries) && k < |entries| && entries[k] == e && |e.payload| > 0
    requires forall i :: 0 <= i < |m.hashes| ==> |m.hashes[i].data| <= 0x1_0000_0000
    ensures |e.key| < |m.hashes|
    ensures var p, data := PlaceOf(m.Places(shapes), k), m.hashes[|e.key|].data;
      p < |data| && p < 0x1_0000_0000 && e.Bytes() <= data[p..]
  {
    hide Map.Holds, Map.Place;
    m.PlacedAt(shapes, entries, k);
    PlaceKnown(m, shapes, k);
  }
}
