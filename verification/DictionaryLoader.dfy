/** Filling the hashes of lemmas and roots from the byte stream, in two passes: the first announces keys and
    sizes, the second stores the entries and links lemmas and roots (src/morpho/morpho_dictionary.h). */
module DictionaryLoader {
  import opened Bytes
  import opened Words
  import opened ClassFactoring
  import opened DictionaryCodec
  import opened DictionaryEntries
  import opened FnvHash
  import PersistentMap
  import EditScript

  type Map = PersistentMap.Map

  /** The two maps share no hash. */
  ghost predicate Separate(m: Map, n: Map)
    reads m, n
  {
    m != n && forall i, j :: 0 <= i < |m.hashes| && 0 <= j < |n.hashes| ==> m.hashes[i] != n.hashes[j]
  }

  ghost predicate AllFit(lemmas: seq<Lemma>) {
    forall l <- lemmas :: LemmaFits(l)
  }

  /** Texts fit in the buffers. */
  ghost predicate FitsBuffer(l: Lemma, size: nat) {
    |l.text| <= size && forall r <- l.roots :: |r.root| <= size
  }

  /** The text before the `i`-th root in the stream. */
  function Previous(l: Lemma, i: nat): Text
    requires i <= |l.roots|
  {
    if i == 0 then l.text else l.roots[i - 1].root
  }

  ghost predicate RootsRemain(l: Lemma, i: nat, data: seq<Byte>, pos: nat, tail: seq<Byte>)
    requires LemmaFits(l) && i <= |l.roots|
  {
    RemainingFits(l, i);
    pos <= |data| && RootsBytes(Previous(l, i), l.roots[i..]) + tail <= data[pos..]
  }

  lemma RemainingFits(l: Lemma, i: nat)
    requires LemmaFits(l) && i <= |l.roots|
    ensures |Previous(l, i)| < 0x100 && forall r <- l.roots[i..] :: RootFits(r)
    ensures i < |l.roots| ==> RootFits(l.roots[i])
  {
    if i > 0 { assert l.roots[i - 1] in l.roots && RootFits(l.roots[i - 1]); }
    if i < |l.roots| { assert l.roots[i] in l.roots; }
  }

  /** Reads the text of a lemma into the buffer, its information, and the number of its roots. */
  method ReadLemma(buffer: array<Byte>, len: nat, data: seq<Byte>, pos: nat, ghost prev: Text, ghost l: Lemma,
                   ghost tail: seq<Byte>)
    returns (newLen: nat, info: seq<Byte>, count: nat, next: nat)
    requires |prev| < 0x100 && LemmaFits(l) && |l.text| <= buffer.Length
    requires len <= buffer.Length && buffer[..len] == prev
    requires pos <= |data| && LemmaBytes(prev, l) + tail <= data[pos..]
    modifies buffer
    ensures newLen <= buffer.Length && buffer[..newLen] == l.text
    ensures info == l.info && count == |l.roots|
    ensures pos <= next && RootsRemain(l, 0, data, next, tail)
  {
    hide TextBytes, RootsBytes, RootFits;
    ghost var roots := RootsBytes(l.text, l.roots) + tail;
    ghost var rest := InfoBytes(l.info) + ([|l.roots|] + roots);
    assert LemmaBytes(prev, l) + tail == TextBytes(prev, l.text) + rest;
    newLen, next := ReadText(buffer, len, data, pos, prev, l.text, rest);
    info, next := ReadInfo(data, next, l.info, [|l.roots|] + roots);
    EditScript.Consume(data, next, [|l.roots|], roots);
    count := data[next];
    next := next + 1;
    assert l.roots[0..] == l.roots;
  }

  method ReadInfo(data: seq<Byte>, pos: nat, ghost info: Text, ghost tail: seq<Byte>)
    returns (read: seq<Byte>, next: nat)
    requires |info| < 0x100 && pos <= |data| && InfoBytes(info) + tail <= data[pos..]
    ensures read == info && pos <= next <= |data| && tail <= data[next..]
  {
    EditScript.Consume(data, pos, InfoBytes(info), tail);
    var n := data[pos];
    assert data[pos..pos + 1 + n] == InfoBytes(info);
    read, next := data[pos + 1..pos + 1 + n], pos + 1 + n;
    assert read == data[pos..pos + 1 + n][1..];
  }

  /** Copies the text of the lemma; roots start from it. */
  method CopyText(buffer: array<Byte>, root: array<Byte>, len: nat)
    requires len <= buffer.Length && len <= root.Length && buffer != root
    modifies root
    ensures root[..len] == buffer[..len]
  {
    for i := 0 to len
      invariant root[..i] == buffer[..i]
    {
      root[i] := buffer[i];
    }
  }

  /** Reads the `i`-th root of a lemma into the buffer. */
  method ReadNextRoot(root: array<Byte>, len: nat, data: seq<Byte>, pos: nat, ghost l: Lemma, ghost i: nat,
                      ghost tail: seq<Byte>)
    returns (newLen: nat, clas: nat, next: nat)
    requires LemmaFits(l) && i < |l.roots| && FitsBuffer(l, root.Length)
    requires len <= root.Length && root[..len] == Previous(l, i) && RootsRemain(l, i, data, pos, tail)
    modifies root
    ensures newLen <= root.Length && root[..newLen] == l.roots[i].root && clas == l.roots[i].clas
    ensures pos <= next && RootsRemain(l, i + 1, data, next, tail)
  {
    hide RootBytes, RootFits;
    RemainingFits(l, i);
    RemainingFits(l, i + 1);
    ghost var r := l.roots[i];
    assert r in l.roots;
    assert l.roots[i..][0] == r && l.roots[i..][1..] == l.roots[i + 1..];
    ghost var rest := RootsBytes(r.root, l.roots[i + 1..]) + tail;
    assert RootsBytes(Previous(l, i), l.roots[i..]) + tail == RootBytes(Previous(l, i), r) + rest;
    newLen, clas, next := ReadRoot(root, len, data, pos, Previous(l, i), r, rest);
  }

  // ----- First pass

  method AddRoots(roots: Map, root: array<Byte>, len: nat, data: seq<Byte>, pos: nat, count: nat,
                  ghost l: Lemma, ghost items: seq<Entry>, ghost place: nat, ghost tail: seq<Byte>)
    returns (next: nat)
    requires LemmaFits(l) && count == |l.roots| && FitsBuffer(l, root.Length)
    requires len <= root.Length && root[..len] == l.text && RootsRemain(l, 0, data, pos, tail)
    requires roots.AllAdding(items)
    modifies root, roots.hashes
    ensures roots.AllAdding(items + RootEntriesOf(l, place)) && roots.hashes == old(roots.hashes)
    ensures pos <= next && RootsRemain(l, count, data, next, tail)
  {
    hide RootsRemain, Map.AllAdding, RootEntry, LemmaFits, FitsBuffer;
    next := pos;
    var rootLen: nat, clas: nat := len, 0;
    ghost var entries := RootEntriesOf(l, place);
    assert items + entries[..0] == items;
    for i := 0 to count
      invariant rootLen <= root.Length && root[..rootLen] == Previous(l, i)
      invariant pos <= next && RootsRemain(l, i, data, next, tail)
      invariant roots.AllAdding(items + entries[..i]) && roots.hashes == old(roots.hashes)
    {
      rootLen, clas, next := ReadNextRoot(root, rootLen, data, next, l, i, tail);
      assert entries[i].ToSlot() == Slot(root[..rootLen], 2 + 4 + 1);
      roots.Add(root[..rootLen], 2 + 4 + 1, items + entries[..i], entries[i]);
      assert items + entries[..i] + [entries[i]] == items + entries[..i + 1];
    }
    assert entries[..count] == entries;
  }

  /** Reading the lemmas from number `k` on. */
  ghost predicate LemmasRemain(lemmas: seq<Lemma>, k: nat, data: seq<Byte>, pos: nat, tail: seq<Byte>)
    requires AllFit(lemmas) && k <= |lemmas|
  {
    PreviousFits(lemmas, k);
    pos <= |data| && LemmasBytes(PreviousText(lemmas, k), lemmas[k..]) + tail <= data[pos..]
  }

  function PreviousText(lemmas: seq<Lemma>, k: nat): Text
    requires k <= |lemmas|
  {
    if k == 0 then [] else lemmas[k - 1].text
  }

  lemma PreviousFits(lemmas: seq<Lemma>, k: nat)
    requires AllFit(lemmas) && k <= |lemmas|
    ensures |PreviousText(lemmas, k)| < 0x100 && forall l <- lemmas[k..] :: LemmaFits(l)
    ensures k < |lemmas| ==> LemmaFits(lemmas[k])
  {
    if k > 0 { assert lemmas[k - 1] in lemmas && LemmaFits(lemmas[k - 1]); }
    if k < |lemmas| { assert lemmas[k] in lemmas; }
  }

  /** Reads lemma `k` without its roots; they come next. */
  method ReadNextLemma(buffer: array<Byte>, len: nat, data: seq<Byte>, pos: nat, ghost lemmas: seq<Lemma>,
                       ghost k: nat, ghost tail: seq<Byte>)
    returns (newLen: nat, info: seq<Byte>, count: nat, next: nat, ghost rest: seq<Byte>)
    requires AllFit(lemmas) && k < |lemmas| && |lemmas[k].text| <= buffer.Length
    requires len <= buffer.Length && buffer[..len] == PreviousText(lemmas, k)
    requires LemmasRemain(lemmas, k, data, pos, tail)
    modifies buffer
    ensures newLen <= buffer.Length && buffer[..newLen] == lemmas[k].text
    ensures info == lemmas[k].info && count == |lemmas[k].roots| && LemmaFits(lemmas[k])
    ensures pos <= next && RootsRemain(lemmas[k], 0, data, next, rest)
    ensures forall end: nat ::
      RootsRemain(lemmas[k], |lemmas[k].roots|, data, end, rest) ==> LemmasRemain(lemmas, k + 1, data, end, tail)
  {
    hide LemmaFits, LemmaBytes;
    PreviousFits(lemmas, k);
    PreviousFits(lemmas, k + 1);
    ghost var l := lemmas[k];
    assert lemmas[k..][0] == l && lemmas[k..][1..] == lemmas[k + 1..];
    rest := LemmasBytes(l.text, lemmas[k + 1..]) + tail;
    assert LemmasBytes(PreviousText(lemmas, k), lemmas[k..]) + tail == LemmaBytes(PreviousText(lemmas, k), l) + rest;
    newLen, info, count, next := ReadLemma(buffer, len, data, pos, PreviousText(lemmas, k), l, rest);
    forall end: nat | RootsRemain(l, |l.roots|, data, end, rest)
      ensures LemmasRemain(lemmas, k + 1, data, end, tail)
    {
      RootsRead(l, data, end, rest);
    }
  }

  lemma RootsRead(l: Lemma, data: seq<Byte>, end: nat, rest: seq<Byte>)
    requires LemmaFits(l) && RootsRemain(l, |l.roots|, data, end, rest)
    ensures end <= |data| && rest <= data[end..]
  {
    RemainingFits(l, |l.roots|);
    assert l.roots[|l.roots|..] == [];
    assert RootsBytes(Previous(l, |l.roots|), []) == [];
    assert [] + rest == rest;
  }

  ghost predicate AllFitBuffer(lemmas: seq<Lemma>, size: nat) {
    forall l <- lemmas :: FitsBuffer(l, size)
  }

  /** Announces one lemma and its roots. */
  method AddLemma(lemmaMap: Map, rootMap: Map, data: seq<Byte>, pos: nat, buffer: array<Byte>, len: nat,
                  root: array<Byte>,
                  ghost lemmas: seq<Lemma>, ghost k: nat, ghost tail: seq<Byte>)
    returns (newLen: nat, next: nat)
    requires AllFit(lemmas) && k < |lemmas| && LemmasRemain(lemmas, k, data, pos, tail)
    requires buffer != root && FitsBuffer(lemmas[k], buffer.Length) && FitsBuffer(lemmas[k], root.Length)
    requires len <= buffer.Length && buffer[..len] == PreviousText(lemmas, k)
    requires Separate(lemmaMap, rootMap)
    requires lemmaMap.AllAdding(LemmaEntries(lemmas[..k], [])) && rootMap.AllAdding(RootEntries(lemmas[..k], []))
    modifies lemmaMap.hashes, rootMap.hashes, buffer, root
    ensures lemmaMap.AllAdding(LemmaEntries(lemmas[..k + 1], [])) && rootMap.AllAdding(RootEntries(lemmas[..k + 1], []))
    ensures lemmaMap.hashes == old(lemmaMap.hashes) && rootMap.hashes == old(rootMap.hashes)
    ensures newLen <= buffer.Length && buffer[..newLen] == lemmas[k].text
    ensures pos <= next && LemmasRemain(lemmas, k + 1, data, next, tail)
  {
    hide LemmasRemain, RootsRemain, Map.AllAdding, LemmaFits, FitsBuffer, LemmaEntry, RootEntries, LemmaEntries,
      PreviousText;
    ghost var l := lemmas[k];
    BufferHolds(l, buffer.Length);
    BufferHolds(l, root.Length);
    ghost var rest;
    var info, count;
    newLen, info, count, next, rest := ReadNextLemma(buffer, len, data, pos, lemmas, k, tail);
    LemmaEntriesNext(lemmas, [], k);
    RootEntriesNext(lemmas, [], k);
    lemmaMap.Add(buffer[..newLen], 1 + |info| + 1 + count * (4 + 1 + 2), LemmaEntries(lemmas[..k], []),
                 LemmaEntry(l, [], RootCount(lemmas[..k])));
    CopyText(buffer, root, newLen);
    next := AddRoots(rootMap, root, newLen, data, next, count, l, RootEntries(lemmas[..k], []), 0, rest);
  }

  /** The first pass: announces the keys and sizes of all lemmas and roots. */
  method FirstPass(lemmaMap: Map, rootMap: Map, data: seq<Byte>, pos: nat, count: nat, buffer: array<Byte>,
                   root: array<Byte>,
                   ghost lemmas: seq<Lemma>, ghost tail: seq<Byte>)
    returns (next: nat)
    requires AllFit(lemmas) && count == |lemmas| && LemmasRemain(lemmas, 0, data, pos, tail)
    requires buffer != root && AllFitBuffer(lemmas, buffer.Length) && AllFitBuffer(lemmas, root.Length)
    requires Separate(lemmaMap, rootMap) && lemmaMap.AllAdding([]) && rootMap.AllAdding([])
    modifies lemmaMap.hashes, rootMap.hashes, buffer, root
    ensures lemmaMap.AllAdding(LemmaEntries(lemmas, [])) && rootMap.AllAdding(RootEntries(lemmas, []))
    ensures lemmaMap.hashes == old(lemmaMap.hashes) && rootMap.hashes == old(rootMap.hashes)
    ensures pos <= next && LemmasRemain(lemmas, count, data, next, tail)
  {
    hide LemmasRemain, Map.AllAdding, FitsBuffer, LemmaEntries, RootEntries, AllFit;
    next := pos;
    var len: nat := 0;
    NoEntries(lemmas);
    for k := 0 to count
      invariant len <= buffer.Length && buffer[..len] == PreviousText(lemmas, k)
      invariant pos <= next && LemmasRemain(lemmas, k, data, next, tail)
      invariant lemmaMap.AllAdding(LemmaEntries(lemmas[..k], [])) && rootMap.AllAdding(RootEntries(lemmas[..k], []))
      invariant lemmaMap.hashes == old(lemmaMap.hashes) && rootMap.hashes == old(rootMap.hashes)
    {
      len, next := AddLemma(lemmaMap, rootMap, data, next, buffer, len, root, lemmas, k, tail);
    }
    assert lemmas[..count] == lemmas;
  }

  lemma NoEntries(lemmas: seq<Lemma>)
    ensures LemmaEntries(lemmas[..0], []) == [] && RootEntries(lemmas[..0], []) == [] && RootCount(lemmas[..0]) == 0
  {
  }

  lemma BufferHolds(l: Lemma, size: nat)
    requires FitsBuffer(l, size)
    ensures |l.text| <= size
  {
  }

  // ----- Second pass

  /** How far lemma `k` has been stored: its header and the references to its first `i` roots. */
  ghost predicate Storing(l: Lemma, places: seq<nat>, base: nat, i: nat, payload: seq<Byte>)
    requires i <= |l.roots|
  {
    |payload| == LemmaSlot(l).size && Header(l) + Refs(l.roots[..i], places, base) <= payload
  }

  lemma StoringHeader(l: Lemma, places: seq<nat>, base: nat, payload: seq<Byte>)
    requires |payload| == LemmaSlot(l).size
    ensures Storing(l, places, base, 0, Overwrite(payload, 0, Header(l)))
  {
    assert l.roots[..0] == [];
    var after := Overwrite(payload, 0, Header(l));
    assert after[..|Header(l)|] == after[0..0 + |Header(l)|];
  }

  lemma StoringNext(l: Lemma, places: seq<nat>, base: nat, i: nat, payload: seq<Byte>)
    requires i < |l.roots| && Storing(l, places, base, i, payload)
    ensures |Header(l)| + 7 * i + 7 <= |payload|
    ensures Storing(l, places, base, i + 1,
      Overwrite(payload, |Header(l)| + 7 * i, RefBytes(l.roots[i], PlaceOf(places, base + i))))
  {
    hide Refs, RefBytes, Header;
    RefsNext(l.roots, places, base, i);
    var at, bytes := |Header(l)| + 7 * i, RefBytes(l.roots[i], PlaceOf(places, base + i));
    var before := Header(l) + Refs(l.roots[..i], places, base);
    assert |Header(l)| == 2 + |l.info| by { HeaderLength(l); }
    var after := Overwrite(payload, at, bytes);
    assert after[..at] == payload[..at] == before;
    assert after[..at + 7] == after[..at] + after[at..at + 7];
    assert Header(l) + Refs(l.roots[..i + 1], places, base) == before + bytes;
  }

  lemma HeaderLength(l: Lemma)
    ensures |Header(l)| == 2 + |l.info|
  {
  }

  lemma StoringDone(l: Lemma, places: seq<nat>, base: nat, payload: seq<Byte>)
    requires Storing(l, places, base, |l.roots|, payload)
    ensures Entry(l.text, payload) == LemmaEntry(l, places, base)
  {
    hide Refs;
    assert l.roots[..|l.roots|] == l.roots;
  }

  /** The entry a place is known for. */
  lemma PlaceKnown(m: Map, items: seq<Entry>, k: nat)
    requires k < |items|
    ensures PlaceOf(m.Places(items), k) == m.Place(items, k)
  {
  }

  /** Stores one root: its key, its class, and where its lemma is. */
  method StoreRoot(roots: Map, key: Text, clas: nat, lemmaPlace: nat, lemmaLen: nat,
                   ghost r: RootRef, ghost items: seq<Entry>, ghost filled: seq<Entry>)
    returns (place: nat)
    requires roots.AllFilling(items, filled) && |filled| < |items| && items[|filled|].ToSlot() == RootSlot(r)
    requires key == r.root && clas == r.clas && |key| < |roots.hashes|
    modifies roots.hashes
    ensures roots.AllFilling(items, filled + [RootEntry(r, lemmaPlace, lemmaLen)]) && roots.hashes == old(roots.hashes)
    ensures place == roots.Place(items, |filled|)
  {
    hide Map.AllFilling, Map.Place, Le2, Le4;
    var offset, payload := roots.Fill(key, 2 + 4 + 1, items, filled);
    FilledSize(roots, items, filled + [Entry(key, payload)], |filled|);
    place := offset.value - |key|;
    ghost var n, before := |filled|, filled + [Entry(key, payload)];
    var bytes := Le2(clas) + Le4(lemmaPlace) + [lemmaLen % 0x100];
    roots.Patch(|key|, offset.value, bytes, items, before, n, 0);
    assert Overwrite(payload, 0, bytes) == bytes;
    assert before[n := Patched(before[n], 0, bytes)] == filled + [RootEntry(r, lemmaPlace, lemmaLen)];
  }

  lemma FilledSize(m: Map, items: seq<Entry>, filled: seq<Entry>, k: nat)
    requires m.AllFilling(items, filled) && k < |filled|
    ensures k < |items| && filled[k].ToSlot() == items[k].ToSlot()
  {
  }

  /** The keys of both maps are no longer than announced. */
  ghost predicate LengthsOk(l: Lemma, lemmaLengths: nat, rootLengths: nat) {
    |l.text| < lemmaLengths && forall r <- l.roots :: |r.root| < rootLengths
  }

  /** What the second pass has stored before lemma `k`: every lemma with the places of its roots, and every
      root with the place of its lemma. */
  ghost predicate Linked(lemmaMap: Map, rootMap: Map, lemmas: seq<Lemma>, k: nat, lp: seq<nat>, rp: seq<nat>)
    requires k <= |lemmas|
    reads lemmaMap, lemmaMap.hashes, rootMap, rootMap.hashes
  {
    && lemmaMap.AllFilling(LemmaEntries(lemmas, []), LemmaEntries(lemmas[..k], rp))
    && rootMap.AllFilling(RootEntries(lemmas, []), RootEntries(lemmas[..k], lp))
  }

  /** The places of all lemmas and roots. */
  ghost predicate PlacesKnown(lemmaMap: Map, rootMap: Map, lemmas: seq<Lemma>, lp: seq<nat>, rp: seq<nat>)
    reads lemmaMap, rootMap
  {
    lp == lemmaMap.Places(LemmaEntries(lemmas, [])) && rp == rootMap.Places(RootEntries(lemmas, []))
  }

  /** One reference from a lemma to its `i`-th root. */
  method StoreRef(lemmaMap: Map, len: nat, at: nat, rootPlace: nat, rootLen: nat, clas: nat,
                  ghost items: seq<Entry>, ghost front: seq<Entry>, ghost before: seq<Byte>,
                  ghost l: Lemma, ghost rp: seq<nat>, ghost base: nat, ghost i: nat)
    returns (ghost payload: seq<Byte>)
    requires lemmaMap.AllFilling(items, front + [Entry(l.text, before)]) && |front| < |items|
    requires i < |l.roots| && Storing(l, rp, base, i, before)
    requires len == |l.text| < |lemmaMap.hashes| && at == lemmaMap.Place(items, |front|) + len + 2 + |l.info| + 7 * i
    requires rootPlace == PlaceOf(rp, base + i) && rootLen == |l.roots[i].root| && clas == l.roots[i].clas
    modifies lemmaMap.hashes
    ensures lemmaMap.AllFilling(items, front + [Entry(l.text, payload)]) && lemmaMap.hashes == old(lemmaMap.hashes)
    ensures Storing(l, rp, base, i + 1, payload)
  {
    hide Map.AllFilling, Map.Place, Storing, Le2, Le4;
    ghost var k, from := |front|, 2 + |l.info| + 7 * i;
    ghost var filled := front + [Entry(l.text, before)];
    HeaderLength(l);
    StoringNext(l, rp, base, i, before);
    var bytes := Le4(rootPlace) + [rootLen % 0x100] + Le2(clas);
    assert bytes == RefBytes(l.roots[i], rootPlace);
    lemmaMap.Patch(len, at, bytes, items, filled, k, from);
    payload := Overwrite(before, from, bytes);
    assert filled[k := Patched(filled[k], from, bytes)] == front + [Entry(l.text, payload)];
  }

  /** What has been stored when `i` roots of lemma `k` are: the lemma itself is not complete yet. */
  ghost predicate PartlyLinked(lemmaMap: Map, rootMap: Map, lemmas: seq<Lemma>, k: nat, i: nat, lp: seq<nat>,
                               rp: seq<nat>, payload: seq<Byte>)
    requires k < |lemmas| && i <= |lemmas[k].roots|
    reads lemmaMap, lemmaMap.hashes, rootMap, rootMap.hashes
  {
    && lemmaMap.AllFilling(LemmaEntries(lemmas, []), LemmaEntries(lemmas[..k], rp) + [Entry(lemmas[k].text, payload)])
    && rootMap.AllFilling(RootEntries(lemmas, []), RootEntries(lemmas[..k], lp)
      + RootEntriesOf(lemmas[k], PlaceOf(lp, k))[..i])
    && Storing(lemmas[k], rp, RootCount(lemmas[..k]), i, payload)
  }

  /** Stores one root of lemma `k` and links the two. */
  method LinkRoot(lemmaMap: Map, rootMap: Map, key: Text, clas: nat, len: nat, lemmaPlace: nat, infoLen: nat,
                  ghost lemmas: seq<Lemma>, ghost k: nat, i: nat, ghost lp: seq<nat>, ghost rp: seq<nat>,
                    ghost before: seq<Byte>)
    returns (ghost payload: seq<Byte>)
    requires k < |lemmas| && i < |lemmas[k].roots| && len == |lemmas[k].text| && infoLen == |lemmas[k].info|
    requires LengthsOk(lemmas[k], |lemmaMap.hashes|, |rootMap.hashes|)
    requires key == lemmas[k].roots[i].root && clas == lemmas[k].roots[i].clas && lemmaPlace == PlaceOf(lp, k)
    requires Separate(lemmaMap, rootMap) && PlacesKnown(lemmaMap, rootMap, lemmas, lp, rp)
    requires PartlyLinked(lemmaMap, rootMap, lemmas, k, i, lp, rp, before)
    modifies lemmaMap.hashes, rootMap.hashes
    ensures lemmaMap.hashes == old(lemmaMap.hashes) && rootMap.hashes == old(rootMap.hashes)
    ensures PartlyLinked(lemmaMap, rootMap, lemmas, k, i + 1, lp, rp, payload)
  {
    hide Map.AllFilling, Map.Place, Map.Places, Storing, RootEntry, LemmaEntry, RootEntries, LemmaEntries, RootCount;
    ghost var l, base := lemmas[k], RootCount(lemmas[..k]);
    ghost var front, L, R := LemmaEntries(lemmas[..k], rp), LemmaEntries(lemmas, []), RootEntries(lemmas, []);
    ghost var rootFront, entries := RootEntries(lemmas[..k], lp), RootEntriesOf(l, lemmaPlace);
    RootEntryAt(lemmas, [], k, i);
    PlaceKnown(rootMap, R, base + i);
    PlaceKnown(lemmaMap, L, k);
    assert l.roots[i] in l.roots;
    var rootPlace := StoreRoot(rootMap, key, clas, lemmaPlace, len, l.roots[i], R, rootFront + entries[..i]);
    assert rootFront + entries[..i] + [entries[i]] == rootFront + entries[..i + 1];
    payload := StoreRef(lemmaMap, len, lemmaPlace + len + 2 + infoLen + 7 * i, rootPlace, |key|, clas, L, front, before,
      l, rp, base, i);
  }

  /** Stores the roots of lemma `k` and the references between them and the lemma. */
  method StoreRoots(lemmaMap: Map, rootMap: Map, root: array<Byte>, len: nat, data: seq<Byte>, pos: nat, count: nat,
                    lemmaPlace: nat, infoLen: nat,
                    ghost lemmas: seq<Lemma>, ghost k: nat, ghost lp: seq<nat>, ghost rp: seq<nat>,
                      ghost before: seq<Byte>, ghost tail: seq<Byte>)
    returns (next: nat, ghost payload: seq<Byte>)
    requires k < |lemmas| && LemmaFits(lemmas[k]) && FitsBuffer(lemmas[k], root.Length)
    requires count == |lemmas[k].roots| && infoLen == |lemmas[k].info|
    requires LengthsOk(lemmas[k], |lemmaMap.hashes|, |rootMap.hashes|)
    requires len <= root.Length && root[..len] == lemmas[k].text && RootsRemain(lemmas[k], 0, data, pos, tail)
    requires Separate(lemmaMap, rootMap) && PlacesKnown(lemmaMap, rootMap, lemmas, lp, rp)
    requires lemmaPlace == PlaceOf(lp, k)
    requires PartlyLinked(lemmaMap, rootMap, lemmas, k, 0, lp, rp, before)
    modifies root, lemmaMap.hashes, rootMap.hashes
    ensures lemmaMap.hashes == old(lemmaMap.hashes) && rootMap.hashes == old(rootMap.hashes)
    ensures PartlyLinked(lemmaMap, rootMap, lemmas, k, count, lp, rp, payload)
    ensures pos <= next && RootsRemain(lemmas[k], count, data, next, tail)
  {
    hide RootsRemain, PartlyLinked, PlacesKnown, Separate, LemmaFits, FitsBuffer, LengthsOk;
    next, payload := pos, before;
    var rootLen: nat, clas: nat := len, 0;
    for i := 0 to count
      invariant rootLen <= root.Length && root[..rootLen] == Previous(lemmas[k], i)
      invariant pos <= next && RootsRemain(lemmas[k], i, data, next, tail)
      invariant lemmaMap.hashes == old(lemmaMap.hashes) && rootMap.hashes == old(rootMap.hashes)
      invariant PartlyLinked(lemmaMap, rootMap, lemmas, k, i, lp, rp, payload)
    {
      rootLen, clas, next := ReadNextRoot(root, rootLen, data, next, lemmas[k], i, tail);
      payload := LinkRoot(lemmaMap, rootMap, root[..rootLen], clas, len, lemmaPlace, infoLen, lemmas, k, i, lp, rp,
        payload);
    }
  }

  /** Stores the key and the header of the next lemma. */
  method StoreHeader(lemmaMap: Map, key: Text, info: seq<Byte>, count: nat,
                     ghost l: Lemma, ghost items: seq<Entry>, ghost front: seq<Entry>, ghost rp: seq<nat>,
                       ghost base: nat)
    returns (place: nat, ghost payload: seq<Byte>)
    requires lemmaMap.AllFilling(items, front) && |front| < |items| && items[|front|].ToSlot() == LemmaSlot(l)
    requires key == l.text && info == l.info && count == |l.roots| && |key| < |lemmaMap.hashes|
    modifies lemmaMap.hashes
    ensures lemmaMap.AllFilling(items, front + [Entry(key, payload)]) && lemmaMap.hashes == old(lemmaMap.hashes)
    ensures place == lemmaMap.Place(items, |front|) && Storing(l, rp, base, 0, payload)
  {
    hide Map.AllFilling, Map.Place, Storing, Header;
    var size := 1 + |info| + 1 + count * (4 + 1 + 2);
    var offset, before := lemmaMap.Fill(key, size, items, front);
    ghost var filled, k := front + [Entry(key, before)], |front|;
    FilledSize(lemmaMap, items, filled, k);
    place := offset.value - |key|;
    var bytes := [|info| % 0x100] + info + [count % 0x100];
    assert bytes == Header(l) by { HeaderIs(l); }
    StoringHeader(l, rp, base, before);
    lemmaMap.Patch(|key|, offset.value, bytes, items, filled, k, 0);
    payload := Overwrite(before, 0, bytes);
    assert filled[k := Patched(filled[k], 0, bytes)] == front + [Entry(key, payload)];
  }

  /** Stores the key and the header of lemma `k`. */
  method BeginLemma(lemmaMap: Map, ghost rootMap: Map, key: Text, info: seq<Byte>, count: nat,
                    ghost lemmas: seq<Lemma>, ghost k: nat, ghost lp: seq<nat>, ghost rp: seq<nat>)
    returns (place: nat, ghost payload: seq<Byte>)
    requires k < |lemmas| && key == lemmas[k].text && info == lemmas[k].info && count == |lemmas[k].roots|
    requires LengthsOk(lemmas[k], |lemmaMap.hashes|, |rootMap.hashes|)
    requires Separate(lemmaMap, rootMap) && PlacesKnown(lemmaMap, rootMap, lemmas, lp, rp)
    requires Linked(lemmaMap, rootMap, lemmas, k, lp, rp)
    modifies lemmaMap.hashes
    ensures lemmaMap.hashes == old(lemmaMap.hashes)
    ensures place == PlaceOf(lp, k) && PartlyLinked(lemmaMap, rootMap, lemmas, k, 0, lp, rp, payload)
  {
    hide Map.AllFilling, Map.Place, Storing, RootEntry, RootEntries, Header, LemmaEntry;
    ghost var L := LemmaEntries(lemmas, []);
    assert L[k] == LemmaEntry(lemmas[k], [], RootCount(lemmas[..k]));
    PlaceKnown(lemmaMap, L, k);
    place, payload :=
      StoreHeader(lemmaMap, key, info, count, lemmas[k], L, LemmaEntries(lemmas[..k], rp), rp, RootCount(lemmas[..k]));
    ghost var roots := RootEntries(lemmas[..k], lp);
    assert roots + RootEntriesOf(lemmas[k], PlaceOf(lp, k))[..0] == roots;
  }

  lemma HeaderIs(l: Lemma)
    ensures Header(l) == [|l.info| % 0x100] + l.info + [|l.roots| % 0x100]
  {
  }

  /** A lemma with all its roots is complete. */
  lemma LemmaLinked(lemmaMap: Map, rootMap: Map, lemmas: seq<Lemma>, k: nat, lp: seq<nat>, rp: seq<nat>,
                    payload: seq<Byte>)
    requires k < |lemmas| && PartlyLinked(lemmaMap, rootMap, lemmas, k, |lemmas[k].roots|, lp, rp, payload)
    ensures Linked(lemmaMap, rootMap, lemmas, k + 1, lp, rp)
  {
    hide Map.AllFilling, Storing, RootEntry, LemmaEntry, RootEntries, LemmaEntries;
    StoringDone(lemmas[k], rp, RootCount(lemmas[..k]), payload);
    LemmaEntriesNext(lemmas, rp, k);
    RootEntriesNext(lemmas, lp, k);
    var entries := RootEntriesOf(lemmas[k], PlaceOf(lp, k));
    assert entries[..|entries|] == entries;
  }

  /** Stores one lemma and its roots. */
  method StoreLemma(lemmaMap: Map, rootMap: Map, data: seq<Byte>, pos: nat, buffer: array<Byte>, len: nat,
                    root: array<Byte>,
                    ghost lemmas: seq<Lemma>, ghost k: nat, ghost lp: seq<nat>, ghost rp: seq<nat>,
                      ghost tail: seq<Byte>)
    returns (newLen: nat, next: nat)
    requires AllFit(lemmas) && k < |lemmas| && LemmasRemain(lemmas, k, data, pos, tail)
    requires buffer != root && FitsBuffer(lemmas[k], buffer.Length) && FitsBuffer(lemmas[k], root.Length)
    requires len <= buffer.Length && buffer[..len] == PreviousText(lemmas, k)
    requires LengthsOk(lemmas[k], |lemmaMap.hashes|, |rootMap.hashes|)
    requires Separate(lemmaMap, rootMap) && PlacesKnown(lemmaMap, rootMap, lemmas, lp, rp)
    requires Linked(lemmaMap, rootMap, lemmas, k, lp, rp)
    modifies lemmaMap.hashes, rootMap.hashes, buffer, root
    ensures Linked(lemmaMap, rootMap, lemmas, k + 1, lp, rp)
    ensures lemmaMap.hashes == old(lemmaMap.hashes) && rootMap.hashes == old(rootMap.hashes)
    ensures newLen <= buffer.Length && buffer[..newLen] == lemmas[k].text
    ensures pos <= next && LemmasRemain(lemmas, k + 1, data, next, tail)
  {
    hide LemmasRemain, RootsRemain, Linked, PartlyLinked, PlacesKnown, Separate, LemmaFits, FitsBuffer, LengthsOk,
      AllFit;
    BufferHolds(lemmas[k], buffer.Length);
    BufferHolds(lemmas[k], root.Length);
    ghost var rest, payload;
    var info, count, place;
    newLen, info, count, next, rest := ReadNextLemma(buffer, len, data, pos, lemmas, k, tail);
    place, payload := BeginLemma(lemmaMap, rootMap, buffer[..newLen], info, count, lemmas, k, lp, rp);
    CopyText(buffer, root, newLen);
    next, payload :=
      StoreRoots(lemmaMap, rootMap, root, newLen, data, next, count, place, |info|, lemmas, k, lp, rp, payload, rest);
    LemmaLinked(lemmaMap, rootMap, lemmas, k, lp, rp, payload);
  }

  lemma NothingLinked(lemmaMap: Map, rootMap: Map, lemmas: seq<Lemma>, lp: seq<nat>, rp: seq<nat>)
    requires lemmaMap.AllFilling(LemmaEntries(lemmas, []), []) && rootMap.AllFilling(RootEntries(lemmas, []), [])
    ensures Linked(lemmaMap, rootMap, lemmas, 0, lp, rp)
  {
    hide Map.AllFilling;
    assert LemmaEntries(lemmas[..0], rp) == [] && RootEntries(lemmas[..0], lp) == [];
  }

  /** The second pass: stores all lemmas and roots. */
  method SecondPass(lemmaMap: Map, rootMap: Map, data: seq<Byte>, pos: nat, count: nat, buffer: array<Byte>,
                    root: array<Byte>,
                    ghost lemmas: seq<Lemma>, ghost lp: seq<nat>, ghost rp: seq<nat>, ghost tail: seq<Byte>)
    returns (next: nat)
    requires AllFit(lemmas) && count == |lemmas| && LemmasRemain(lemmas, 0, data, pos, tail)
    requires buffer != root && AllFitBuffer(lemmas, buffer.Length) && AllFitBuffer(lemmas, root.Length)
    requires forall l <- lemmas :: LengthsOk(l, |lemmaMap.hashes|, |rootMap.hashes|)
    requires Separate(lemmaMap, rootMap) && PlacesKnown(lemmaMap, rootMap, lemmas, lp, rp)
    requires lemmaMap.AllFilling(LemmaEntries(lemmas, []), []) && rootMap.AllFilling(RootEntries(lemmas, []), [])
    modifies lemmaMap.hashes, rootMap.hashes, buffer, root
    ensures Linked(lemmaMap, rootMap, lemmas, count, lp, rp)
    ensures lemmaMap.hashes == old(lemmaMap.hashes) && rootMap.hashes == old(rootMap.hashes)
    ensures pos <= next && LemmasRemain(lemmas, count, data, next, tail)
  {
    hide LemmasRemain, PlacesKnown, Separate, Linked, FitsBuffer, AllFit, LengthsOk;
    next := pos;
    var len: nat := 0;
    NothingLinked(lemmaMap, rootMap, lemmas, lp, rp);
    for k := 0 to count
      invariant len <= buffer.Length && buffer[..len] == PreviousText(lemmas, k)
      invariant pos <= next && LemmasRemain(lemmas, k, data, next, tail)
      invariant Linked(lemmaMap, rootMap, lemmas, k, lp, rp)
      invariant lemmaMap.hashes == old(lemmaMap.hashes) && rootMap.hashes == old(rootMap.hashes)
    {
      len, next := StoreLemma(lemmaMap, rootMap, data, next, buffer, len, root, lemmas, k, lp, rp, tail);
    }
  }

  // ----- Both passes

  /** All lemmas and roots are stored and linked. */
  ghost predicate Complete(lemmaMap: Map, rootMap: Map, lemmas: seq<Lemma>)
    reads lemmaMap, lemmaMap.hashes, rootMap, rootMap.hashes
  {
    && lemmaMap.Holds(LemmaEntries(lemmas, rootMap.Places(RootEntries(lemmas, []))))
    && rootMap.Holds(RootEntries(lemmas, lemmaMap.Places(LemmaEntries(lemmas, []))))
  }

  /** Between the passes: the layout of both maps is fixed. */
  method FixLayout(lemmaMap: Map, rootMap: Map, ghost lemmas: seq<Lemma>)
    requires Separate(lemmaMap, rootMap)
    requires lemmaMap.AllAdding(LemmaEntries(lemmas, [])) && rootMap.AllAdding(RootEntries(lemmas, []))
    modifies lemmaMap.hashes, rootMap.hashes
    ensures lemmaMap.AllFilling(LemmaEntries(lemmas, []), []) && rootMap.AllFilling(RootEntries(lemmas, []), [])
    ensures lemmaMap.hashes == old(lemmaMap.hashes) && rootMap.hashes == old(rootMap.hashes)
  {
    hide Map.AllAdding, Map.AllFilling, LemmaEntries, RootEntries;
    lemmaMap.DoneAdding(LemmaEntries(lemmas, []));
    rootMap.DoneAdding(RootEntries(lemmas, []));
  }

  /** After the passes. */
  method Finish(lemmaMap: Map, rootMap: Map, ghost lemmas: seq<Lemma>, ghost lp: seq<nat>, ghost rp: seq<nat>)
    requires Separate(lemmaMap, rootMap) && PlacesKnown(lemmaMap, rootMap, lemmas, lp, rp)
    requires Linked(lemmaMap, rootMap, lemmas, |lemmas|, lp, rp)
    requires forall l <- lemmas :: LengthsOk(l, |lemmaMap.hashes|, |rootMap.hashes|)
    modifies lemmaMap.hashes, rootMap.hashes
    ensures Complete(lemmaMap, rootMap, lemmas)
    ensures lemmaMap.hashes == old(lemmaMap.hashes) && rootMap.hashes == old(rootMap.hashes)
  {
    hide Map.AllFilling, Map.Holds, LemmaEntry, LemmaEntries, RootEntries, RootEntry, Map.Places, LengthsOk;
    assert lemmas[..|lemmas|] == lemmas;
    LengthsAnnounced(lemmas, |lemmaMap.hashes|, |rootMap.hashes|);
    lemmaMap.DoneFilling(LemmaEntries(lemmas, []), LemmaEntries(lemmas, rp));
    rootMap.DoneFilling(RootEntries(lemmas, []), RootEntries(lemmas, lp));
  }

  lemma LengthsAnnounced(lemmas: seq<Lemma>, lemmaLengths: nat, rootLengths: nat)
    requires forall l <- lemmas :: LengthsOk(l, lemmaLengths, rootLengths)
    ensures forall e <- LemmaEntries(lemmas, []) :: |e.key| < lemmaLengths
    ensures forall e <- RootEntries(lemmas, []) :: |e.key| < rootLengths
  {
    hide LemmaEntry, RootEntry, RootEntries;
    forall e | e in LemmaEntries(lemmas, [])
      ensures |e.key| < lemmaLengths
    {
      var k :| 0 <= k < |lemmas| && LemmaEntries(lemmas, [])[k] == e;
      assert e.ToSlot() == LemmaSlot(lemmas[k]) && lemmas[k] in lemmas;
    }
    forall e | e in RootEntries(lemmas, [])
      ensures |e.key| < rootLengths
    {
      var j :| 0 <= j < RootCount(lemmas) && RootEntries(lemmas, [])[j] == e;
      var k, i := RootOwner(lemmas, [], j);
      assert e.ToSlot() == RootSlot(lemmas[k].roots[i]) && lemmas[k] in lemmas && lemmas[k].roots[i] in lemmas[k].roots;
    }
  }

  /** Reads the lemmas twice and fills both maps. */
  method LoadLemmas(lemmaMap: Map, rootMap: Map, data: seq<Byte>, pos: nat, ghost lemmas: seq<Lemma>,
                    ghost tail: seq<Byte>)
    returns (next: nat)
    requires AllFit(lemmas) && |lemmas| < 0x8000_0000
    requires pos <= |data| && Le4(|lemmas|) + (LemmasBytes([], lemmas) + tail) <= data[pos..]
    requires Separate(lemmaMap, rootMap) && lemmaMap.AllAdding([]) && rootMap.AllAdding([])
    requires forall l <- lemmas :: LengthsOk(l, |lemmaMap.hashes|, |rootMap.hashes|)
    modifies lemmaMap.hashes, rootMap.hashes
    ensures Complete(lemmaMap, rootMap, lemmas)
    ensures lemmaMap.hashes == old(lemmaMap.hashes) && rootMap.hashes == old(rootMap.hashes)
    ensures pos <= next <= |data| && tail <= data[next..]
  {
    hide Map.AllAdding, Map.AllFilling, LemmaEntries, RootEntries, LemmasBytes, Linked, Complete, Quad, Le4,
      LemmasRemain, LengthsOk, FitsBuffer;
    var size := if |lemmaMap.hashes| > |rootMap.hashes| then |lemmaMap.hashes| else |rootMap.hashes|;
    var buffer, root := new Byte[size], new Byte[size];
    BuffersHold(lemmas, |lemmaMap.hashes|, |rootMap.hashes|, size);
    EditScript.Consume(data, pos, Le4(|lemmas|), LemmasBytes([], lemmas) + tail);
    QuadOfLe4(data, pos, |lemmas|);
    LemmasBegin(lemmas, data, pos + 4, tail);
    next := FirstPass(lemmaMap, rootMap, data, pos + 4, Quad(data, pos), buffer, root, lemmas, tail);
    FixLayout(lemmaMap, rootMap, lemmas);
    ghost var lp, rp := lemmaMap.Places(LemmaEntries(lemmas, [])), rootMap.Places(RootEntries(lemmas, []));
    next := SecondPass(lemmaMap, rootMap, data, pos + 4, Quad(data, pos), buffer, root, lemmas, lp, rp, tail);
    Finish(lemmaMap, rootMap, lemmas, lp, rp);
    LemmasEnd(lemmas, data, next, tail);
  }

  lemma BuffersHold(lemmas: seq<Lemma>, lemmaLengths: nat, rootLengths: nat, size: nat)
    requires size >= lemmaLengths && size >= rootLengths
    requires forall l <- lemmas :: LengthsOk(l, lemmaLengths, rootLengths)
    ensures AllFitBuffer(lemmas, size)
  {
  }

  lemma LemmasBegin(lemmas: seq<Lemma>, data: seq<Byte>, pos: nat, tail: seq<Byte>)
    requires AllFit(lemmas) && pos <= |data| && LemmasBytes([], lemmas) + tail <= data[pos..]
    ensures LemmasRemain(lemmas, 0, data, pos, tail)
  {
    hide LemmasBytes;
    assert lemmas[0..] == lemmas;
  }

  lemma LemmasEnd(lemmas: seq<Lemma>, data: seq<Byte>, pos: nat, tail: seq<Byte>)
    requires AllFit(lemmas) && LemmasRemain(lemmas, |lemmas|, data, pos, tail)
    ensures pos <= |data| && tail <= data[pos..]
  {
    assert lemmas[|lemmas|..] == [] && [] + tail == tail;
  }
}
