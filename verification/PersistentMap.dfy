/** A map from byte strings to payloads, one hash for each length of keys
    (src/morpho/persistent_unordered_map.h and persistent_unordered_map_encoder.h). */
module PersistentMap {
  import opened Bytes
  import opened FnvHash

  /** The entries whose keys have a given length, in order. */
  function OfLength(items: seq<Entry>, len: nat): seq<Entry> {
    if items == [] then []
    else OfLength(items[..|items| - 1], len) + if |items[|items| - 1].key| == len then [items[|items| - 1]] else []
  }

  lemma OfLengthAppend(items: seq<Entry>, e: Entry, len: nat)
    ensures OfLength(items + [e], len) == OfLength(items, len) + if |e.key| == len then [e] else []
  {
    assert (items + [e])[..|items|] == items;
  }

  lemma {:induction false} OfLengthContents(items: seq<Entry>, len: nat, e: Entry)
    ensures e in OfLength(items, len) <==> e in items && |e.key| == len
  {
    if items != [] { OfLengthContents(items[..|items| - 1], len, e); }
  }

  /** Bytes that all items take. */
  function TotalSize(items: seq<Entry>): nat {
    if items == [] then 0 else TotalSize(items[..|items| - 1]) + |items[|items| - 1].Bytes()|
  }

  lemma {:induction false} SlotsTotal(entries: seq<Entry>)
    ensures TotalWidth(Slots(entries)) == TotalSize(entries)
  {
    if entries == [] {
      assert Slots(entries) == [];
    } else {
      var front, e := entries[..|entries| - 1], entries[|entries| - 1];
      SlotsTotal(front);
      assert Slots(entries) == Slots(front) + [e.ToSlot()];
      assert Slots(entries)[..|entries| - 1] == Slots(front);
    }
  }

  lemma NoBytes()
    ensures TotalSize([]) == 0
  {
  }

  /** How many lengths of keys there are up to the longest. */
  function Lengths(items: seq<Entry>): (n: nat)
    ensures forall e <- items :: |e.key| < n
  {
    if items == [] then 0
    else
      var before, e := Lengths(items[..|items| - 1]), items[|items| - 1];
      if |e.key| < before then before else |e.key| + 1
  }

  /** The number of buckets asked for: one for every key if keys are short. */
  function Elems(len: nat, elems: nat): nat {
    if len == 0 then 1 else if len == 1 then 0x100 else if len == 2 then 0x1_0000 else elems
  }

  /** The keys of one length and their payloads take at most `limit` bytes, whichever length it is. */
  predicate HashesFit(items: seq<Entry>, limit: nat) {
    forall len :: 0 <= len < Lengths(items) ==> TotalSize(OfLength(items, len)) <= limit
  }

  lemma {:induction false} NoneOfLength(items: seq<Entry>, len: nat)
    requires len >= Lengths(items)
    ensures OfLength(items, len) == []
  {
    if items != [] { NoneOfLength(items[..|items| - 1], len); }
  }

  /** The entries stored so far have the keys and sizes announced. */
  ghost predicate SameShape(items: seq<Entry>, filled: seq<Entry>) {
    |filled| <= |items| && forall k :: 0 <= k < |filled| ==> filled[k].ToSlot() == items[k].ToSlot()
  }

  ghost predicate DistinctKeys(items: seq<Entry>) {
    forall i, j :: 0 <= i < j < |items| ==> items[i].key != items[j].key
  }

  /** Proper non-empty suffixes of a key. */
  function Suffixes(key: Key): set<Key> {
    set i | 0 < i < |key| :: key[i..]
  }

  /** Proper non-empty prefixes of a key. */
  function Prefixes(key: Key): set<Key> {
    set i | 0 < i < |key| :: key[..i]
  }

  /** The map enlarged so that looking up longer and longer affixes does not stop early; the added keys
      get the payload of a default value. The empty key is never added. */
  function Enlarged(m: map<Key, seq<Byte>>, addPrefixes: bool, addSuffixes: bool,
                    default: seq<Byte>): (r: map<Key, seq<Byte>>)
    ensures forall key :: key in m ==> key in r && r[key] == m[key]
    ensures forall key :: key in r && key !in m ==> r[key] == default && key != []
  {
    map key | key in m.Keys
        + (if addPrefixes then set k, p | k in m && p in Prefixes(k) :: p else {})
        + (if addSuffixes then set k, s | k in m && s in Suffixes(k) :: s else {})
      :: if key in m then m[key] else default
  }

  /** Copies the map and adds the prefixes or suffixes of all its keys. */
  method Enlarge(m: map<Key, seq<Byte>>, addPrefixes: bool, addSuffixes: bool, default: seq<Byte>)
    returns (r: map<Key, seq<Byte>>)
    ensures r == Enlarged(m, addPrefixes, addSuffixes, default)
  {
    hide Affix, Grown, Enlarged;
    r := m;
    var remaining := m.Keys;
    ghost var done: set<Key> := {};
    assert Grown(m, done, addPrefixes, addSuffixes, default, r) by { NotGrown(m, addPrefixes, addSuffixes, default); }
    while remaining != {}
      invariant done + remaining == m.Keys && Grown(m, done, addPrefixes, addSuffixes, default, r)
      decreases |remaining|
    {
      var key :| key in remaining;
      ghost var before := r;
      if addPrefixes {
        r := AddDefaults(r, Prefixes(key), default);
      }
      if addSuffixes {
        r := AddDefaults(r, Suffixes(key), default);
      }
      GrownNext(m, done, addPrefixes, addSuffixes, default, before, key, r);
      remaining, done := remaining - {key}, done + {key};
    }
    assert done == m.Keys;
    FullyGrown(m, addPrefixes, addSuffixes, default, r);
  }

  /** The map with the affixes of some of its keys. */
  ghost predicate Grown(m: map<Key, seq<Byte>>, done: set<Key>, addPrefixes: bool, addSuffixes: bool,
                        default: seq<Byte>, r: map<Key, seq<Byte>>) {
    && (forall key :: key in r <==> key in m || exists k <- done :: Affix(k, key, addPrefixes, addSuffixes))
    && forall key <- r :: r[key] == if key in m then m[key] else default
  }

  lemma NotGrown(m: map<Key, seq<Byte>>, addPrefixes: bool, addSuffixes: bool, default: seq<Byte>)
    ensures Grown(m, {}, addPrefixes, addSuffixes, default, m)
  {
  }

  lemma GrownNext(m: map<Key, seq<Byte>>, done: set<Key>, addPrefixes: bool, addSuffixes: bool, default: seq<Byte>,
                  before: map<Key, seq<Byte>>, key: Key, after: map<Key, seq<Byte>>)
    requires Grown(m, done, addPrefixes, addSuffixes, default, before) && key in m
    requires forall k ::
      k in after <==> k in before || (addPrefixes && k in Prefixes(key)) || (addSuffixes && k in Suffixes(key))
    requires forall k <- after :: after[k] == if k in before then before[k] else default
    ensures Grown(m, done + {key}, addPrefixes, addSuffixes, default, after)
  {
    hide Prefixes, Suffixes;
    forall k
      ensures k in after <==> k in m || exists j <- done + {key} :: Affix(j, k, addPrefixes, addSuffixes)
    {
      assert k in after <==> k in before || Affix(key, k, addPrefixes, addSuffixes);
      assert (exists j <- done :: Affix(j, k, addPrefixes, addSuffixes)) ==>
        exists j <- done + {key} :: Affix(j, k, addPrefixes, addSuffixes);
      assert key in done + {key};
    }
  }

  lemma FullyGrown(m: map<Key, seq<Byte>>, addPrefixes: bool, addSuffixes: bool, default: seq<Byte>,
                   r: map<Key, seq<Byte>>)
    requires Grown(m, m.Keys, addPrefixes, addSuffixes, default, r)
    ensures r == Enlarged(m, addPrefixes, addSuffixes, default)
  {
    hide Prefixes, Suffixes;
  }

  predicate Affix(key: Key, affix: Key, prefix: bool, suffix: bool) {
    (prefix && affix in Prefixes(key)) || (suffix && affix in Suffixes(key))
  }

  /** Looking up a missing key of the map creates it. */
  method AddDefaults(m: map<Key, seq<Byte>>, keys: set<Key>, default: seq<Byte>) returns (r: map<Key, seq<Byte>>)
    ensures forall key :: key in r <==> key in m || key in keys
    ensures forall key <- r :: r[key] == if key in m then m[key] else default
  {
    r := m;
    var remaining := keys;
    while remaining != {}
      invariant remaining <= keys
      invariant forall key :: key in r <==> key in m || key in keys - remaining
      invariant forall key <- r :: r[key] == if key in m then m[key] else default
      decreases |remaining|
    {
      var key :| key in remaining;
      if key !in r {
        r := r[key := default];
      }
      remaining := remaining - {key};
    }
  }

  /** Closure: with a key every non-empty suffix of it is stored. */
  lemma EnlargedSuffixes(m: map<Key, seq<Byte>>, default: seq<Byte>, key: Key, i: nat)
    requires key in Enlarged(m, false, true, default) && i < |key|
    ensures key[i..] in Enlarged(m, false, true, default)
  {
    if i > 0 {
      if key in m {
        assert key[i..] in Suffixes(key);
      } else {
        var k :| k in m && key in Suffixes(k);
        var j :| 0 < j < |k| && key == k[j..];
        assert key[i..] == k[i + j..] && k[i + j..] in Suffixes(k);
      }
    } else {
      assert key[0..] == key;
    }
  }

  /** Closure: with a key every non-empty prefix of it is stored. */
  lemma EnlargedPrefixes(m: map<Key, seq<Byte>>, default: seq<Byte>, key: Key, i: nat)
    requires key in Enlarged(m, true, false, default) && 0 < i <= |key|
    ensures key[..i] in Enlarged(m, true, false, default)
  {
    if i < |key| {
      if key in m {
        assert key[..i] in Prefixes(key);
      } else {
        var k :| k in m && key in Prefixes(k);
        var j :| 0 < j < |k| && key == k[..j];
        assert key[..i] == k[..i] && k[..i] in Prefixes(k);
      }
    } else {
      assert key[..i] == key;
    }
  }

  class Map {
    var hashes: seq<Hash>

    /** Hash `i` holds the keys of length `i`; so no two lengths share an object. */
    ghost predicate Valid()
      reads this, hashes
    {
      forall i :: 0 <= i < |hashes| ==> hashes[i].len == i
    }

    ghost predicate AllAdding(items: seq<Entry>)
      reads this, hashes
    {
      Valid() && forall i :: 0 <= i < |hashes| ==> hashes[i].Adding() && hashes[i].slots == Slots(OfLength(items, i))
    }

    ghost predicate AllFilling(items: seq<Entry>, filled: seq<Entry>)
      reads this, hashes
    {
      Valid() && SameShape(items, filled) && forall i :: 0 <= i < |hashes| ==>
        hashes[i].Filling() && hashes[i].slots == Slots(OfLength(items, i)) && hashes[i].entries == OfLength(filled, i)
    }

    /** Where item `k` is stored in the hash of its length, its key first. Only keys and sizes of the items
        matter. */
    ghost function Place(items: seq<Entry>, k: nat): nat
      requires k < |items|
      reads this
    {
      var len := |items[k].key|;
      var n, slots := |OfLength(items[..k], len)|, Slots(OfLength(items, len));
      if len < |hashes| && hashes[len].buckets >= 1 && n < |slots| then Position(hashes[len].buckets, slots, n) else 0
    }

    ghost function Places(items: seq<Entry>): (r: seq<nat>)
      ensures |r| == |items| && forall k :: 0 <= k < |r| ==> r[k] == Place(items, k)
      reads this
    {
      seq(|items|, k requires 0 <= k < |items| reads this => Place(items, k))
    }

    /** The map is complete: hash `i` stores the items of length `i`. */
    ghost predicate Holds(items: seq<Entry>)
      reads this, hashes
    {
      && Valid() && (forall e <- items :: |e.key| < |hashes|)
      && forall i :: 0 <= i < |hashes| ==> hashes[i].Built() && hashes[i].entries == OfLength(items, i)
    }

    constructor ()
      ensures hashes == []
    {
      hashes := [];
    }

    /** Adds the hash for the next length; the first three have one bucket for every key. */
    method Resize(elems: nat)
      requires AllAdding([])
      modifies this
      ensures AllAdding([]) && |hashes| == old(|hashes|) + 1
      ensures forall i :: 0 <= i < old(|hashes|) ==> hashes[i] == old(hashes)[i]
      ensures fresh(hashes[old(|hashes|)]) && hashes[old(|hashes|)].buckets == Buckets(Elems(old(|hashes|), elems))
    {
      var n := |hashes|;
      var h := new Hash(n, Elems(n, elems));
      hashes := hashes + [h];
    }

    method Add(key: Key, size: nat, ghost items: seq<Entry>, ghost e: Entry)
      requires AllAdding(items) && e.ToSlot() == Slot(key, size)
      modifies hashes
      ensures AllAdding(items + [e]) && hashes == old(hashes)
    {
      if |key| < |hashes| {
        hashes[|key|].Add(key, size);
      }
      forall i | 0 <= i < |hashes|
        ensures hashes[i].slots == Slots(OfLength(items + [e], i))
      {
        OfLengthAppend(items, e, i);
      }
    }

    method DoneAdding(ghost items: seq<Entry>)
      requires AllAdding(items)
      modifies hashes
      ensures AllFilling(items, []) && hashes == old(hashes)
    {
      hide Hash.Adding, Hash.Filling, Slots;
      for i := 0 to |hashes|
        invariant Valid() && hashes == old(hashes)
        invariant forall j :: 0 <= j < |hashes| ==> hashes[j].slots == Slots(OfLength(items, j))
        invariant forall j :: 0 <= j < i ==> hashes[j].Filling() && hashes[j].entries == []
        invariant forall j :: i <= j < |hashes| ==> hashes[j].Adding()
      {
        hashes[i].DoneAdding();
      }
    }

    /** Stores the key of the next item; nothing happens when it is longer than all lengths announced. */
    method Fill(key: Key, size: nat, ghost items: seq<Entry>, ghost filled: seq<Entry>)
      returns (offset: Option<nat>, ghost payload: seq<Byte>)
      requires AllFilling(items, filled) && |filled| < |items| && items[|filled|].ToSlot() == Slot(key, size)
      modifies hashes
      ensures AllFilling(items, filled + [Entry(key, payload)]) && hashes == old(hashes)
      ensures offset.None? <==> |key| >= |hashes|
      ensures offset.Some? ==> offset.value == Place(items, |filled|) + |key|
    {
      hide OfLength, Hash.Filling;
      offset, payload := None, seq(size, _ => 0);
      if |key| < |hashes| {
        NextOfLength(items, filled);
        ghost var n := |hashes[|key|].entries|;
        var o := hashes[|key|].Fill(key, size);
        offset, payload := Some(o), hashes[|key|].entries[n].payload;
      }
      forall i | 0 <= i < |hashes|
        ensures hashes[i].entries == OfLength(filled + [Entry(key, payload)], i)
      {
        OfLengthAppend(filled, Entry(key, payload), i);
      }
    }

    /** Writes bytes into the payload of item `k`. */
    method Patch(len: nat, at: nat, bytes: seq<Byte>, ghost items: seq<Entry>, ghost filled: seq<Entry>, ghost k: nat,
                 ghost from: nat)
      requires AllFilling(items, filled) && k < |filled| && len == |filled[k].key| < |hashes|
      requires from + |bytes| <= |filled[k].payload|
      requires at == Place(items, k) + len + from
      modifies hashes
      ensures AllFilling(items, filled[k := Patched(filled[k], from, bytes)])
      ensures hashes == old(hashes)
    {
      hide OfLength, Slots, Hash.Filling, Hash.Built, SameShape, Map.Place;
      ghost var e := Patched(filled[k], from, bytes);
      ghost var n := |OfLength(filled[..k], len)|;
      OfLengthUpdate(filled, k, e, len);
      FillingPlace(items, filled, k);
      hashes[len].Patch(at, bytes, n, from);
      SameShapeUpdate(items, filled, k, e);
      forall i | 0 <= i < |hashes|
        ensures hashes[i].entries == OfLength(filled[k := e], i)
      {
        OfLengthUpdate(filled, k, e, i);
      }
    }

    /** The place of an item is the position of its slot. */
    lemma FillingPlace(items: seq<Entry>, filled: seq<Entry>, k: nat)
      requires AllFilling(items, filled) && k < |filled| && |filled[k].key| < |hashes|
      ensures k < |items| && var n, h := |OfLength(filled[..k], |filled[k].key|)|, hashes[|filled[k].key|];
        h.buckets >= 1 && n < |h.entries| <= |h.slots| && Place(items, k) == Position(h.buckets, h.slots, n)
    {
      hide OfLength, Slots, Position;
      var len := |filled[k].key|;
      assert filled[k].ToSlot() == items[k].ToSlot();
      assert items[..|filled|][..k] == items[..k];
      SameShapeOfLength(items, filled[..k], len);
      OfLengthUpdate(filled, k, filled[k], len);
      SameShapeOfLength(items, filled, len);
    }

    /** A hash is as large as the items of its length together. */
    lemma DataSize(items: seq<Entry>, i: nat)
      requires Holds(items) && i < |hashes|
      ensures |hashes[i].data| == TotalSize(OfLength(items, i))
    {
      hide OfLength, Offset, AllStored, TotalWidth;
      var h := hashes[i];
      OffsetTotal(h.buckets, h.slots, i);
      assert forall k :: 0 <= k < |h.slots| ==> h.entries[k].ToSlot() == h.slots[k];
      assert h.slots == Slots(OfLength(items, i));
      SlotsTotal(OfLength(items, i));
    }

    /** So the sizes of keys and payloads alone tell how large the hashes are. */
    lemma HashBound(shapes: seq<Entry>, items: seq<Entry>, i: nat, limit: nat)
      requires Holds(items) && i < |hashes| && SameShape(shapes, items) && |shapes| == |items|
      requires HashesFit(shapes, limit)
      ensures |hashes[i].data| <= limit
    {
      hide Map.Holds, OfLength, TotalSize;
      DataSize(items, i);
      SameSlots(shapes, items, i);
      SlotsTotal(OfLength(shapes, i));
      SlotsTotal(OfLength(items, i));
      if i >= Lengths(shapes) {
        NoneOfLength(shapes, i);
        NoBytes();
      }
    }

    /** In the complete map each item is at its place. */
    lemma PlacedAt(items: seq<Entry>, filled: seq<Entry>, k: nat)
      requires Holds(filled) && SameShape(items, filled) && |items| == |filled| && k < |items|
      ensures |filled[k].key| < |hashes|
      ensures var p, data := Place(items, k), hashes[|filled[k].key|].data;
        p <= |data| && filled[k].Bytes() <= data[p..]
    {
      hide OfLength, Position;
      var len := |filled[k].key|;
      assert filled[k].ToSlot() == items[k].ToSlot() && filled[k] in filled;
      SameShapeOfLength(items, filled[..k], len);
      OfLengthUpdate(filled, k, filled[k], len);
      SameSlots(items, filled, len);
      var h, n := hashes[len], |OfLength(filled[..k], len)|;
      assert h.slots == Slots(OfLength(items, len));
      assert StoredAt(h.buckets, h.slots, h.entries[n], h.data, n) && h.entries[n].ToSlot() == h.slots[n];
      var p := Position(h.buckets, h.slots, n);
      assert h.data[p..][..|filled[k].Bytes()|] == h.data[p..p + h.slots[n].Width()];
    }

    method DoneFilling(ghost items: seq<Entry>, ghost filled: seq<Entry>)
      requires AllFilling(items, filled) && |filled| == |items| && forall e <- items :: |e.key| < |hashes|
      modifies hashes
      ensures Holds(filled) && hashes == old(hashes)
    {
      hide Hash.Built, Hash.Filling, OfLength, Slots;
      forall i | 0 <= i < |hashes|
        ensures |OfLength(filled, i)| == |OfLength(items, i)|
      {
        SameShapeOfLength(items, filled, i);
      }
      forall e | e in filled
        ensures |e.key| < |hashes|
      {
        var k :| 0 <= k < |filled| && filled[k] == e;
        assert items[k] in items && filled[k].ToSlot() == items[k].ToSlot();
      }
      for i := 0 to |hashes|
        invariant Valid() && hashes == old(hashes)
        invariant forall j ::
          0 <= j < |hashes| ==> hashes[j].entries == OfLength(filled, j) && |hashes[j].slots| == |hashes[j].entries|
        invariant forall j :: 0 <= j < i ==> hashes[j].Built()
        invariant forall j :: i <= j < |hashes| ==> hashes[j].Filling()
      {
        hashes[i].DoneFilling();
      }
    }

    /** Builds the map of the given items: counts the keys of each length, announces the lengths, adds the
        sizes of all items, and stores them. */
    method Construct(items: seq<Entry>, loadFactor: nat -> nat)
      requires hashes == []
      modifies this
      ensures Holds(items) && |hashes| == Lengths(items) && forall i :: 0 <= i < |hashes| ==> fresh(hashes[i])
      ensures forall i :: 0 <= i < |hashes| ==> hashes[i].buckets == Buckets(Elems(i, loadFactor(|OfLength(items, i)|)))
    {
      hide OfLength, Map.AllAdding, Map.AllFilling, Map.Holds, Buckets, Elems;
      var sizes := CountLengths(items);
      assert AllAdding([]) by { NoHashes(); }
      for len := 0 to |sizes|
        invariant AllAdding([]) && |hashes| == len && forall i :: 0 <= i < |hashes| ==> fresh(hashes[i])
        invariant forall i :: 0 <= i < |hashes| ==> hashes[i].buckets == Buckets(Elems(i, loadFactor(sizes[i])))
      {
        Resize(loadFactor(sizes[len]));
      }
      AddAll(items);
      DoneAdding(items);
      FillAll(items);
      DoneFilling(items, items);
    }

    lemma NoHashes()
      requires hashes == []
      ensures AllAdding([])
    {
    }

    /** How many keys of each length there are. */
    method CountLengths(items: seq<Entry>) returns (sizes: seq<nat>)
      ensures |sizes| == Lengths(items) && forall len :: 0 <= len < |sizes| ==> sizes[len] == |OfLength(items, len)|
    {
      hide OfLength, Lengths;
      sizes := [];
      NoLengths();
      for k := 0 to |items|
        invariant |sizes| == Lengths(items[..k])
        invariant forall len :: 0 <= len < |sizes| ==> sizes[len] == |OfLength(items[..k], len)|
      {
        var len := |items[k].key|;
        assert items[..k + 1] == items[..k] + [items[k]];
        OneMoreLength(items[..k], items[k]);
        if len >= |sizes| {
          sizes := sizes + seq(len + 1 - |sizes|, _ => 0);
        }
        sizes := sizes[len := sizes[len] + 1];
      }
      assert items[..|items|] == items;
    }

    lemma NoLengths()
      ensures Lengths([]) == 0
    {
    }

    lemma OneMoreLength(items: seq<Entry>, e: Entry)
      ensures Lengths(items + [e]) == if |e.key| < Lengths(items) then Lengths(items) else |e.key| + 1
      ensures forall i: nat :: |OfLength(items + [e], i)| == |OfLength(items, i)| + if i == |e.key| then 1 else 0
      ensures forall i: nat :: i >= Lengths(items) ==> OfLength(items, i) == []
    {
      hide OfLength;
      assert (items + [e])[..|items|] == items;
      forall i: nat
        ensures |OfLength(items + [e], i)| == |OfLength(items, i)| + if i == |e.key| then 1 else 0
        ensures i >= Lengths(items) ==> OfLength(items, i) == []
      {
        OfLengthAppend(items, e, i);
        if i >= Lengths(items) { NoneOfLength(items, i); }
      }
    }

    method AddAll(items: seq<Entry>)
      requires AllAdding([])
      modifies hashes
      ensures AllAdding(items) && hashes == old(hashes)
    {
      for k := 0 to |items|
        invariant AllAdding(items[..k]) && hashes == old(hashes)
      {
        assert items[k] in items;
        Add(items[k].key, |items[k].payload|, items[..k], items[k]);
        assert items[..k + 1] == items[..k] + [items[k]];
      }
      assert items[..|items|] == items;
    }

    method FillAll(items: seq<Entry>)
      requires AllFilling(items, []) && forall k :: 0 <= k < |items| ==> |items[k].key| < |hashes|
      modifies hashes
      ensures AllFilling(items, items) && hashes == old(hashes)
    {
      assert items[..0] == [];
      for k := 0 to |items|
        invariant AllFilling(items, items[..k]) && hashes == old(hashes)
      {
        StoreItem(items, k);
      }
      assert items[..|items|] == items;
    }

    /** Stores key and payload of one item. */
    method StoreItem(items: seq<Entry>, k: nat)
      requires k < |items| && AllFilling(items, items[..k]) && |items[k].key| < |hashes|
      modifies hashes
      ensures AllFilling(items, items[..k + 1]) && hashes == old(hashes)
    {
      hide OfLength;
      var item := items[k];
      var offset, payload := Fill(item.key, |item.payload|, items, items[..k]);
      ghost var filled := items[..k] + [Entry(item.key, payload)];
      assert filled[..k] == items[..k] && filled[k] == Entry(item.key, payload);
      Patch(|item.key|, offset.value, item.payload, items, filled, k, 0);
      assert Overwrite(payload, 0, item.payload) == item.payload;
      assert filled[k := item] == items[..k + 1];
    }

    /** Looking up a key: the first item with it, or nothing when there is none, or none that takes any bytes. */
    method At(key: Key, size: seq<Byte> -> nat, ghost items: seq<Entry>) returns (r: Option<nat>, ghost k: nat)
      requires Readable(items, size)
      ensures r.None? <==> forall i <- items :: i.key == key ==> i.Bytes() == []
      ensures r.Some? ==>
        k < |items| && items[k].key == key && items[k].Bytes() != [] && |key| < |hashes|
        && r.value == Place(items, k) + |key|
      ensures r.Some? ==> r.value <= |hashes[|key|].data| && items[k].payload <= hashes[|key|].data[r.value..]
    {
      hide OfLength, Hash.Readable, LengthIndices, Map.Readable, Map.Place;
      k := 0;
      if |key| >= |hashes| {
        TooLong(items, size, key);
        return None, k;
      }
      HashReadable(items, size, |key|);
      ghost var found;
      r, found := hashes[|key|].At(key, size);
      if r.Some? {
        k := FoundPlace(items, size, |key|, found);
      } else {
        NotFound(items, size, key);
      }
    }

    lemma TooLong(items: seq<Entry>, size: seq<Byte> -> nat, key: Key)
      requires Readable(items, size) && |key| >= |hashes|
      ensures forall i <- items :: i.key != key
    {
    }

    lemma NotFound(items: seq<Entry>, size: seq<Byte> -> nat, key: Key)
      requires Readable(items, size) && |key| < |hashes|
      requires var h := hashes[|key|];
        forall n :: 0 <= n < |h.entries| && h.entries[n].key == key ==> h.entries[n].Bytes() == []
      ensures forall i <- items :: i.key == key ==> i.Bytes() == []
    {
      hide OfLength;
      forall i | i in items && i.key == key
        ensures i.Bytes() == []
      {
        OfLengthContents(items, |key|, i);
        var n :| 0 <= n < |hashes[|key|].entries| && hashes[|key|].entries[n] == i;
      }
    }

    /** The item behind an entry of a hash, and that it is stored at its place. */
    lemma FoundPlace(items: seq<Entry>, size: seq<Byte> -> nat, len: nat, found: nat) returns (k: nat)
      requires Readable(items, size) && len < |hashes| && found < |hashes[len].entries|
      ensures k < |items| && items[k] == hashes[len].entries[found] && |items[k].key| == len
      ensures hashes[len].buckets >= 1 && found < |hashes[len].slots|
      ensures Place(items, k) == Position(hashes[len].buckets, hashes[len].slots, found)
    {
      hide OfLength, LengthIndices, Position, Map.Holds, Hash.Built, Delimits;
      SlotsHeld(items, len);
      LengthIndicesExact(items, len);
      k := LengthIndices(items, len)[found];
      OfLengthContents(items, len, OfLength(items, len)[found]);
      LengthIndexCount(items, len, found);
    }

    /** Writes bytes into the payload of an item of the complete map. */
    method Rewrite(len: nat, at: nat, bytes: seq<Byte>, ghost items: seq<Entry>, ghost k: nat, ghost from: nat)
      requires Holds(items) && k < |items| && len == |items[k].key|
      requires from + |bytes| <= |items[k].payload|
      requires at == Place(items, k) + len + from
      modifies hashes
      ensures Holds(items[k := Patched(items[k], from, bytes)]) && hashes == old(hashes)
    {
      hide OfLength, Slots, Hash.Filling, Hash.Built, Map.Place;
      ghost var e := Patched(items[k], from, bytes);
      ghost var n := |OfLength(items[..k], len)|;
      assert items[k] in items;
      OfLengthUpdate(items, k, e, len);
      HeldPlace(items, k);
      hashes[len].Patch(at, bytes, n, from);
      forall i | 0 <= i < |hashes|
        ensures hashes[i].entries == OfLength(items[k := e], i)
      {
        OfLengthUpdate(items, k, e, i);
      }
      ShortKeys(items, k, e, |hashes|);
    }

    lemma HeldPlace(items: seq<Entry>, k: nat)
      requires Holds(items) && k < |items|
      ensures |items[k].key| < |hashes|
      ensures var n, h := |OfLength(items[..k], |items[k].key|)|, hashes[|items[k].key|];
        h.buckets >= 1 && n < |h.entries| <= |h.slots| && Place(items, k) == Position(h.buckets, h.slots, n)
    {
      hide OfLength, Position, Map.Holds, Hash.Built;
      var len := |items[k].key|;
      assert items[k] in items;
      OfLengthUpdate(items, k, items[k], len);
      SlotsHeld(items, len);
    }

    /** What a hash of the complete map holds. */
    lemma SlotsHeld(items: seq<Entry>, len: nat)
      requires Holds(items)
      ensures forall e <- items :: |e.key| < |hashes|
      ensures len < |hashes| ==>
        var h := hashes[len];
        h.buckets >= 1 && h.entries == OfLength(items, len) && h.slots == Slots(OfLength(items, len))
    {
      hide OfLength, AllStored, Offset;
      if len < |hashes| {
        var h := hashes[len];
        assert forall n :: 0 <= n < |h.slots| ==> h.entries[n].ToSlot() == h.slots[n];
      }
    }

    /** Places depend on keys and sizes only. */
    lemma PlaceOfSlots(items: seq<Entry>, others: seq<Entry>, k: nat)
      requires |items| == |others| && k < |items|
      requires forall i :: 0 <= i < |items| ==> items[i].ToSlot() == others[i].ToSlot()
      ensures Place(items, k) == Place(others, k)
    {
      hide OfLength, Position;
      var len := |items[k].key|;
      assert items[k].ToSlot() == others[k].ToSlot();
      SameSlots(items, others, len);
      SameSlots(items[..k], others[..k], len);
      assert |Slots(OfLength(items[..k], len))| == |Slots(OfLength(others[..k], len))|;
    }

    /** What a reader of the map needs: the map is complete and all payloads can be skipped. */
    ghost predicate Readable(items: seq<Entry>, size: seq<Byte> -> nat)
      reads this, hashes
    {
      Holds(items) && forall e <- items :: Delimits(size, e.payload)
    }

    lemma HashReadable(items: seq<Entry>, size: seq<Byte> -> nat, len: nat)
      requires Readable(items, size) && len < |hashes|
      ensures hashes[len].Readable(size) && hashes[len].entries == OfLength(items, len) && hashes[len].len == len
    {
      hide OfLength;
      forall k | 0 <= k < |hashes[len].entries|
        ensures Delimits(size, hashes[len].entries[k].payload)
      {
        OfLengthContents(items, len, hashes[len].entries[k]);
      }
    }

    /** A hash without bytes holds nothing but items without bytes, and one with bytes holds none. */
    lemma EmptyItems(items: seq<Entry>, size: seq<Byte> -> nat, len: nat)
      requires Readable(items, size) && len < |hashes|
      ensures hashes[len].data == [] ==> forall e <- items :: |e.key| == len ==> e.Bytes() == []
      ensures hashes[len].data != [] ==> forall e <- items :: |e.key| == len ==> e.Bytes() != []
    {
      hide OfLength, Hash.Readable, Delimits;
      HashReadable(items, size, len);
      hashes[len].EmptyEntries(size);
      forall e | e in items && |e.key| == len
        ensures e.Bytes() == [] <==> hashes[len].data == []
      {
        OfLengthContents(items, len, e);
        var n :| 0 <= n < |hashes[len].entries| && hashes[len].entries[n] == e;
      }
    }

    lemma NothingToFind(items: seq<Entry>, size: seq<Byte> -> nat, key: Key)
      requires Readable(items, size) && |key| < |hashes|
      ensures hashes[|key|].data == [] ==> Found(items, key) == []
      ensures hashes[|key|].data != [] ==> Found(items, key) == KeyIndices(items, key)
    {
      hide KeyIndices, Map.Readable;
      EmptyItems(items, size, |key|);
      if hashes[|key|].data == [] && forall e <- items :: e.key == key ==> e.Bytes() != [] {
        NoKeyIndices(items, key);
      }
    }

    /** Visits the bucket of a key. Those of the entries visited that have the key are all such items, in
        order, if they take any bytes. */
    method Iter(key: Key, size: seq<Byte> -> nat, ghost items: seq<Entry>)
      returns (positions: seq<nat>, ghost visited: seq<nat>)
      requires Readable(items, size)
      ensures |key| >= |hashes| ==> positions == visited == []
      ensures |key| < |hashes| ==> Visited(items, hashes[|key|].data, positions, visited)
      ensures Matching(items, visited, key) == Found(items, key)
      ensures forall i :: 0 <= i < |visited| ==> visited[i] < |items| && |items[visited[i]].key| == |key|
    {
      if |key| >= |hashes| {
        NoKeyIndices(items, key);
        return [], [];
      }
      hide OfLength, Hash.Readable, BucketIndices, KeyIndices, Matching, LengthIndices, Map.Readable, Found, Visits,
        Visited, Index;
      HashReadable(items, size, |key|);
      NothingToFind(items, size, key);
      HashBuckets(items, size, |key|);
      ghost var met;
      positions, met := hashes[|key|].Iter(key, size);
      visited := GlobalVisits(items, size, |key|, positions, met);
      if hashes[|key|].data == [] {
        MatchingNone(items, key);
      } else {
        MatchingBucket(items, size, key, met, visited);
      }
      assert forall i :: 0 <= i < |visited| ==> visited[i] in visited;
    }

    /** Visits all entries, one hash after the other: every item that takes any bytes exactly once. */
    method IterAll(size: seq<Byte> -> nat, ghost items: seq<Entry>)
      returns (lengths: seq<nat>, positions: seq<nat>, ghost visited: seq<nat>)
      requires Readable(items, size)
      ensures VisitedEach(items, lengths, positions, visited)
      ensures OnceEach(items, |hashes|, visited) && forall e <- items :: |e.key| < |hashes|
    {
      hide Hash.Readable, Hash.Built, AllIndices, LengthIndices, OnceEach, Map.VisitedEach, Map.Readable, Visits,
        Visited, Through;
      lengths, positions, visited := [], [], [];
      NoneVisited(items);
      NothingVisitedYet(items);
      for len := 0 to |hashes|
        invariant VisitedEach(items, lengths, positions, visited)
        invariant OnceEach(items, len, visited)
      {
        HashReadable(items, size, len);
        HashBuckets(items, size, len);
        ghost var met;
        var more;
        more, met := hashes[len].IterAll(size);
        ghost var found := GlobalVisits(items, size, len, more, met);
        OnceEachNext(items, size, len, met, found, visited);
        VisitedMore(items, len, lengths, positions, visited, more, found);
        lengths, positions, visited := lengths + seq(|more|, _ => len), positions + more, visited + found;
      }
      KeysShort(items, size);
    }

    lemma KeysShort(items: seq<Entry>, size: seq<Byte> -> nat)
      requires Readable(items, size)
      ensures forall e <- items :: |e.key| < |hashes|
    {
    }

    lemma HashBuckets(items: seq<Entry>, size: seq<Byte> -> nat, len: nat)
      requires Readable(items, size) && len < |hashes|
      ensures hashes[len].buckets >= 1
    {
    }

    /** Where each visited item is stored. */
    ghost predicate VisitedEach(items: seq<Entry>, lengths: seq<nat>, positions: seq<nat>, visited: seq<nat>)
      reads this, hashes
    {
      && |lengths| == |positions| == |visited|
      && forall i :: 0 <= i < |visited| ==>
        && lengths[i] < |hashes| && visited[i] < |items| && |items[visited[i]].key| == lengths[i]
        && positions[i] <= |hashes[lengths[i]].data|
          && items[visited[i]].Bytes() <= hashes[lengths[i]].data[positions[i]..]
    }

    lemma NothingVisitedYet(items: seq<Entry>)
      ensures VisitedEach(items, [], [], [])
    {
    }

    lemma VisitedMore(items: seq<Entry>, len: nat, lengths: seq<nat>, positions: seq<nat>, visited: seq<nat>,
                      more: seq<nat>, found: seq<nat>)
      requires len < |hashes| && VisitedEach(items, lengths, positions, visited)
      requires Visited(items, hashes[len].data, more, found)
      requires forall j <- found :: j < |items| && |items[j].key| == len
      ensures VisitedEach(items, lengths + seq(|more|, _ => len), positions + more, visited + found)
    {
      var all, sizes, places := visited + found, lengths + seq(|more|, _ => len), positions + more;
      forall i | 0 <= i < |all|
        ensures sizes[i] < |hashes| && all[i] < |items| && |items[all[i]].key| == sizes[i]
        ensures places[i] <= |hashes[sizes[i]].data| && items[all[i]].Bytes() <= hashes[sizes[i]].data[places[i]..]
      {
        if i >= |visited| {
          var j := i - |visited|;
          assert found[j] in found && all[i] == found[j] && places[i] == more[j];
        }
      }
    }

    lemma OnceEachNext(items: seq<Entry>, size: seq<Byte> -> nat, len: nat, met: seq<nat>, found: seq<nat>,
                       visited: seq<nat>)
      requires Readable(items, size) && len < |hashes| && hashes[len].buckets >= 1 && OnceEach(items, len, visited)
      requires met == if hashes[len].data == [] then []
        else AllIndices(hashes[len].buckets, hashes[len].slots, hashes[len].buckets)
      requires |LengthIndices(items, len)| == |hashes[len].slots| && Through(LengthIndices(items, len), met, found)
      ensures OnceEach(items, len + 1, visited + found)
    {
      hide OfLength, AllIndices, LengthIndices, Position, Index;
      HashReadable(items, size, len);
      var h, all := hashes[len], LengthIndices(items, len);
      LengthIndicesExact(items, len);
      EmptyItems(items, size, len);
      forall i | 0 <= i < |found|
        ensures found[i] < |items| && |items[found[i]].key| == len && items[found[i]].Bytes() != []
      {
        assert h.entries[met[i]].ToSlot() == h.slots[met[i]] && h.slots[met[i]] in h.slots;
        assert items[found[i]] in items;
      }
      forall i, j | 0 <= i < j < |found|
        ensures found[i] != found[j]
      {
        AllIndicesDistinct(h.buckets, h.slots, h.buckets, i, j);
      }
      forall k | 0 <= k < |items| && |items[k].key| == len && items[k].Bytes() != []
        ensures k in found
      {
        assert items[k] in items;
        var n := LengthIndexOf(items, len, k);
        AllIndicesComplete(h.buckets, h.slots, h.buckets, n);
        assert h.slots[n] in h.slots;
        IndexInRange(h.buckets, h.slots[n].key);
        var i :| 0 <= i < |met| && met[i] == n;
        assert found[i] == k;
      }
      OnceEachAppend(items, len, visited, found);
    }

    /** The items behind the entries that a walk through one hash visits. */
    lemma GlobalVisits(items: seq<Entry>, size: seq<Byte> -> nat, len: nat, positions: seq<nat>, met: seq<nat>)
      returns (visited: seq<nat>)
      requires Readable(items, size) && len < |hashes| && hashes[len].buckets >= 1
      requires Visits(hashes[len].buckets, hashes[len].slots, positions, met)
      ensures Visited(items, hashes[len].data, positions, visited)
      ensures |LengthIndices(items, len)| == |hashes[len].slots| && Through(LengthIndices(items, len), met, visited)
      ensures forall j <- visited :: j < |items| && |items[j].key| == len
    {
      hide OfLength, Position, LengthIndices;
      HashReadable(items, size, len);
      var h, all := hashes[len], LengthIndices(items, len);
      LengthIndicesExact(items, len);
      visited := seq(|met|, i requires 0 <= i < |met| => all[met[i]]);
      forall i | 0 <= i < |visited|
        ensures visited[i] < |items| && |items[visited[i]].key| == len && positions[i] <= |h.data|
        ensures items[visited[i]].Bytes() <= h.data[positions[i]..]
      {
        var k := met[i];
        assert all[k] in all;
        assert StoredAt(h.buckets, h.slots, h.entries[k], h.data, k) && h.entries[k].ToSlot() == h.slots[k];
        StoredPrefix(h.buckets, h.slots, h.entries[k], h.data, k);
        assert h.slots[k] in h.slots;
      }
    }

    lemma MatchingBucket(items: seq<Entry>, size: seq<Byte> -> nat, key: Key, met: seq<nat>, visited: seq<nat>)
      requires Readable(items, size) && |key| < |hashes| && hashes[|key|].buckets >= 1
      requires met == BucketIndices(hashes[|key|].buckets, hashes[|key|].slots, Index(hashes[|key|].buckets, key))
      requires |LengthIndices(items, |key|)| == |hashes[|key|].slots|
      requires Through(LengthIndices(items, |key|), met, visited)
      requires forall j <- visited :: j < |items|
      ensures Matching(items, visited, key) == KeyIndices(items, key)
    {
      hide OfLength, BucketIndices, KeyIndices, Matching, LengthIndices;
      HashReadable(items, size, |key|);
      var h, all := hashes[|key|], LengthIndices(items, |key|);
      LengthIndicesExact(items, |key|);
      assert forall k :: 0 <= k < |h.slots| ==> h.entries[k].ToSlot() == h.slots[k];
      MatchingOfBucket(items, all, h.buckets, h.slots, key, visited);
      KeyIndicesOfLength(items, key);
    }

  }

  /** Where the visited items are stored. */
  ghost predicate Visited(items: seq<Entry>, data: seq<Byte>, positions: seq<nat>, visited: seq<nat>) {
    |positions| == |visited| && forall i :: 0 <= i < |visited| ==>
      visited[i] < |items| && positions[i] <= |data| && items[visited[i]].Bytes() <= data[positions[i]..]
  }

  /** Every item with a key shorter than `len` is listed exactly once, if it takes any bytes, and no other. */
  ghost predicate OnceEach(items: seq<Entry>, len: nat, visited: seq<nat>) {
    && (forall k :: 0 <= k < |items| ==> (k in visited <==> |items[k].key| < len && items[k].Bytes() != []))
    && (forall i :: 0 <= i < |visited| ==> visited[i] < |items|)
    && forall i, j :: 0 <= i < j < |visited| ==> visited[i] != visited[j]
  }

  lemma NoneVisited(items: seq<Entry>)
    ensures OnceEach(items, 0, [])
  {
  }

  lemma OnceEachAppend(items: seq<Entry>, len: nat, visited: seq<nat>, found: seq<nat>)
    requires OnceEach(items, len, visited)
    requires forall i ::
      0 <= i < |found| ==> found[i] < |items| && |items[found[i]].key| == len && items[found[i]].Bytes() != []
    requires forall i, j :: 0 <= i < j < |found| ==> found[i] != found[j]
    requires forall k :: 0 <= k < |items| && |items[k].key| == len && items[k].Bytes() != [] ==> k in found
    ensures OnceEach(items, len + 1, visited + found)
  {
    var all := visited + found;
    forall i, j | 0 <= i < j < |all|
      ensures all[i] != all[j]
    {
      if i < |visited| { assert all[i] in visited; }
    }
  }

  lemma ShortKeys(items: seq<Entry>, k: nat, e: Entry, len: nat)
    requires k < |items| && e.key == items[k].key && forall i <- items :: |i.key| < len
    ensures forall i <- items[k := e] :: |i.key| < len
  {
    assert items[k] in items;
  }

  /** As many items of a length come before an item as its position among them says. */
  lemma {:induction false} LengthIndexCount(items: seq<Entry>, len: nat, n: nat)
    requires n < |LengthIndices(items, len)|
    ensures LengthIndices(items, len)[n] < |items| && |OfLength(items[..LengthIndices(items, len)[n]], len)| == n
  {
    var last := |items| - 1;
    LengthIndicesExact(items[..last], len);
    if n < |LengthIndices(items[..last], len)| {
      LengthIndexCount(items[..last], len, n);
      var k := LengthIndices(items[..last], len)[n];
      assert items[..last][..k] == items[..k];
    }
  }

  /** Position of an item among those of its length. */
  lemma {:induction false} LengthIndexOf(items: seq<Entry>, len: nat, k: nat) returns (n: nat)
    requires k < |items| && |items[k].key| == len
    ensures n < |LengthIndices(items, len)| && LengthIndices(items, len)[n] == k
  {
    var last := |items| - 1;
    if k == last {
      n := |LengthIndices(items[..last], len)|;
    } else {
      n := LengthIndexOf(items[..last], len, k);
    }
  }

  /** The items with a key, in order. */
  function KeyIndices(items: seq<Entry>, key: Key): (r: seq<nat>)
    ensures forall j <- r :: j < |items| && items[j].key == key
  {
    if items == [] then []
    else
      var n := |items| - 1;
      var front := KeyIndices(items[..n], key);
      assert forall j <- front :: j < n && items[..n][j].key == key;
      front + if items[n].key == key then [n] else []
  }

  /** Those that are found: items that take no bytes are not. */
  ghost function Found(items: seq<Entry>, key: Key): (r: seq<nat>)
    ensures forall j <- r :: j < |items| && items[j].key == key
  {
    if exists e <- items :: e.key == key && e.Bytes() == [] then [] else KeyIndices(items, key)
  }

  /** Every item takes some bytes. */
  ghost predicate NoneEmpty(items: seq<Entry>) {
    forall e <- items :: e.Bytes() != []
  }

  lemma AllFound(items: seq<Entry>, key: Key)
    requires NoneEmpty(items)
    ensures Found(items, key) == KeyIndices(items, key)
  {
  }

  /** The items with keys of a given length, in order. */
  function LengthIndices(items: seq<Entry>, len: nat): (r: seq<nat>) {
    if items == [] then []
    else LengthIndices(items[..|items| - 1], len) + if |items[|items| - 1].key| == len then [|items| - 1] else []
  }

  lemma {:induction false} LengthIndicesExact(items: seq<Entry>, len: nat)
    ensures |LengthIndices(items, len)| == |OfLength(items, len)|
    ensures forall k :: 0 <= k < |LengthIndices(items, len)| ==>
      LengthIndices(items, len)[k] < |items| && items[LengthIndices(items, len)[k]] == OfLength(items, len)[k]
    ensures forall i, j ::
      0 <= i < j < |LengthIndices(items, len)| ==> LengthIndices(items, len)[i] < LengthIndices(items, len)[j]
  {
    if items != [] {
      LengthIndicesExact(items[..|items| - 1], len);
    }
  }

  /** Those of the visited items that have the key. */
  function Matching(items: seq<Entry>, visited: seq<nat>, key: Key): seq<nat> {
    if visited == [] then []
    else
      var j := visited[|visited| - 1];
      Matching(items, visited[..|visited| - 1], key) + if j < |items| && items[j].key == key then [j] else []
  }

  lemma MatchingAppend(items: seq<Entry>, visited: seq<nat>, j: nat, key: Key)
    ensures Matching(items, visited + [j], key) == Matching(items, visited, key)
      + if j < |items| && items[j].key == key then [j] else []
  {
    assert (visited + [j])[..|visited|] == visited;
  }

  /** A selection of a list of numbers. */
  ghost predicate Through(all: seq<nat>, met: seq<nat>, visited: seq<nat>) {
    |visited| == |met| && forall i :: 0 <= i < |met| ==> met[i] < |all| && visited[i] == all[met[i]]
  }

  /** Selecting a bucket and then comparing keys is the same as comparing keys. */
  lemma {:induction false} MatchingOfBucket(items: seq<Entry>, all: seq<nat>, buckets: nat, slots: seq<Slot>, key: Key,
                                            visited: seq<nat>)
    requires buckets >= 1 && |all| == |slots|
    requires Through(all, BucketIndices(buckets, slots, Index(buckets, key)), visited)
    requires forall k :: 0 <= k < |all| ==> all[k] < |items| && items[all[k]].key == slots[k].key
    ensures Matching(items, visited, key) == Matching(items, all, key)
  {
    hide Index, BucketIndices, Matching;
    var met := BucketIndices(buckets, slots, Index(buckets, key));
    if slots == [] {
      assert met == [] by { NoIndices(buckets, slots, Index(buckets, key)); }
    } else {
      var n := |slots| - 1;
      var front := BucketIndices(buckets, slots[..n], Index(buckets, key));
      LastIndex(buckets, slots, Index(buckets, key));
      assert forall i :: 0 <= i < |front| ==> front[i] in front;
      MatchingOfBucket(items, all[..n], buckets, slots[..n], key, visited[..|front|]);
      MatchingAppend(items, all[..n], all[n], key);
      assert all == all[..n] + [all[n]];
      if Index(buckets, slots[n].key) == Index(buckets, key) {
        assert visited == visited[..|front|] + [all[n]];
        MatchingAppend(items, visited[..|front|], all[n], key);
      } else {
        assert visited == visited[..|front|];
      }
    }
  }

  lemma NoIndices(buckets: nat, slots: seq<Slot>, b: nat)
    requires buckets >= 1 && slots == []
    ensures BucketIndices(buckets, slots, b) == []
  {
  }

  lemma LastIndex(buckets: nat, slots: seq<Slot>, b: nat)
    requires buckets >= 1 && slots != []
    ensures BucketIndices(buckets, slots, b) ==
      BucketIndices(buckets, slots[..|slots| - 1], b)
        + if Index(buckets, slots[|slots| - 1].key) == b then [|slots| - 1] else []
  {
  }

  lemma {:induction false} KeyIndicesOfLength(items: seq<Entry>, key: Key)
    ensures Matching(items, LengthIndices(items, |key|), key) == KeyIndices(items, key)
  {
    hide Matching, OfLength;
    if items == [] {
      MatchingNone(items, key);
      assert LengthIndices(items, |key|) == [];
    } else {
      var n := |items| - 1;
      KeyIndicesOfLength(items[..n], key);
      var front := LengthIndices(items[..n], |key|);
      LengthIndicesExact(items[..n], |key|);
      MatchingPrefix(items, n, front, key);
      MatchingAppend(items, front, n, key);
      assert Matching(items, front, key) == KeyIndices(items[..n], key);
      assert LengthIndices(items, |key|) == if |items[n].key| == |key| then front + [n] else front;
    }
  }

  lemma {:induction false} NoKeyIndices(items: seq<Entry>, key: Key)
    requires forall e <- items :: e.key != key
    ensures KeyIndices(items, key) == []
  {
    if items != [] {
      assert items[|items| - 1] in items;
      NoKeyIndices(items[..|items| - 1], key);
    }
  }

  lemma MatchingNone(items: seq<Entry>, key: Key)
    ensures Matching(items, [], key) == []
  {
  }

  lemma {:induction false} MatchingPrefix(items: seq<Entry>, n: nat, visited: seq<nat>, key: Key)
    requires n <= |items| && forall k :: 0 <= k < |visited| ==> visited[k] < n
    ensures Matching(items, visited, key) == Matching(items[..n], visited, key)
  {
    if visited != [] { MatchingPrefix(items, n, visited[..|visited| - 1], key); }
  }

  lemma StoredPrefix(buckets: nat, slots: seq<Slot>, e: Entry, data: seq<Byte>, k: nat)
    requires buckets >= 1 && k < |slots| && StoredAt(buckets, slots, e, data, k) && e.ToSlot() == slots[k]
    ensures Position(buckets, slots, k) <= |data| && e.Bytes() <= data[Position(buckets, slots, k)..]
  {
    hide Position;
    var p := Position(buckets, slots, k);
    assert data[p..][..slots[k].Width()] == data[p..p + slots[k].Width()];
  }

  lemma SameShapeUpdate(items: seq<Entry>, filled: seq<Entry>, k: nat, e: Entry)
    requires SameShape(items, filled) && k < |filled| && e.ToSlot() == filled[k].ToSlot()
    ensures SameShape(items, filled[k := e])
  {
  }

  lemma {:induction false} SameShapeOfLength(items: seq<Entry>, filled: seq<Entry>, len: nat)
    requires SameShape(items, filled)
    ensures |OfLength(filled, len)| == |OfLength(items[..|filled|], len)|
    ensures |filled| == |items| ==> |OfLength(filled, len)| == |OfLength(items, len)|
  {
    hide OfLength;
    if filled == [] {
      assert items[..0] == filled;
    } else {
      var last := |filled| - 1;
      SameShapeOfLength(items, filled[..last], len);
      assert items[..last + 1] == items[..last] + [items[last]] && filled == filled[..last] + [filled[last]];
      OfLengthAppend(items[..last], items[last], len);
      OfLengthAppend(filled[..last], filled[last], len);
      assert filled[last].ToSlot() == items[last].ToSlot();
    }
    if |filled| == |items| { assert items[..|filled|] == items; }
  }

  lemma {:induction false} SameSlots(items: seq<Entry>, filled: seq<Entry>, len: nat)
    requires SameShape(items, filled) && |items| == |filled|
    ensures Slots(OfLength(filled, len)) == Slots(OfLength(items, len))
  {
    hide OfLength;
    if filled == [] {
      assert items == filled;
    } else {
      var last := |filled| - 1;
      SameSlots(items[..last], filled[..last], len);
      assert items == items[..last] + [items[last]] && filled == filled[..last] + [filled[last]];
      OfLengthAppend(items[..last], items[last], len);
      OfLengthAppend(filled[..last], filled[last], len);
      assert filled[last].ToSlot() == items[last].ToSlot();
    }
  }

  /** The next item is the next one of its length. */
  lemma NextOfLength(items: seq<Entry>, filled: seq<Entry>)
    requires SameShape(items, filled) && |filled| < |items|
    ensures var k := |filled|;
      var len := |items[k].key|;
      |OfLength(filled, len)| == |OfLength(items[..k], len)| < |OfLength(items, len)|
      && OfLength(items, len)[|OfLength(filled, len)|] == items[k]
  {
    hide OfLength, SameShape;
    var k := |filled|;
    var len := |items[k].key|;
    assert k == |filled| < |items|;
    SameShapeOfLength(items, filled, len);
    assert items[..k + 1] == items[..k] + [items[k]];
    OfLengthAppend(items[..k], items[k], len);
    OfLengthPrefix(items, k + 1, len);
    assert OfLength(items[..k + 1], len) == OfLength(items[..k], len) + [items[k]];
  }

  /** Replacing an item by one with the same key. */
  lemma {:induction false} OfLengthUpdate(filled: seq<Entry>, k: nat, e: Entry, len: nat)
    requires k < |filled| && e.key == filled[k].key
    ensures var n := |OfLength(filled[..k], len)|;
      if |e.key| == len then n < |OfLength(filled, len)| && OfLength(filled, len)[n] == filled[k]
        && OfLength(filled[k := e], len) == OfLength(filled, len)[n := e]
      else OfLength(filled[k := e], len) == OfLength(filled, len)
  {
    var last := |filled| - 1;
    if k == last {
      assert filled[k := e][..last] == filled[..last];
    } else {
      OfLengthUpdate(filled[..last], k, e, len);
      assert filled[k := e][..last] == filled[..last][k := e];
      assert filled[..last][..k] == filled[..k];
    }
  }

  lemma {:induction false} OfLengthPrefix(items: seq<Entry>, k: nat, len: nat)
    requires k <= |items|
    ensures OfLength(items[..k], len) <= OfLength(items, len)
    decreases |items| - k
  {
    if k == |items| {
      assert items[..k] == items;
    } else {
      OfLengthPrefix(items, k + 1, len);
      assert items[..k + 1] == items[..k] + [items[k]];
      OfLengthAppend(items[..k], items[k], len);
    }
  }
}
