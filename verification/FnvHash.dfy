/** One hash of a persistent map (src/morpho/persistent_unordered_map.h): all its keys have one length,
    and its entries are laid out by counting sort over their buckets. */
module FnvHash {
  import opened Bytes
  import opened Arithmetic

  type Key = seq<Byte>

  /** An entry while only its size is known. */
  datatype Slot = Slot(key: Key, size: nat) {
    function Width(): nat { |key| + size }
  }

  datatype Entry = Entry(key: Key, payload: seq<Byte>) {
    function Bytes(): seq<Byte> { key + payload }

    function ToSlot(): Slot { Slot(key, |payload|) }
  }

  function Slots(entries: seq<Entry>): (r: seq<Slot>)
    ensures |r| == |entries| && forall k :: 0 <= k < |r| ==> r[k] == entries[k].ToSlot()
  {
    seq(|entries|, k requires 0 <= k < |entries| => entries[k].ToSlot())
  }

  function Xor(a: UInt32, b: UInt32): UInt32 {
    ((a as bv32) ^ (b as bv32)) as int
  }

  /** A byte read as a signed character and widened to 32 bits. */
  function SignExtended(b: Byte): UInt32 {
    if b < 0x80 then b else 0xFFFF_FF00 + b
  }

  /** The 32-bit FNV hash, byte after byte. */
  function Fnv(key: Key): UInt32 {
    if key == [] then 2166136261
    else Xor(Fnv(key[..|key| - 1]), SignExtended(key[|key| - 1])) * 16777619 % 0x1_0000_0000
  }

  /** Number of buckets: the smallest power of two that is not below `num`. */
  function Buckets(num: nat): (b: nat)
    ensures b >= 1 && b >= num
  {
    PowerFrom(1, num)
  }

  function PowerFrom(mask: nat, num: nat): (b: nat)
    requires mask >= 1
    ensures b >= mask && b >= num
    decreases num - mask
  {
    if mask < num then PowerFrom(2 * mask, num) else mask
  }

  /** Short keys are their own index; `mask` of the original keeps the lowest bits, the remainder here. */
  function Index(buckets: nat, key: Key): nat
    requires buckets >= 1
  {
    if |key| == 0 then 0
    else if |key| == 1 then key[0]
    else if |key| == 2 then key[0] + 0x100 * key[1]
    else Fnv(key) % buckets
  }

  /** Enough buckets for every key of length `len`. */
  predicate BucketsOk(buckets: nat, len: nat) {
    buckets >= if len == 1 then 0x100 else if len == 2 then 0x1_0000 else 1
  }

  lemma IndexInRange(buckets: nat, key: Key)
    requires BucketsOk(buckets, |key|)
    ensures Index(buckets, key) < buckets
  {
  }

  /** Keys of at most two bytes have an index of their own, so they need not be compared. */
  lemma ShortKeysInjective(buckets: nat, a: Key, b: Key)
    requires buckets >= 1 && |a| == |b| <= 2 && Index(buckets, a) == Index(buckets, b)
    ensures a == b
  {
    if |a| == 2 {
      UniqueDivision(a[1], a[0], b[1], b[0], 0x100);
    }
  }

  /** Bytes that the first slots take in bucket `b`. */
  function Filled(buckets: nat, slots: seq<Slot>, b: nat): nat
    requires buckets >= 1
  {
    if slots == [] then 0
    else
      var last := slots[|slots| - 1];
      Filled(buckets, slots[..|slots| - 1], b) + if Index(buckets, last.key) == b then last.Width() else 0
  }

  lemma FilledAppend(buckets: nat, slots: seq<Slot>, s: Slot, b: nat)
    requires buckets >= 1
    ensures Filled(buckets, slots + [s], b) == Filled(buckets, slots, b)
      + if Index(buckets, s.key) == b then s.Width() else 0
  {
    assert (slots + [s])[..|slots|] == slots;
  }

  /** Where bucket `b` starts. */
  function Offset(buckets: nat, slots: seq<Slot>, b: nat): nat
    requires buckets >= 1
  {
    if b == 0 then 0 else Offset(buckets, slots, b - 1) + Filled(buckets, slots, b - 1)
  }

  lemma {:induction false} OffsetMonotone(buckets: nat, slots: seq<Slot>, b: nat, c: nat)
    requires buckets >= 1 && b < c
    ensures Offset(buckets, slots, b) + Filled(buckets, slots, b) <= Offset(buckets, slots, c)
  {
    hide Filled;
    if b < c - 1 { OffsetMonotone(buckets, slots, b, c - 1); }
  }

  lemma {:induction false} FilledPrefix(buckets: nat, slots: seq<Slot>, j: nat, k: nat, b: nat)
    requires buckets >= 1 && j <= k <= |slots|
    ensures Filled(buckets, slots[..j], b) <= Filled(buckets, slots[..k], b)
  {
    hide Filled;
    if j < k {
      FilledPrefix(buckets, slots, j, k - 1, b);
      assert slots[..k] == slots[..k - 1] + [slots[k - 1]];
      FilledAppend(buckets, slots[..k - 1], slots[k - 1], b);
    }
  }

  /** Bytes that all slots take. */
  function TotalWidth(slots: seq<Slot>): nat {
    if slots == [] then 0 else TotalWidth(slots[..|slots| - 1]) + slots[|slots| - 1].Width()
  }

  lemma {:induction false} OffsetAppend(buckets: nat, slots: seq<Slot>, s: Slot, b: nat)
    requires buckets >= 1
    ensures Offset(buckets, slots + [s], b) == Offset(buckets, slots, b)
      + if Index(buckets, s.key) < b then s.Width() else 0
  {
    hide Filled, Index;
    if b > 0 {
      OffsetAppend(buckets, slots, s, b - 1);
      FilledAppend(buckets, slots, s, b - 1);
    }
  }

  /** The buckets together hold all slots and nothing else. */
  lemma {:induction false} OffsetTotal(buckets: nat, slots: seq<Slot>, len: nat)
    requires BucketsOk(buckets, len) && forall s <- slots :: |s.key| == len
    ensures Offset(buckets, slots, buckets) == TotalWidth(slots)
  {
    hide Filled, Index;
    if slots == [] {
      OffsetNothing(buckets, buckets);
    } else {
      var front, s := slots[..|slots| - 1], slots[|slots| - 1];
      assert slots == front + [s] && s in slots;
      OffsetTotal(buckets, front, len);
      OffsetAppend(buckets, front, s, buckets);
      IndexInRange(buckets, s.key);
    }
  }

  lemma {:induction false} OffsetNothing(buckets: nat, b: nat)
    requires buckets >= 1
    ensures Offset(buckets, [], b) == 0
  {
    if b > 0 { OffsetNothing(buckets, b - 1); }
  }

  /** Where the `k`-th entry is stored, its key first. */
  function Position(buckets: nat, slots: seq<Slot>, k: nat): nat
    requires buckets >= 1 && k < |slots|
  {
    var b := Index(buckets, slots[k].key);
    Offset(buckets, slots, b) + Filled(buckets, slots[..k], b)
  }

  /** Every entry lies inside its bucket. */
  lemma PositionInBucket(buckets: nat, slots: seq<Slot>, k: nat)
    requires buckets >= 1 && k < |slots|
    ensures var b := Index(buckets, slots[k].key);
      Position(buckets, slots, k) + slots[k].Width() == Offset(buckets, slots, b) + Filled(buckets, slots[..k + 1], b)
      && Position(buckets, slots, k) + slots[k].Width() <= Offset(buckets, slots, b + 1)
  {
    hide Filled, Index;
    var b := Index(buckets, slots[k].key);
    assert slots[..k + 1] == slots[..k] + [slots[k]] && slots[..|slots|] == slots;
    FilledAppend(buckets, slots[..k], slots[k], b);
    FilledPrefix(buckets, slots, k + 1, |slots|, b);
  }

  /** Different entries do not overlap. */
  lemma PositionsDisjoint(buckets: nat, slots: seq<Slot>, j: nat, k: nat)
    requires buckets >= 1 && j < k < |slots|
    ensures var p, q := Position(buckets, slots, j), Position(buckets, slots, k);
      p + slots[j].Width() <= q || q + slots[k].Width() <= p
  {
    hide Filled, Index;
    var b, c := Index(buckets, slots[j].key), Index(buckets, slots[k].key);
    PositionInBucket(buckets, slots, j);
    PositionInBucket(buckets, slots, k);
    if b == c {
      FilledPrefix(buckets, slots, j + 1, k, b);
    } else if b < c {
      OffsetMonotone(buckets, slots, b, c);
    } else {
      OffsetMonotone(buckets, slots, c, b);
    }
  }

  lemma PositionInside(buckets: nat, slots: seq<Slot>, k: nat, len: nat)
    requires BucketsOk(buckets, len) && k < |slots| && |slots[k].key| == len
    ensures Position(buckets, slots, k) + slots[k].Width() <= Offset(buckets, slots, buckets)
  {
    hide Filled;
    IndexInRange(buckets, slots[k].key);
    PositionInBucket(buckets, slots, k);
    var b := Index(buckets, slots[k].key);
    if b + 1 < buckets { OffsetMonotone(buckets, slots, b + 1, buckets); }
  }

  /** Walking a bucket: the next entry of the bucket at or after `j` is stored where the entries of the
      bucket before `j` end. */
  lemma {:induction false} NextInBucket(buckets: nat, slots: seq<Slot>, b: nat, j: nat) returns (k: nat)
    requires buckets >= 1 && j <= |slots|
    requires Filled(buckets, slots[..j], b) < Filled(buckets, slots, b)
    ensures j <= k < |slots| && Index(buckets, slots[k].key) == b
    ensures Position(buckets, slots, k) == Offset(buckets, slots, b) + Filled(buckets, slots[..j], b)
    ensures forall i :: j <= i < k ==> Index(buckets, slots[i].key) != b
    decreases |slots| - j
  {
    hide Filled, Index, Offset;
    assert slots[..|slots|] == slots;
    assert slots[..j + 1] == slots[..j] + [slots[j]];
    FilledAppend(buckets, slots[..j], slots[j], b);
    if Index(buckets, slots[j].key) == b {
      k := j;
    } else {
      k := NextInBucket(buckets, slots, b, j + 1);
    }
  }

  /** When the entries before `j` fill the bucket, none of the others belongs to it. */
  lemma {:induction false} BucketExhausted(buckets: nat, slots: seq<Slot>, b: nat, j: nat, k: nat)
    requires buckets >= 1 && j <= k < |slots| && forall s <- slots :: s.Width() > 0
    requires Filled(buckets, slots[..j], b) == Filled(buckets, slots, b)
    ensures Index(buckets, slots[k].key) != b
  {
    hide Filled, Index;
    assert slots[..|slots|] == slots;
    assert slots[..k + 1] == slots[..k] + [slots[k]] && slots[k] in slots;
    FilledAppend(buckets, slots[..k], slots[k], b);
    FilledPrefix(buckets, slots, j, k, b);
    FilledPrefix(buckets, slots, k + 1, |slots|, b);
  }

  /** The entries of bucket `b`, in the order in which they were added. */
  function BucketIndices(buckets: nat, slots: seq<Slot>, b: nat): (r: seq<nat>)
    requires buckets >= 1
    ensures forall k <- r :: k < |slots|
  {
    if slots == [] then []
    else
      var last := |slots| - 1;
      var front := BucketIndices(buckets, slots[..last], b);
      assert forall k <- front :: k < last;
      front + if Index(buckets, slots[last].key) == b then [last] else []
  }

  lemma {:induction false} BucketIndicesExact(buckets: nat, slots: seq<Slot>, b: nat)
    requires buckets >= 1
    ensures forall k ::
      0 <= k < |slots| ==> (k in BucketIndices(buckets, slots, b) <==> Index(buckets, slots[k].key) == b)
    ensures forall i, j :: 0 <= i < j < |BucketIndices(buckets, slots, b)| ==>
      BucketIndices(buckets, slots, b)[i] < BucketIndices(buckets, slots, b)[j]
  {
    hide Index;
    if slots != [] {
      BucketIndicesExact(buckets, slots[..|slots| - 1], b);
      var front := BucketIndices(buckets, slots[..|slots| - 1], b);
      assert forall i :: 0 <= i < |front| ==> front[i] in front;
    }
  }

  /** The entries of all buckets before `b`, bucket after bucket. */
  function AllIndices(buckets: nat, slots: seq<Slot>, b: nat): (r: seq<nat>)
    requires buckets >= 1
    ensures forall k <- r :: k < |slots|
  {
    if b == 0 then []
    else
      var front, last := AllIndices(buckets, slots, b - 1), BucketIndices(buckets, slots, b - 1);
      var r := front + last;
      assert forall k <- r :: k in front || k in last;
      r
  }

  /** Each entry occurs in the enumeration of the buckets before `b` iff its own bucket is one of them ... */
  lemma {:induction false} AllIndicesComplete(buckets: nat, slots: seq<Slot>, b: nat, k: nat)
    requires buckets >= 1 && k < |slots|
    ensures k in AllIndices(buckets, slots, b) <==> Index(buckets, slots[k].key) < b
  {
    hide Index, BucketIndices;
    if b > 0 {
      AllIndicesComplete(buckets, slots, b - 1, k);
      BucketIndicesExact(buckets, slots, b - 1);
    }
  }

  /** ... and it occurs only once. */
  lemma {:induction false} AllIndicesDistinct(buckets: nat, slots: seq<Slot>, b: nat, i: nat, j: nat)
    requires buckets >= 1 && i < j < |AllIndices(buckets, slots, b)|
    ensures AllIndices(buckets, slots, b)[i] != AllIndices(buckets, slots, b)[j]
  {
    hide Index, BucketIndices;
    var all, last := AllIndices(buckets, slots, b - 1), BucketIndices(buckets, slots, b - 1);
    BucketIndicesExact(buckets, slots, b - 1);
    if j < |all| {
      AllIndicesDistinct(buckets, slots, b - 1, i, j);
    } else if i < |all| {
      assert all[i] in all && last[j - |all|] in last;
      AllIndicesComplete(buckets, slots, b - 1, all[i]);
    }
  }

  /** Replaces a part of a buffer. */
  function Overwrite(data: seq<Byte>, at: nat, bytes: seq<Byte>): (r: seq<Byte>)
    requires at + |bytes| <= |data|
    ensures |r| == |data| && r[at..at + |bytes|] == bytes
  {
    var front := data[..at] + bytes;
    var r := front + data[at + |bytes|..];
    assert front[at..] == bytes && r[..|front|] == front;
    assert r[at..|front|] == r[..|front|][at..];
    r
  }

  lemma OverwriteElsewhere(data: seq<Byte>, at: nat, bytes: seq<Byte>, from: nat, to: nat)
    requires at + |bytes| <= |data| && from <= to <= |data| && (to <= at || at + |bytes| <= from)
    ensures Overwrite(data, at, bytes)[from..to] == data[from..to]
  {
  }

  /** A reader of payloads finds their end whatever follows them. */
  ghost predicate Delimits(size: seq<Byte> -> nat, payload: seq<Byte>) {
    forall rest :: size(payload + rest) == |payload|
  }

  /** The bytes of the `k`-th entry are where they belong. */
  ghost predicate StoredAt(buckets: nat, slots: seq<Slot>, entry: Entry, data: seq<Byte>, k: nat)
    requires buckets >= 1 && k < |slots|
  {
    var p := Position(buckets, slots, k);
    p + slots[k].Width() <= |data| && data[p..p + slots[k].Width()] == entry.Bytes()
  }

  ghost predicate AllStored(buckets: nat, slots: seq<Slot>, entries: seq<Entry>, data: seq<Byte>)
    requires buckets >= 1 && |entries| <= |slots|
  {
    forall k :: 0 <= k < |entries| ==> StoredAt(buckets, slots, entries[k], data, k)
  }

  lemma OffsetStep(buckets: nat, slots: seq<Slot>, b: nat)
    requires buckets >= 1
    ensures Offset(buckets, slots, 0) == 0
    ensures Offset(buckets, slots, b + 1) == Offset(buckets, slots, b) + Filled(buckets, slots, b)
  {
  }

  /** Storing one more entry leaves the others alone. */
  lemma StoreNext(buckets: nat, slots: seq<Slot>, entries: seq<Entry>, data: seq<Byte>, entry: Entry)
    requires buckets >= 1 && |entries| < |slots| && AllStored(buckets, slots, entries, data)
    requires slots[|entries|] == entry.ToSlot()
    requires Position(buckets, slots, |entries|) + slots[|entries|].Width() <= |data|
    ensures |entry.Bytes()| == slots[|entries|].Width()
    ensures AllStored(buckets, slots, entries + [entry],
      Overwrite(data, Position(buckets, slots, |entries|), entry.Bytes()))
  {
    hide Position;
    var k := |entries|;
    var position := Position(buckets, slots, k);
    var after := Overwrite(data, position, entry.Bytes());
    forall j | 0 <= j < k
      ensures StoredAt(buckets, slots, entries[j], after, j)
    {
      assert StoredAt(buckets, slots, entries[j], data, j);
      PositionsDisjoint(buckets, slots, j, k);
      var p := Position(buckets, slots, j);
      OverwriteElsewhere(data, position, entry.Bytes(), p, p + slots[j].Width());
    }
    assert StoredAt(buckets, slots, entry, after, k);
  }

  /** Writing the key alone leaves the bytes of the payload as they are. */
  lemma KeyWritten(data: seq<Byte>, position: nat, key: Key, size: nat)
    requires position + |key| + size <= |data|
    ensures Overwrite(data, position, key) ==
            Overwrite(data, position, key + data[position + |key|..position + |key| + size])
  {
    var payload := data[position + |key|..position + |key| + size];
    assert data[position + |key|..] == payload + data[position + |key| + size..];
  }

  /** The entry whose payload is overwritten in part. */
  function Patched(e: Entry, from: nat, bytes: seq<Byte>): Entry
    requires from + |bytes| <= |e.payload|
  {
    Entry(e.key, Overwrite(e.payload, from, bytes))
  }

  /** Patching one payload leaves the other entries alone. */
  lemma PatchOne(buckets: nat, slots: seq<Slot>, entries: seq<Entry>, data: seq<Byte>, k: nat, p: nat, from: nat,
                 bytes: seq<Byte>)
    requires buckets >= 1 && k < |entries| <= |slots| && AllStored(buckets, slots, entries, data)
    requires forall j :: 0 <= j < |entries| ==> entries[j].ToSlot() == slots[j]
    requires from + |bytes| <= |entries[k].payload|
    requires p == Position(buckets, slots, k) && p + |entries[k].key| + |entries[k].payload| <= |data|
    ensures AllStored(buckets, slots, entries[k := Patched(entries[k], from, bytes)],
                      Overwrite(data, p + |entries[k].key| + from, bytes))
  {
    hide Position, Filled, Index, Offset;
    var at := p + |entries[k].key| + from;
    var entry := Patched(entries[k], from, bytes);
    var after, updated := Overwrite(data, at, bytes), entries[k := entry];
    assert entries[k].ToSlot() == slots[k];
    forall j | 0 <= j < |entries|
      ensures StoredAt(buckets, slots, updated[j], after, j)
    {
      assert StoredAt(buckets, slots, entries[j], data, j);
      if j == k {
        PatchedEntry(data, p, entries[k], from, bytes);
      } else {
        PatchedElsewhere(buckets, slots, entries[j], data, k, j, at, bytes);
      }
    }
  }

  /** Writing inside the place of one entry leaves the place of another alone. */
  lemma PatchedElsewhere(buckets: nat, slots: seq<Slot>, e: Entry, data: seq<Byte>, k: nat, j: nat, at: nat,
                         bytes: seq<Byte>)
    requires buckets >= 1 && k < |slots| && j < |slots| && j != k && StoredAt(buckets, slots, e, data, j)
    requires Position(buckets, slots, k) <= at && at + |bytes| <= Position(buckets, slots, k) + slots[k].Width()
    requires at + |bytes| <= |data|
    ensures StoredAt(buckets, slots, e, Overwrite(data, at, bytes), j)
  {
    hide Position;
    if j < k { PositionsDisjoint(buckets, slots, j, k); } else { PositionsDisjoint(buckets, slots, k, j); }
    var q := Position(buckets, slots, j);
    OverwriteElsewhere(data, at, bytes, q, q + slots[j].Width());
  }

  lemma PatchedEntry(data: seq<Byte>, p: nat, e: Entry, from: nat, bytes: seq<Byte>)
    requires p + |e.Bytes()| <= |data| && data[p..p + |e.Bytes()|] == e.Bytes()
    requires from + |bytes| <= |e.payload|
    ensures Overwrite(data, p + |e.key| + from, bytes)[p..p + |e.Bytes()|] == Patched(e, from, bytes).Bytes()
  {
    var n := |e.Bytes()|;
    var window := Overwrite(data, p + |e.key| + from, bytes)[p..p + n];
    forall i | 0 <= i < n
      ensures window[i] == Patched(e, from, bytes).Bytes()[i]
    {
      assert data[p + i] == data[p..p + n][i] == e.Bytes()[i];
    }
  }

  /** A complete hash as a value: where its buckets start, and its bytes. */
  ghost predicate Laid(len: nat, hash: seq<nat>, data: seq<Byte>, entries: seq<Entry>) {
    |hash| >= 2 && var buckets, slots := |hash| - 1, Slots(entries);
    && BucketsOk(buckets, len) && (forall s <- slots :: |s.key| == len)
    && |data| == Offset(buckets, slots, buckets) && AllStored(buckets, slots, entries, data)
    && forall b :: 0 <= b <= buckets ==> hash[b] == Offset(buckets, slots, b)
  }

  class Hash {
    const len: nat
    const buckets: nat
    var hash: seq<nat>
    var data: seq<Byte>
    ghost var slots: seq<Slot>
    ghost var entries: seq<Entry>

    ghost predicate WellFormed()
      reads this
    {
      && BucketsOk(buckets, len) && |hash| == buckets + 1
      && (forall s <- slots :: |s.key| == len)
      && |entries| <= |slots| && forall k :: 0 <= k < |entries| ==> entries[k].ToSlot() == slots[k]
    }

    ghost predicate Stored()
      requires WellFormed()
      reads this
    {
      |data| == Offset(buckets, slots, buckets) && AllStored(buckets, slots, entries, data)
    }

    /** While sizes are added, `hash` counts the bytes of each bucket. */
    ghost predicate Adding()
      reads this
    {
      WellFormed() && entries == [] && forall b :: 0 <= b <= buckets ==> hash[b] == Filled(buckets, slots, b)
    }

    /** While entries are filled, `hash` says where the next entry of each bucket goes. */
    ghost predicate Filling()
      reads this
    {
      WellFormed() && Stored() && forall b :: 0 <= b <= buckets ==>
        hash[b] == Offset(buckets, slots, b) + Filled(buckets, slots[..|entries|], b)
    }

    /** In the end bucket `b` extends from `hash[b]` to `hash[b + 1]`. */
    ghost predicate Built()
      reads this
    {
      WellFormed() && Stored() && |entries| == |slots|
        && forall b :: 0 <= b <= buckets ==> hash[b] == Offset(buckets, slots, b)
    }

    constructor (len: nat, num: nat)
      requires num >= if len == 0 then 0 else if len == 1 then 0x100 else if len == 2 then 0x1_0000 else 0
      ensures Adding() && this.len == len && slots == [] && buckets == Buckets(num)
    {
      this.len, buckets := len, Buckets(num);
      hash := seq(Buckets(num) + 1, _ => 0);
      data := [];
      slots, entries := [], [];
    }

    /** A hash as it was saved. */
    constructor Saved(len: nat, hash: seq<nat>, data: seq<Byte>, ghost entries: seq<Entry>)
      requires Laid(len, hash, data, entries)
      ensures Built() && this.len == len && this.hash == hash && this.data == data && this.entries == entries
    {
      this.len, buckets, this.hash, this.data := len, |hash| - 1, hash, data;
      this.slots, this.entries := Slots(entries), entries;
    }

    lemma IsLaid()
      requires Built()
      ensures Laid(len, hash, data, entries)
    {
      hide Offset, AllStored;
      assert Slots(entries) == slots;
    }

    method Add(key: Key, size: nat)
      requires Adding() && |key| == len
      modifies this
      ensures Adding() && slots == old(slots) + [Slot(key, size)]
    {
      hide Index, Filled;
      var index := Index(buckets, key);
      IndexInRange(buckets, key);
      hash := hash[index := hash[index] + len + size];
      forall b | 0 <= b <= buckets
        ensures hash[b] == Filled(buckets, old(slots) + [Slot(key, size)], b)
      {
        FilledAppend(buckets, old(slots), Slot(key, size), b);
      }
      slots := slots + [Slot(key, size)];
    }

    /** Turns the sizes into offsets. */
    method DoneAdding()
      requires Adding()
      modifies this
      ensures Filling() && slots == old(slots) && entries == []
    {
      hide Filled, Offset;
      OffsetStep(buckets, slots, 0);
      var total := 0;
      for b := 0 to |hash|
        invariant |hash| == buckets + 1 && slots == old(slots) && entries == []
        invariant b <= buckets ==> total == Offset(buckets, slots, b)
        invariant b == buckets + 1 ==> total == Offset(buckets, slots, buckets) + Filled(buckets, slots, buckets)
        invariant forall c :: 0 <= c < b ==> hash[c] == Offset(buckets, slots, c)
        invariant forall c :: b <= c <= buckets ==> hash[c] == Filled(buckets, slots, c)
      {
        OffsetStep(buckets, slots, b);
        total := total + hash[b];
        hash := hash[b := total - hash[b]];
      }
      NothingBeyond(buckets, slots, len);
      data := seq(total, _ => 0);
      forall b | 0 <= b <= buckets
        ensures Filled(buckets, slots[..0], b) == 0
      {
        NothingFilled(buckets, slots, b);
      }
    }

    /** Stores the key of the next entry and returns where its payload belongs; the payload itself is
        written later. */
    method Fill(key: Key, size: nat) returns (offset: nat)
      requires Filling() && |entries| < |slots| && slots[|entries|] == Slot(key, size)
      modifies this
      ensures Filling() && slots == old(slots)
      ensures |entries| == |old(entries)| + 1 && entries[..|old(entries)|] == old(entries)
      ensures entries[|old(entries)|].ToSlot() == Slot(key, size)
      ensures buckets >= 1 && offset == Position(buckets, slots, |old(entries)|) + len
    {
      hide Index, Filled, Offset, AllStored, StoredAt;
      assert slots[|entries|] in slots;
      ghost var k := |entries|;
      var index := Index(buckets, key);
      IndexInRange(buckets, key);
      PositionInside(buckets, slots, k, len);
      var position := hash[index];
      ghost var payload := data[position + len..position + len + size];
      StoreNext(buckets, slots, entries, data, Entry(key, payload));
      KeyWritten(data, position, key, size);
      data := Overwrite(data, position, key);
      hash := hash[index := hash[index] + len + size];
      offset := position + len;
      entries := entries + [Entry(key, payload)];
      forall b | 0 <= b <= buckets
        ensures hash[b] == Offset(buckets, slots, b) + Filled(buckets, slots[..k + 1], b)
      {
        assert slots[..k + 1] == slots[..k] + [slots[k]];
        FilledAppend(buckets, slots[..k], slots[k], b);
      }
    }

    /** Writes bytes into the payload of an entry; the layout stays. */
    method Patch(at: nat, bytes: seq<Byte>, ghost k: nat, ghost from: nat)
      requires Filling() || Built()
      requires buckets >= 1 && k < |entries| <= |slots| && from + |bytes| <= |entries[k].payload|
      requires at == Position(buckets, slots, k) + len + from
      modifies this`data, this`entries
      ensures old(Filling()) ==> Filling()
      ensures old(Built()) ==> Built()
      ensures entries == old(entries)[k := Patched(old(entries)[k], from, bytes)]
    {
      hide Index, Filled, Offset, AllStored, StoredAt;
      assert slots[k] in slots && entries[k].ToSlot() == slots[k];
      PositionInside(buckets, slots, k, len);
      assert |entries[k].key| == len;
      PatchOne(buckets, slots, entries, data, k, at - len - from, from, bytes);
      data := Overwrite(data, at, bytes);
      entries := entries[k := Patched(entries[k], from, bytes)];
    }

    /** Shifts the offsets back by one bucket. */
    method DoneFilling()
      requires Filling() && |entries| == |slots|
      modifies this
      ensures Built() && slots == old(slots) && entries == old(entries) && data == old(data)
    {
      hide Filled, Offset, AllStored;
      assert slots[..|slots|] == slots;
      var i := |hash| - 1;
      while i >= 0
        invariant -1 <= i <= buckets && |hash| == buckets + 1
        invariant data == old(data) && slots == old(slots) && entries == old(entries)
        invariant forall b :: 0 <= b <= i ==> hash[b] == Offset(buckets, slots, b) + Filled(buckets, slots, b)
        invariant forall b :: i < b <= buckets ==> hash[b] == Offset(buckets, slots, b)
      {
        OffsetStep(buckets, slots, if i > 0 then i - 1 else 0);
        hash := hash[i := if i > 0 then hash[i - 1] else 0];
        i := i - 1;
      }
    }

    /** No entry takes no bytes at all. */
    ghost predicate NoneEmpty()
      reads this
    {
      forall s <- slots :: s.Width() > 0
    }

    /** Whoever reads the entries can find the end of each payload. */
    ghost predicate Readable(size: seq<Byte> -> nat)
      reads this
    {
      Built() && forall k :: 0 <= k < |entries| ==> Delimits(size, entries[k].payload)
    }

    /** An empty key with an empty payload takes no bytes. A hash without bytes holds nothing but such entries, and
        a readable one with bytes holds none. */
    lemma EmptyEntries(size: seq<Byte> -> nat)
      requires Readable(size)
      ensures data == [] <==> forall k :: 0 <= k < |entries| ==> entries[k].Bytes() == []
      ensures data != [] ==> forall k :: 0 <= k < |entries| ==> entries[k].Bytes() != []
    {
      hide Offset, Position, Delimits;
      OffsetTotal(buckets, slots, len);
      NothingAtAll(slots);
      forall k | 0 <= k < |entries|
        ensures slots[k].Width() == |entries[k].Bytes()|
        ensures entries[k].Bytes() == [] ==> data == []
      {
        assert entries[k].ToSlot() == slots[k] && slots[k] in slots;
        if entries[k].Bytes() == [] {
          forall i | 0 <= i < |entries|
            ensures slots[i].Width() == 0
          {
            assert entries[i].ToSlot() == slots[i] && slots[i] in slots;
            NoSizes(size, entries[k].payload, entries[i].payload);
          }
        }
      }
    }

    lemma AllHaveBytes(size: seq<Byte> -> nat)
      requires Readable(size) && data != []
      ensures NoneEmpty()
    {
      hide Delimits, Offset, AllStored;
      EmptyEntries(size);
      forall s | s in slots
        ensures s.Width() > 0
      {
        var k :| 0 <= k < |slots| && slots[k] == s;
        assert entries[k].ToSlot() == s && entries[k].Bytes() != [];
      }
    }

    lemma NoBytesNoEntries(size: seq<Byte> -> nat, key: Key)
      requires Readable(size) && data == []
      ensures forall k :: 0 <= k < |entries| && entries[k].key == key ==> entries[k].Bytes() == []
    {
      hide Delimits, Offset, AllStored;
      EmptyEntries(size);
    }

    /** Where the entry that a walk through the bucket meets is stored, and what it is. */
    lemma Meet(size: seq<Byte> -> nat, b: nat, j: nat, p: nat) returns (k: nat)
      requires Readable(size) && NoneEmpty() && b < buckets && j <= |slots|
      requires p == Offset(buckets, slots, b) + Filled(buckets, slots[..j], b) < Offset(buckets, slots, b + 1)
      ensures j <= k < |slots| && Index(buckets, slots[k].key) == b
      ensures (forall i :: j <= i < k ==> Index(buckets, slots[i].key) != b)
      ensures p == Position(buckets, slots, k) && p + slots[k].Width() <= |data|
      ensures data[p..p + len] == entries[k].key && entries[k].payload <= data[p + len..]
      ensures size(data[p + len..]) == |entries[k].payload| && len == |entries[k].key|
      ensures p + slots[k].Width() == Offset(buckets, slots, b) + Filled(buckets, slots[..k + 1], b)
    {
      hide Filled, Index, Offset, Position, Delimits, Hash.NoneEmpty;
      OffsetStep(buckets, slots, b);
      k := NextInBucket(buckets, slots, b, j);
      PositionInBucket(buckets, slots, k);
      assert slots[k] in slots && entries[k].ToSlot() == slots[k];
      assert StoredAt(buckets, slots, entries[k], data, k);
      assert Delimits(size, entries[k].payload);
      EntryRead(data, p, entries[k], size);
    }

    /** The payload of the first entry with this key, if there is one that takes any bytes. Keys of at most two
        bytes are not compared: their buckets hold no other key. */
    method At(key: Key, size: seq<Byte> -> nat) returns (r: Option<nat>, ghost found: nat)
      requires Readable(size) && |key| == len
      ensures r.None? ==> forall k :: 0 <= k < |entries| && entries[k].key == key ==> entries[k].Bytes() == []
      ensures r.Some? ==> FirstAt(entries, key, found) && entries[found].Bytes() != []
      ensures r.Some? ==> r.value == Position(buckets, slots, found) + len
      ensures r.Some? ==> r.value <= |data| && entries[found].payload <= data[r.value..]
    {
      hide Filled, Offset, Position, Index, Fnv, Hash.NoneEmpty, Hash.Built, Hash.Readable;
      BucketsExist(size);
      var index := Index(buckets, key);
      IndexInRange(buckets, key);
      BucketBounds(index);
      var p, end := hash[index], hash[index + 1];
      ghost var j := 0;
      found := 0;
      NothingFilled(buckets, slots, index);
      if data != [] { AllHaveBytes(size); } else { NoBytesNoEntries(size, key); }
      if len <= 2 {
        if p == end {
          if data != [] { NoneLeft(index, 0, key); }
          return None, 0;
        }
        ghost var k := Meet(size, index, 0, p);
        ShortBucket(key, k);
        EntryHasBytes(k);
        return Some(p + len), k;
      }
      while p < end
        invariant j <= |slots| && p == Offset(buckets, slots, index) + Filled(buckets, slots[..j], index) <= end
        invariant forall i :: 0 <= i < j ==> entries[i].key != key
        decreases |slots| - j
      {
        ghost var k := Meet(size, index, j, p);
        PositionInBucket(buckets, slots, k);
        forall i | j <= i < k
          ensures entries[i].key != key
        {
          assert entries[i].ToSlot() == slots[i];
        }
        if data[p..p + len] == key {
          EntryHasBytes(k);
          return Some(p + len), k;
        }
        p := p + len;
        p := p + size(data[p..]);
        j := k + 1;
      }
      if data != [] { NoneLeft(index, j, key); }
      r := None;
    }

    lemma BucketsExist(size: seq<Byte> -> nat)
      requires Readable(size)
      ensures Built() && WellFormed() && |entries| == |slots|
    {
      hide Delimits;
    }

    /** Where a bucket lies. */
    lemma BucketBounds(b: nat)
      requires Built() && b < buckets
      ensures |hash| == buckets + 1 && hash[b] == Offset(buckets, slots, b)
      ensures hash[b + 1] == Offset(buckets, slots, b + 1)
      ensures hash[b] <= hash[b + 1] <= |data|
    {
      hide Offset;
      OffsetGrows(b);
    }

    lemma EntryHasBytes(k: nat)
      requires Built() && NoneEmpty() && k < |entries|
      ensures entries[k].Bytes() != []
    {
      hide Offset, AllStored;
      assert slots[k] in slots && entries[k].ToSlot() == slots[k];
      assert |entries[k].Bytes()| == slots[k].Width();
    }

    lemma OffsetGrows(b: nat)
      requires Built() && b < buckets
      ensures Offset(buckets, slots, b) <= Offset(buckets, slots, b + 1) <= |data|
    {
      hide Filled;
      OffsetStep(buckets, slots, b);
      if b + 1 < buckets { OffsetMonotone(buckets, slots, b + 1, buckets); }
    }

    /** A walk that reached the end of the bucket of a key has met all entries with that key. */
    lemma NoneLeft(b: nat, j: nat, key: Key)
      requires Built() && NoneEmpty() && b == Index(buckets, key) < buckets && j <= |slots|
      requires Offset(buckets, slots, b) + Filled(buckets, slots[..j], b) >= Offset(buckets, slots, b + 1)
      requires forall i :: 0 <= i < j ==> entries[i].key != key
      ensures forall k :: 0 <= k < |entries| ==> entries[k].key != key
    {
      hide Filled, Index, Offset;
      OffsetStep(buckets, slots, b);
      FilledPrefix(buckets, slots, j, |slots|, b);
      assert slots[..|slots|] == slots;
      forall k | 0 <= k < |entries|
        ensures entries[k].key != key
      {
        assert entries[k].ToSlot() == slots[k];
        if k >= j { BucketExhausted(buckets, slots, b, j, k); }
      }
    }

    lemma ShortBucket(key: Key, k: nat)
      requires Built() && |key| == len <= 2 && k < |slots| && Index(buckets, slots[k].key) == Index(buckets, key)
      requires forall i :: 0 <= i < k ==> Index(buckets, slots[i].key) != Index(buckets, key)
      ensures entries[k].key == key && forall i :: 0 <= i < k ==> entries[i].key != key
    {
      hide Index;
      assert slots[k] in slots && entries[k].ToSlot() == slots[k];
      ShortKeysInjective(buckets, entries[k].key, key);
      forall i | 0 <= i < k
        ensures entries[i].key != key
      {
        assert entries[i].ToSlot() == slots[i];
      }
    }

    /** Visits the entries of the bucket of a key, all of them (if they take any bytes) and in the order of their
        addition; it is for the visitor to compare keys. Returns where the entries are stored. */
    method Iter(key: Key, size: seq<Byte> -> nat) returns (positions: seq<nat>, ghost visited: seq<nat>)
      requires Readable(size) && |key| == len
      ensures visited == if data == [] then [] else BucketIndices(buckets, slots, Index(buckets, key))
      ensures Visits(buckets, slots, positions, visited)
    {
      hide Filled, Offset, Position, Index, Visits, BucketIndices, Hash.NoneEmpty, Hash.Built, Hash.Readable;
      BucketsExist(size);
      var index := Index(buckets, key);
      IndexInRange(buckets, key);
      BucketBounds(index);
      var p, end := hash[index], hash[index + 1];
      positions, visited := [], [];
      NoVisits(buckets, slots);
      ghost var j := 0;
      if data != [] { AllHaveBytes(size); }
      NothingFilled(buckets, slots, index);
      NothingVisited(buckets, slots, index);
      while p < end
        invariant j <= |slots| && p == Offset(buckets, slots, index) + Filled(buckets, slots[..j], index) <= end
        invariant visited == BucketIndices(buckets, slots[..j], index) && (data == [] ==> visited == [])
        invariant Visits(buckets, slots, positions, visited)
        decreases |slots| - j
      {
        ghost var k := Meet(size, index, j, p);
        PositionInBucket(buckets, slots, k);
        VisitNext(buckets, slots, index, j, k);
        VisitsAppend(buckets, slots, positions, visited, k);
        positions, visited := positions + [p], visited + [k];
        p := p + len;
        p := p + size(data[p..]);
        j := k + 1;
      }
      if data != [] { VisitedAll(index, j); }
    }

    /** A walk that reached the end of a bucket has visited all of it. */
    lemma VisitedAll(b: nat, j: nat)
      requires Built() && NoneEmpty() && b < buckets && j <= |slots|
      requires Offset(buckets, slots, b) + Filled(buckets, slots[..j], b) == Offset(buckets, slots, b + 1)
      ensures BucketIndices(buckets, slots[..j], b) == BucketIndices(buckets, slots, b)
    {
      hide Filled, Index, Offset;
      OffsetStep(buckets, slots, b);
      assert slots[..|slots|] == slots;
      forall k | j <= k < |slots|
        ensures Index(buckets, slots[k].key) != b
      {
        BucketExhausted(buckets, slots, b, j, k);
      }
      VisitNone(buckets, slots, b, j, |slots|);
    }

    /** Visits all entries, bucket after bucket, if they take any bytes. */
    method IterAll(size: seq<Byte> -> nat) returns (positions: seq<nat>, ghost visited: seq<nat>)
      requires Readable(size)
      ensures visited == if data == [] then [] else AllIndices(buckets, slots, buckets)
      ensures Visits(buckets, slots, positions, visited)
    {
      hide Position, Index, Visits, AllIndices, Hash.Walking;
      var p: nat, end: nat := 0, |data|;
      positions, visited := [], [];
      NoVisits(buckets, slots);
      if data != [] { AllHaveBytes(size); }
      ghost var b: nat, j: nat := 0, 0;
      if data != [] { b, j := StartWalk(); }
      while p < end
        invariant 0 <= p <= end && if data == [] then visited == [] else Walking(b, j, p, visited)
        invariant Visits(buckets, slots, positions, visited)
        decreases buckets - b, |slots| - j
      {
        ghost var k, c, i, next := WalkStep(size, b, j, p, visited);
        VisitsAppend(buckets, slots, positions, visited, k);
        positions, visited := positions + [p], visited + [k];
        p := p + len;
        p := p + size(data[p..]);
        b, j := c, i;
      }
      if data != [] { WalkDone(b, j, p, visited); }
    }

    /** A walk through all entries has visited the buckets before `b` and the entries before `j` of bucket `b`. */
    ghost predicate Walking(b: nat, j: nat, p: nat, visited: seq<nat>)
      requires WellFormed()
      reads this
    {
      && b < buckets && j <= |slots| && p == Offset(buckets, slots, b) + Filled(buckets, slots[..j], b)
      && p <= |data| && (p < |data| ==> p < Offset(buckets, slots, b + 1))
      && visited == AllIndices(buckets, slots, b) + BucketIndices(buckets, slots[..j], b)
      && (p == |data| ==> visited == AllIndices(buckets, slots, buckets))
    }

    lemma StartWalk() returns (b: nat, j: nat)
      requires Built() && NoneEmpty()
      ensures Walking(b, j, 0, []) && b <= buckets && j <= |slots|
    {
      hide Filled;
      NothingFilled(buckets, slots, 0);
      NothingVisited(buckets, slots, 0);
      OffsetGrows(0);
      b, j := NextBucket(0, 0, 0);
    }

    lemma WalkDone(b: nat, j: nat, p: nat, visited: seq<nat>)
      requires Built() && Walking(b, j, p, visited) && p >= |data|
      ensures visited == AllIndices(buckets, slots, buckets)
    {
    }

    /** One entry further. */
    lemma WalkStep(size: seq<Byte> -> nat, b: nat, j: nat, p: nat, visited: seq<nat>)
      returns (k: nat, c: nat, i: nat, next: nat)
      requires Readable(size) && NoneEmpty() && Walking(b, j, p, visited) && p < |data|
      ensures k < |slots| && p == Position(buckets, slots, k) && p + len <= |data|
      ensures next <= |data| && next == p + len + size(data[p + len..])
      ensures Walking(c, i, next, visited + [k])
      ensures b <= c <= buckets && i <= |slots| && (c == b ==> i > j)
    {
      hide Filled, Position, Index, AllIndices, BucketIndices, Offset, Delimits, AllStored, Hash.NoneEmpty;
      k := Meet(size, b, j, p);
      assert entries[k].ToSlot() == slots[k];
      OffsetGrows(b);
      PositionInBucket(buckets, slots, k);
      VisitNext(buckets, slots, b, j, k);
      next := p + slots[k].Width();
      c, i := NextBucket(b, k + 1, next);
      assert visited + [k] == AllIndices(buckets, slots, b) + BucketIndices(buckets, slots[..k + 1], b);
    }

    /** Where a walk through all buckets continues. */
    lemma NextBucket(b: nat, j: nat, p: nat) returns (c: nat, k: nat)
      requires Built() && NoneEmpty() && b < buckets && j <= |slots|
      requires p == Offset(buckets, slots, b) + Filled(buckets, slots[..j], b) <= Offset(buckets, slots, b + 1)
      ensures b <= c < buckets && k <= |slots| && (c == b ==> k == j)
      ensures p == Offset(buckets, slots, c) + Filled(buckets, slots[..k], c)
      ensures p <= |data| && (p < |data| ==> p < Offset(buckets, slots, c + 1))
      ensures AllIndices(buckets, slots, b) + BucketIndices(buckets, slots[..j], b) ==
              AllIndices(buckets, slots, c) + BucketIndices(buckets, slots[..k], c)
      ensures p == |data| ==>
        AllIndices(buckets, slots, c) + BucketIndices(buckets, slots[..k], c) == AllIndices(buckets, slots, buckets)
      decreases buckets - b
    {
      hide Filled, Index, Offset, BucketIndices, Hash.NoneEmpty;
      OffsetGrows(b);
      if p < Offset(buckets, slots, b + 1) {
        c, k := b, j;
      } else {
        VisitedAll(b, j);
        if b + 1 == buckets {
          c, k := b, j;
        } else {
          OffsetGrows(b + 1);
          NothingFilled(buckets, slots, b + 1);
          NothingVisited(buckets, slots, b + 1);
          assert AllIndices(buckets, slots, b + 1) + [] == AllIndices(buckets, slots, b + 1);
          c, k := NextBucket(b + 1, 0, p);
        }
      }
    }
  }

  /** Slots take no bytes together exactly if none of them does. */
  lemma {:induction false} NothingAtAll(slots: seq<Slot>)
    ensures TotalWidth(slots) == 0 <==> forall k :: 0 <= k < |slots| ==> slots[k].Width() == 0
  {
    if slots != [] {
      var n := |slots| - 1;
      NothingAtAll(slots[..n]);
      assert forall k :: 0 <= k < n ==> slots[..n][k] == slots[k];
    }
  }

  /** A reader that finds the end of an empty payload takes all payloads to be empty. */
  lemma NoSizes(size: seq<Byte> -> nat, empty: seq<Byte>, payload: seq<Byte>)
    requires Delimits(size, empty) && Delimits(size, payload) && empty == []
    ensures payload == []
  {
    assert empty + (payload + []) == payload + [];
    assert size(empty + (payload + [])) == 0;
  }

  /** An entry that is stored and not found. */
  method EmptyEntryLost() returns (h: Hash, r: Option<nat>)
    ensures h.Built() && h.entries == [Entry([], [])] && h.len == 0 && r.None?
  {
    h := new Hash(0, 1);
    h.Add([], 0);
    h.DoneAdding();
    var offset := h.Fill([], 0);
    h.DoneFilling();
    assert h.entries[0].ToSlot() == Slot([], 0);
    ghost var found;
    r, found := h.At([], _ => 0);
  }

  /** The positions of the entries visited, in order. */
  ghost predicate Visits(buckets: nat, slots: seq<Slot>, positions: seq<nat>, visited: seq<nat>)
    requires buckets >= 1
  {
    |positions| == |visited| && forall i :: 0 <= i < |visited| ==>
      visited[i] < |slots| && positions[i] == Position(buckets, slots, visited[i])
  }

  lemma NoVisits(buckets: nat, slots: seq<Slot>)
    requires buckets >= 1
    ensures Visits(buckets, slots, [], [])
  {
  }

  lemma VisitsAppend(buckets: nat, slots: seq<Slot>, positions: seq<nat>, visited: seq<nat>, k: nat)
    requires buckets >= 1 && Visits(buckets, slots, positions, visited) && k < |slots|
    ensures Visits(buckets, slots, positions + [Position(buckets, slots, k)], visited + [k])
  {
  }

  lemma NothingVisited(buckets: nat, slots: seq<Slot>, b: nat)
    requires buckets >= 1
    ensures BucketIndices(buckets, slots[..0], b) == []
    ensures AllIndices(buckets, slots, 0) == []
  {
  }

  lemma {:induction false} VisitNone(buckets: nat, slots: seq<Slot>, b: nat, j: nat, k: nat)
    requires buckets >= 1 && j <= k <= |slots|
    requires forall i :: j <= i < k ==> Index(buckets, slots[i].key) != b
    ensures BucketIndices(buckets, slots[..k], b) == BucketIndices(buckets, slots[..j], b)
  {
    hide Index;
    if j < k {
      VisitNone(buckets, slots, b, j, k - 1);
      assert slots[..k][..k - 1] == slots[..k - 1];
    }
  }

  lemma VisitNext(buckets: nat, slots: seq<Slot>, b: nat, j: nat, k: nat)
    requires buckets >= 1 && j <= k < |slots| && Index(buckets, slots[k].key) == b
    requires forall i :: j <= i < k ==> Index(buckets, slots[i].key) != b
    ensures BucketIndices(buckets, slots[..k + 1], b) == BucketIndices(buckets, slots[..j], b) + [k]
  {
    hide Index;
    VisitNone(buckets, slots, b, j, k);
    assert slots[..k + 1][..k] == slots[..k];
  }

  /** `k` is the first entry with this key. */
  ghost predicate FirstAt(entries: seq<Entry>, key: Key, k: nat) {
    k < |entries| && entries[k].key == key && forall i :: 0 <= i < k ==> entries[i].key != key
  }

  lemma EntryBytes(data: seq<Byte>, p: nat, e: Entry)
    requires p + |e.Bytes()| <= |data| && data[p..p + |e.Bytes()|] == e.Bytes()
    ensures data[p..p + |e.key|] == e.key && e.payload <= data[p + |e.key|..]
  {
    assert data[p..p + |e.key|] == data[p..p + |e.Bytes()|][..|e.key|];
    assert data[p + |e.key|..p + |e.Bytes()|] == data[p..p + |e.Bytes()|][|e.key|..];
    assert data[p + |e.key|..][..|e.payload|] == data[p + |e.key|..p + |e.Bytes()|];
  }

  lemma EntryRead(data: seq<Byte>, p: nat, e: Entry, size: seq<Byte> -> nat)
    requires p + |e.Bytes()| <= |data| && data[p..p + |e.Bytes()|] == e.Bytes() && Delimits(size, e.payload)
    ensures data[p..p + |e.key|] == e.key && e.payload <= data[p + |e.key|..]
    ensures size(data[p + |e.key|..]) == |e.payload|
  {
    EntryBytes(data, p, e);
    var rest := data[p + |e.key|..];
    assert rest == e.payload + rest[|e.payload|..];
  }

  lemma {:induction false} NothingBeyond(buckets: nat, slots: seq<Slot>, len: nat)
    requires BucketsOk(buckets, len) && forall s <- slots :: |s.key| == len
    ensures Filled(buckets, slots, buckets) == 0
  {
    if slots != [] {
      assert slots[|slots| - 1] in slots;
      IndexInRange(buckets, slots[|slots| - 1].key);
      NothingBeyond(buckets, slots[..|slots| - 1], len);
    }
  }

  lemma NothingFilled(buckets: nat, slots: seq<Slot>, b: nat)
    requires buckets >= 1
    ensures Filled(buckets, slots[..0], b) == 0
  {
  }
}
