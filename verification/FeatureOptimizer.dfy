/** Renumbering of elementary features when a trained tagger is frozen
    (src/tagger/feature_sequences_optimizer.h). */
module FeatureOptimizer {
  import opened Bytes
  import Vli
  import opened FeatureSequences

  type IdMap = map<string, UInt32>
  type Renumbering = seq<UInt32>

  datatype CountInfo = CountInfo(ori: nat, count: nat)

  /** Id of a feature string, unknown when it is not stored. */
  function IdOf(ids: IdMap, feature: string): UInt32 {
    if feature in ids then ids[feature] else UNKNOWN
  }

  /** New id of an old one; ids outside the table are unknown. */
  function Renumber(ids: Renumbering, id: UInt32): UInt32 {
    if id < |ids| then ids[id] else UNKNOWN
  }

  /** The elements of one sequence: for each the elementary map of its values, or -1 for none. */
  type MapIndices = seq<int>

  ghost predicate IndicesOk(indices: MapIndices, maps: nat) {
    forall j :: 0 <= j < |indices| ==> indices[j] < maps
  }

  function RenumberValue(tables: seq<Renumbering>, index: int, value: UInt32): UInt32
    requires index < |tables|
  {
    if index < 0 then value else Renumber(tables[index], value)
  }

  function RenumberAll(tables: seq<Renumbering>, indices: MapIndices, values: seq<UInt32>): (r: seq<UInt32>)
    requires IndicesOk(indices, |tables|) && |values| == |indices|
    ensures |r| == |values|
    ensures forall j :: 0 <= j < |values| ==> r[j] == RenumberValue(tables, indices[j], values[j])
  {
    seq(|values|, j requires 0 <= j < |values| => RenumberValue(tables, indices[j], values[j]))
  }

  /** A key written by the tagger: the encodings of one known value for each element. */
  ghost predicate IsKey(key: seq<Byte>, values: seq<UInt32>, elements: nat) {
    |values| == elements && UNKNOWN !in values && key == Vli.EncodeAll(values)
  }

  ghost predicate KeysOk(scores: ScoreMap, elements: nat) {
    forall key :: key in scores && scores[key] != 0 ==> exists values :: IsKey(key, values, elements)
  }

  /** A renumbering keeps unknown and empty, and never gives one known id to two old ids. */
  ghost predicate TableOk(table: Renumbering) {
    && |table| >= 2 && table[UNKNOWN] == UNKNOWN && table[EMPTY] == EMPTY
    && forall a, b :: Renumber(table, a) == Renumber(table, b) != UNKNOWN ==> a == b
  }

  ghost predicate TablesOk(tables: seq<Renumbering>) {
    forall m :: 0 <= m < |tables| ==> TableOk(tables[m])
  }

  /** No id of a key with nonzero weight is dropped. */
  ghost predicate NothingDropped(scores: ScoreMap, tables: seq<Renumbering>, indices: MapIndices)
    requires IndicesOk(indices, |tables|)
  {
    forall key, values :: key in scores && scores[key] != 0 && IsKey(key, values, |indices|) ==>
      UNKNOWN !in RenumberAll(tables, indices, values)
  }

  /** What remapping the keys of one sequence must produce. */
  ghost predicate Remapped(scores: ScoreMap, optimized: ScoreMap, tables: seq<Renumbering>, indices: MapIndices)
    requires IndicesOk(indices, |tables|)
  {
    && (forall key, values :: key in scores && scores[key] != 0 && IsKey(key, values, |indices|) ==>
          var renumbered := Vli.EncodeAll(RenumberAll(tables, indices, values));
          renumbered in optimized && optimized[renumbered] == scores[key])
    && (forall renumbered :: renumbered in optimized ==>
          exists key, values :: key in scores && scores[key] != 0 && IsKey(key, values, |indices|)
                                && renumbered == Vli.EncodeAll(RenumberAll(tables, indices, values)))
  }

  /** Meaning is preserved: for every vector of values, known or not, seen in training or not, the
      renumbered key has in the optimized map the weight that the original key had. */
  lemma RenumberedWeight(scores: ScoreMap, optimized: ScoreMap, tables: seq<Renumbering>, indices: MapIndices,
                         values: seq<UInt32>)
    requires IndicesOk(indices, |tables|) && |values| == |indices|
    requires TablesOk(tables) && NothingDropped(scores, tables, indices)
    requires Remapped(scores, optimized, tables, indices)
    ensures Lookup(optimized, KeyOf(RenumberAll(tables, indices, values))) == Lookup(scores, KeyOf(values))
  {
    hide TablesOk, Vli.EncodeAll;
    var renumbered := RenumberAll(tables, indices, values);
    if UNKNOWN in values {
      UnknownStaysUnknown(tables, indices, values);
    } else {
      var key := Vli.EncodeAll(values);
      if key in scores && scores[key] != 0 {
        assert IsKey(key, values, |indices|);
        NonEmptyKeys(values, renumbered);
      } else if UNKNOWN !in renumbered && Vli.EncodeAll(renumbered) in optimized {
        NotRemapped(scores, optimized, tables, indices, values);
      }
    }
  }

  lemma UnknownStaysUnknown(tables: seq<Renumbering>, indices: MapIndices, values: seq<UInt32>)
    requires IndicesOk(indices, |tables|) && |values| == |indices| && TablesOk(tables)
    requires UNKNOWN in values
    ensures UNKNOWN in RenumberAll(tables, indices, values)
  {
    var j :| 0 <= j < |values| && values[j] == UNKNOWN;
    if indices[j] >= 0 { assert TableOk(tables[indices[j]]); }
    assert RenumberAll(tables, indices, values)[j] == UNKNOWN;
  }

  lemma NonEmptyKeys(values: seq<UInt32>, renumbered: seq<UInt32>)
    requires |values| == |renumbered|
    ensures Vli.EncodeAll(values) == [] <==> Vli.EncodeAll(renumbered) == []
  {
    Vli.EncodeAllLength(values);
    Vli.EncodeAllLength(renumbered);
  }

  /** A key without weight does not become a key with weight. */
  lemma NotRemapped(scores: ScoreMap, optimized: ScoreMap, tables: seq<Renumbering>, indices: MapIndices,
                    values: seq<UInt32>)
    requires IndicesOk(indices, |tables|) && |values| == |indices|
    requires TablesOk(tables) && Remapped(scores, optimized, tables, indices)
    requires UNKNOWN !in RenumberAll(tables, indices, values)
    requires Vli.EncodeAll(RenumberAll(tables, indices, values)) in optimized
    ensures Vli.EncodeAll(values) in scores && scores[Vli.EncodeAll(values)] != 0
  {
    hide TablesOk, Vli.EncodeAll;
    var renumbered := RenumberAll(tables, indices, values);
    var key, ids :| key in scores && scores[key] != 0 && IsKey(key, ids, |indices|)
                    && Vli.EncodeAll(renumbered) == Vli.EncodeAll(RenumberAll(tables, indices, ids));
    Vli.EncodeAllInjective(renumbered, RenumberAll(tables, indices, ids));
    SameValues(tables, indices, values, ids);
  }

  /** Two vectors with equal known renumberings are equal. */
  lemma SameValues(tables: seq<Renumbering>, indices: MapIndices, values: seq<UInt32>, ids: seq<UInt32>)
    requires IndicesOk(indices, |tables|) && |values| == |ids| == |indices| && TablesOk(tables)
    requires RenumberAll(tables, indices, values) == RenumberAll(tables, indices, ids)
    requires UNKNOWN !in RenumberAll(tables, indices, values)
    ensures values == ids
  {
    var r := RenumberAll(tables, indices, values);
    forall j | 0 <= j < |values|
      ensures values[j] == ids[j]
    {
      assert r[j] in r && r[j] == RenumberAll(tables, indices, ids)[j];
      if indices[j] >= 0 { assert TableOk(tables[indices[j]]); }
    }
  }

  /** All ids of a key have been counted. */
  ghost predicate Counted(counts: seq<seq<nat>>, indices: MapIndices, values: seq<UInt32>)
    requires IndicesOk(indices, |counts|) && |values| == |indices|
  {
    forall j :: 0 <= j < |values| && indices[j] >= 0 ==>
      values[j] < |counts[indices[j]]| && counts[indices[j]][values[j]] > 0
  }

  ghost predicate Grown(before: seq<seq<nat>>, after: seq<seq<nat>>) {
    |before| == |after| && forall m :: 0 <= m < |before| ==>
      |before[m]| <= |after[m]| <= 0x1_0000_0000 && forall id :: 0 <= id < |before[m]| ==> before[m][id] <= after[m][id]
  }

  lemma CountedGrows(before: seq<seq<nat>>, after: seq<seq<nat>>, indices: MapIndices, values: seq<UInt32>)
    requires IndicesOk(indices, |before|) && |values| == |indices| && Grown(before, after)
    requires Counted(before, indices, values)
    ensures Counted(after, indices, values)
  {
  }

  /** The counter of an id in an elementary map. */
  function CountAt(counts: seq<seq<nat>>, m: nat, id: UInt32): nat {
    if m < |counts| && id < |counts[m]| then counts[m][id] else 0
  }

  /** How many of the first `n` values of a key are a given id of a given map. */
  function Occurrences(indices: MapIndices, values: seq<UInt32>, n: nat, m: nat, id: UInt32): nat
    requires n <= |values| == |indices|
  {
    if n == 0 then 0
    else Occurrences(indices, values, n - 1, m, id) + if indices[n - 1] == m && values[n - 1] == id then 1 else 0
  }

  /** Counts one id, enlarging the vector if needed. */
  function Increment(count: seq<nat>, id: UInt32): (r: seq<nat>)
    ensures |r| == if id < |count| then |count| else id + 1
    ensures forall k :: 0 <= k < |r| ==> r[k] == (if k < |count| then count[k] else 0) + if k == id then 1 else 0
  {
    if id < |count| then count[id := count[id] + 1] else count + seq(id - |count|, _ => 0) + [1]
  }

  /** Counts the ids of one key. */
  method CountIds(counts: seq<seq<nat>>, indices: MapIndices, values: seq<UInt32>) returns (r: seq<seq<nat>>)
    requires IndicesOk(indices, |counts|) && |values| == |indices| && Grown(counts, counts)
    ensures Grown(counts, r) && Counted(r, indices, values)
    ensures forall m, id :: CountAt(r, m, id) == CountAt(counts, m, id) + Occurrences(indices, values, |values|, m, id)
  {
    r := counts;
    for j := 0 to |values|
      invariant Grown(counts, r)
      invariant forall m, id :: CountAt(r, m, id) == CountAt(counts, m, id) + Occurrences(indices, values, j, m, id)
      invariant forall k :: 0 <= k < j && indices[k] >= 0 ==>
        values[k] < |r[indices[k]]| && r[indices[k]][values[k]] > 0
    {
      if indices[j] >= 0 {
        r := r[indices[j] := Increment(r[indices[j]], values[j])];
      }
    }
  }

  /** Every id of a key with nonzero weight has been counted. */
  ghost predicate AllCounted(counts: seq<seq<nat>>, scores: ScoreMap, indices: MapIndices)
    requires IndicesOk(indices, |counts|)
  {
    forall key, values ::
      key in scores && scores[key] != 0 && IsKey(key, values, |indices|) ==> Counted(counts, indices, values)
  }

  /** An id of a map stands at a place of a key with nonzero weight. */
  ghost predicate UsedAt(scores: ScoreMap, indices: MapIndices, key: seq<Byte>, j: nat, m: nat, id: UInt32) {
    && key in scores && scores[key] != 0 && j < |indices| && indices[j] == m
    && exists values :: IsKey(key, values, |indices|) && values[j] == id
  }

  /** All such places of some keys. */
  ghost function Uses(scores: ScoreMap, keys: set<seq<Byte>>, indices: MapIndices, m: nat,
                      id: UInt32): set<(seq<Byte>, nat)> {
    set key, j | key in keys && 0 <= j < |indices| && UsedAt(scores, indices, key, j, m, id) :: (key, j)
  }

  /** How often an id of a map occurs in the keys with nonzero weight of the first `n` sequences. */
  ghost function Frequency(scores: seq<ScoreMap>, indices: seq<MapIndices>, n: nat, m: nat, id: UInt32): nat
    requires n <= |scores| == |indices|
  {
    if n == 0 then 0
    else Frequency(scores, indices, n - 1, m, id) + |Uses(scores[n - 1], scores[n - 1].Keys, indices[n - 1], m, id)|
  }

  ghost function Places(key: seq<Byte>, indices: MapIndices, values: seq<UInt32>, n: nat, m: nat,
                        id: UInt32): set<(seq<Byte>, nat)>
    requires n <= |values| == |indices|
  {
    set j | 0 <= j < n && indices[j] == m && values[j] == id :: (key, j)
  }

  lemma {:induction false} PlacesCount(key: seq<Byte>, indices: MapIndices, values: seq<UInt32>, n: nat, m: nat,
                                       id: UInt32)
    requires n <= |values| == |indices|
    ensures |Places(key, indices, values, n, m, id)| == Occurrences(indices, values, n, m, id)
  {
    if n > 0 {
      PlacesCount(key, indices, values, n - 1, m, id);
      var before := Places(key, indices, values, n - 1, m, id);
      if indices[n - 1] == m && values[n - 1] == id {
        assert Places(key, indices, values, n, m, id) == before + {(key, n - 1)};
      } else {
        assert Places(key, indices, values, n, m, id) == before;
      }
    }
  }

  lemma UsedExactly(scores: ScoreMap, indices: MapIndices, key: seq<Byte>, values: seq<UInt32>, j: nat, m: nat,
                    id: UInt32)
    requires key in scores && scores[key] != 0 && IsKey(key, values, |indices|) && j < |indices|
    ensures UsedAt(scores, indices, key, j, m, id) <==> indices[j] == m && values[j] == id
  {
    hide Vli.EncodeAll;
    if UsedAt(scores, indices, key, j, m, id) {
      var vs :| IsKey(key, vs, |indices|) && vs[j] == id;
      Vli.EncodeAllInjective(vs, values);
    }
  }

  /** One more key adds its occurrences. */
  lemma UsesNext(scores: ScoreMap, keys: set<seq<Byte>>, indices: MapIndices, key: seq<Byte>, values: seq<UInt32>,
                 m: nat, id: UInt32)
    requires key in scores && scores[key] != 0 && key !in keys && IsKey(key, values, |indices|)
    ensures |Uses(scores, keys + {key}, indices, m, id)| ==
            |Uses(scores, keys, indices, m, id)| + Occurrences(indices, values, |values|, m, id)
  {
    hide Vli.EncodeAll, UsedAt;
    var before, added := Uses(scores, keys, indices, m, id), Places(key, indices, values, |values|, m, id);
    forall j: nat | j < |indices|
      ensures UsedAt(scores, indices, key, j, m, id) <==> indices[j] == m && values[j] == id
    {
      UsedExactly(scores, indices, key, values, j, m, id);
    }
    var after := Uses(scores, keys + {key}, indices, m, id);
    forall p
      ensures p in after <==> p in before + added
    {
    }
    assert after == before + added;
    assert before !! added;
    PlacesCount(key, indices, values, |values|, m, id);
  }

  /** A key without weight adds none. */
  lemma UsesSkipped(scores: ScoreMap, keys: set<seq<Byte>>, indices: MapIndices, key: seq<Byte>, m: nat, id: UInt32)
    requires key in scores && scores[key] == 0
    ensures Uses(scores, keys + {key}, indices, m, id) == Uses(scores, keys, indices, m, id)
  {
  }

  /** Counts the ids in all keys of one sequence, in whatever order the map lists them. */
  method CountKeys(counts: seq<seq<nat>>, scores: ScoreMap, indices: MapIndices) returns (r: seq<seq<nat>>)
    requires IndicesOk(indices, |counts|) && KeysOk(scores, |indices|) && Grown(counts, counts)
    ensures Grown(counts, r) && AllCounted(r, scores, indices)
    ensures forall m, id :: CountAt(r, m, id) == CountAt(counts, m, id) + |Uses(scores, scores.Keys, indices, m, id)|
  {
    hide Vli.EncodeAll, Uses, CountAt, Occurrences, Counted;
    r := counts;
    var keys := scores.Keys;
    assert scores.Keys - keys == {};
    forall m, id
      ensures Uses(scores, {}, indices, m, id) == {}
    {
      NoUses(scores, indices, m, id);
    }
    while keys != {}
      invariant keys <= scores.Keys && Grown(counts, r)
      invariant forall m, id ::
        CountAt(r, m, id) == CountAt(counts, m, id) + |Uses(scores, scores.Keys - keys, indices, m, id)|
      invariant forall key, values ::
        key in scores && key !in keys && scores[key] != 0 && IsKey(key, values, |indices|) ==>
        Counted(r, indices, values)
    {
      var key :| key in keys;
      ghost var done := scores.Keys - keys;
      keys := keys - {key};
      assert scores.Keys - keys == done + {key};
      if scores[key] == 0 {
        forall m, id
          ensures Uses(scores, done + {key}, indices, m, id) == Uses(scores, done, indices, m, id)
        {
          UsesSkipped(scores, done, indices, key, m, id);
        }
      } else {
        ghost var written :| IsKey(key, written, |indices|);
        var values := Vli.DecodeAll(key, written);
        ghost var before := r;
        r := CountIds(r, indices, values);
        forall m, id
          ensures |Uses(scores, done + {key}, indices, m, id)| ==
                  |Uses(scores, done, indices, m, id)| + Occurrences(indices, values, |values|, m, id)
        {
          UsesNext(scores, done, indices, key, values, m, id);
        }
        forall k, vs | k in scores && k !in keys && scores[k] != 0 && IsKey(k, vs, |indices|)
          ensures Counted(r, indices, vs)
        {
          if k == key {
            Vli.EncodeAllInjective(vs, values);
          } else {
            CountedGrows(before, r, indices, vs);
          }
        }
      }
    }
    assert scores.Keys - keys == scores.Keys;
  }

  lemma NoUses(scores: ScoreMap, indices: MapIndices, m: nat, id: UInt32)
    ensures Uses(scores, {}, indices, m, id) == {}
  {
  }

  /** Decreasing counts; the order of equal counts is left open by the sort of the original. */
  function InsertByCount(sorted: seq<CountInfo>, c: CountInfo): seq<CountInfo> {
    if sorted == [] || sorted[|sorted| - 1].count >= c.count then sorted + [c]
    else InsertByCount(sorted[..|sorted| - 1], c) + [sorted[|sorted| - 1]]
  }

  lemma {:induction false} InsertByCountContents(sorted: seq<CountInfo>, c: CountInfo)
    ensures multiset(InsertByCount(sorted, c)) == multiset(sorted) + multiset{c}
  {
    if sorted != [] && sorted[|sorted| - 1].count < c.count {
      InsertByCountContents(sorted[..|sorted| - 1], c);
      assert sorted == sorted[..|sorted| - 1] + [sorted[|sorted| - 1]];
    }
  }

  predicate ByCount(sorted: seq<CountInfo>) {
    forall j, k :: 0 <= j < k < |sorted| ==> sorted[j].count >= sorted[k].count
  }

  lemma {:induction false} InsertByCountSorts(sorted: seq<CountInfo>, c: CountInfo)
    requires ByCount(sorted)
    ensures ByCount(InsertByCount(sorted, c))
  {
    if sorted != [] && sorted[|sorted| - 1].count < c.count {
      var front, last := sorted[..|sorted| - 1], sorted[|sorted| - 1];
      InsertByCountSorts(front, c);
      InsertByCountContents(front, c);
      forall k | 0 <= k < |InsertByCount(front, c)|
        ensures InsertByCount(front, c)[k].count >= last.count
      {
        assert InsertByCount(front, c)[k] in multiset(InsertByCount(front, c));
      }
    }
  }

  method SortByCount(infos: seq<CountInfo>) returns (sorted: seq<CountInfo>)
    ensures multiset(sorted) == multiset(infos) && ByCount(sorted)
  {
    sorted := [];
    for k := 0 to |infos|
      invariant multiset(sorted) == multiset(infos[..k]) && ByCount(sorted)
    {
      InsertByCountContents(sorted, infos[k]);
      InsertByCountSorts(sorted, infos[k]);
      assert infos[..k + 1] == infos[..k] + [infos[k]];
      sorted := InsertByCount(sorted, infos[k]);
    }
    assert infos[..|infos|] == infos;
  }

  ghost predicate Numbered(infos: seq<CountInfo>) {
    forall k :: 0 <= k < |infos| ==> infos[k].ori == k
  }

  /** A rearrangement of numbered entries contains every one of them exactly once. */
  lemma RearrangedOnce(infos: seq<CountInfo>, sorted: seq<CountInfo>)
    requires Numbered(infos) && multiset(sorted) == multiset(infos)
    ensures |sorted| == |infos|
    ensures forall j :: 0 <= j < |sorted| ==> sorted[j].ori < |infos| && sorted[j] == infos[sorted[j].ori]
    ensures forall j, k :: 0 <= j < k < |sorted| ==> sorted[j].ori != sorted[k].ori
    ensures forall c <- infos :: c in sorted
  {
    assert |multiset(sorted)| == |multiset(infos)|;
    forall j | 0 <= j < |sorted|
      ensures sorted[j].ori < |infos| && sorted[j] == infos[sorted[j].ori]
    {
      assert sorted[j] in multiset(infos);
    }
    forall j, k | 0 <= j < k < |sorted|
      ensures sorted[j].ori != sorted[k].ori
    {
      if sorted[j].ori == sorted[k].ori {
        TwiceInMultiset(sorted, j, k);
        OnceInMultiset(infos, sorted[j].ori);
      }
    }
    forall c <- infos
      ensures c in sorted
    {
      assert c in multiset(sorted);
    }
  }

  lemma TwiceInMultiset(s: seq<CountInfo>, j: nat, k: nat)
    requires j < k < |s| && s[j] == s[k]
    ensures multiset(s)[s[j]] >= 2
  {
    assert s == s[..k] + s[k..];
    assert s[..k][j] in multiset(s[..k]) && s[k..][0] in multiset(s[k..]);
  }

  lemma OnceInMultiset(infos: seq<CountInfo>, k: nat)
    requires Numbered(infos) && k < |infos|
    ensures multiset(infos)[infos[k]] == 1
  {
    assert infos == infos[..k] + [infos[k]] + infos[k + 1..];
    assert infos[k] !in multiset(infos[..k]) && infos[k] !in multiset(infos[k + 1..]);
  }

  /** The renumbering of one elementary map, the most frequent ids first. */
  method BuildTable(counts: seq<nat>) returns (table: Renumbering)
    requires |counts| <= 0x1_0000_0000
    ensures TableOk(table)
    ensures forall id: UInt32 :: id >= 2 ==> (Renumber(table, id) != UNKNOWN <==> id < |counts| && counts[id] > 0)
    ensures forall a: UInt32, b: UInt32 :: 2 <= a < |counts| && 2 <= b < |counts| && counts[a] > counts[b] > 0 ==>
      Renumber(table, a) < Renumber(table, b)
  {
    var count := if |counts| < 2 then counts + seq(2 - |counts|, _ => 0) else counts;
    count := count[0 := 0][1 := 1];
    var infos := seq(|count|, k requires 0 <= k < |count| => CountInfo(k, count[k]));
    var tail := SortByCount(infos[2..]);
    var sorted := infos[..2] + tail;
    assert infos == infos[..2] + infos[2..];
    RearrangedOnce(infos, sorted);
    table := seq(|count|, _ => UNKNOWN);
    for j := 0 to |sorted|
      invariant |table| == |count|
      invariant forall k :: 0 <= k < j ==> table[sorted[k].ori] == if sorted[k].count > 0 then k else UNKNOWN
    {
      table := table[sorted[j].ori := if sorted[j].count > 0 then j else UNKNOWN];
    }
    TableFromSorted(infos, sorted, table);
    CountedHaveNumbers(infos, sorted, table);
    MoreFrequentFirst(infos, sorted, table);
  }

  /** More frequent ids get smaller numbers, hence shorter encodings. */
  lemma MoreFrequentFirst(infos: seq<CountInfo>, sorted: seq<CountInfo>, table: Renumbering)
    requires 2 <= |infos| == |sorted| == |table| && Numbered(infos) && sorted[..2] == infos[..2] && ByCount(sorted[2..])
    requires forall j :: 0 <= j < |sorted| ==> sorted[j].ori < |infos| && sorted[j] == infos[sorted[j].ori]
    requires forall c <- infos :: c in sorted
    requires forall k :: 0 <= k < |sorted| ==> table[sorted[k].ori] == if sorted[k].count > 0 then k else UNKNOWN
    ensures forall a, b ::
      2 <= a < |infos| && 2 <= b < |infos| && infos[a].count > infos[b].count > 0 ==> table[a] < table[b]
  {
    forall a, b | 2 <= a < |infos| && 2 <= b < |infos| && infos[a].count > infos[b].count > 0
      ensures table[a] < table[b]
    {
      assert infos[a] in sorted && infos[b] in sorted;
      var j :| 0 <= j < |sorted| && sorted[j] == infos[a];
      var k :| 0 <= k < |sorted| && sorted[k] == infos[b];
      assert sorted[0] == sorted[..2][0] == infos[0] && sorted[1] == sorted[..2][1] == infos[1];
      assert j >= 2 && k >= 2;
      assert sorted[2..][j - 2] == sorted[j] && sorted[2..][k - 2] == sorted[k];
    }
  }

  /** Exactly the ids counted get numbers. */
  lemma CountedHaveNumbers(infos: seq<CountInfo>, sorted: seq<CountInfo>, table: Renumbering)
    requires 2 <= |infos| == |sorted| == |table| && Numbered(infos) && infos[0].count == 0 && sorted[0] == infos[0]
    requires forall j :: 0 <= j < |sorted| ==> sorted[j].ori < |infos| && sorted[j] == infos[sorted[j].ori]
    requires forall c <- infos :: c in sorted
    requires forall k :: 0 <= k < |sorted| ==> table[sorted[k].ori] == if sorted[k].count > 0 then k else UNKNOWN
    ensures forall id :: 2 <= id < |infos| ==> (table[id] != UNKNOWN <==> infos[id].count > 0)
  {
    forall id | 2 <= id < |infos|
      ensures table[id] != UNKNOWN <==> infos[id].count > 0
    {
      assert infos[id] in sorted;
      var j :| 0 <= j < |sorted| && sorted[j] == infos[id];
      assert infos[id].ori == id;
    }
  }

  lemma TableFromSorted(infos: seq<CountInfo>, sorted: seq<CountInfo>, table: Renumbering)
    requires 2 <= |infos| == |sorted| == |table| && Numbered(infos)
    requires infos[0].count == 0 && infos[1].count > 0 && sorted[0] == infos[0] && sorted[1] == infos[1]
    requires forall j :: 0 <= j < |sorted| ==> sorted[j].ori < |infos| && sorted[j] == infos[sorted[j].ori]
    requires forall c <- infos :: c in sorted
    requires forall k :: 0 <= k < |sorted| ==> table[sorted[k].ori] == if sorted[k].count > 0 then k else UNKNOWN
    ensures TableOk(table)
  {
    forall a: UInt32, b: UInt32 | Renumber(table, a) == Renumber(table, b) != UNKNOWN
      ensures a == b
    {
      assert infos[a] in sorted && infos[b] in sorted;
      var j :| 0 <= j < |sorted| && sorted[j] == infos[a];
      var k :| 0 <= k < |sorted| && sorted[k] == infos[b];
    }
    assert table[sorted[0].ori] == UNKNOWN && table[sorted[1].ori] == 1;
  }

  /** The table of a map drops exactly the ids that are not counted, and numbers the others by falling count. */
  ghost predicate FollowsCounts(counts: seq<seq<nat>>, table: Renumbering, m: nat) {
    && (forall id: UInt32 :: id >= 2 ==> (Renumber(table, id) != UNKNOWN <==> CountAt(counts, m, id) > 0))
    && (forall a: UInt32, b: UInt32 :: a >= 2 && b >= 2 && CountAt(counts, m, a) > CountAt(counts, m, b) > 0 ==>
          Renumber(table, a) < Renumber(table, b))
  }

  /** The tables of all elementary maps. */
  method BuildTables(counts: seq<seq<nat>>) returns (tables: seq<Renumbering>)
    requires forall m :: 0 <= m < |counts| ==> |counts[m]| <= 0x1_0000_0000
    ensures |tables| == |counts| && TablesOk(tables)
    ensures forall m :: 0 <= m < |counts| ==> FollowsCounts(counts, tables[m], m)
  {
    hide TableOk, Renumber;
    tables := [];
    for m := 0 to |counts|
      invariant |tables| == m && TablesOk(tables)
      invariant forall n :: 0 <= n < m ==> FollowsCounts(counts, tables[n], n)
    {
      var table := BuildTable(counts[m]);
      tables := tables + [table];
    }
  }

  /** Ids that have been counted are not dropped. */
  lemma CountedIsKept(counts: seq<seq<nat>>, tables: seq<Renumbering>, scores: ScoreMap, indices: MapIndices)
    requires |tables| == |counts| && TablesOk(tables) && IndicesOk(indices, |tables|)
    requires AllCounted(counts, scores, indices)
    requires forall m :: 0 <= m < |counts| ==> FollowsCounts(counts, tables[m], m)
    ensures NothingDropped(scores, tables, indices)
  {
    forall key, values | key in scores && scores[key] != 0 && IsKey(key, values, |indices|)
      ensures UNKNOWN !in RenumberAll(tables, indices, values)
    {
      forall j | 0 <= j < |values|
        ensures RenumberValue(tables, indices[j], values[j]) != UNKNOWN
      {
        assert Counted(counts, indices, values) && values[j] in values;
        if indices[j] >= 0 {
          assert TableOk(tables[indices[j]]) && FollowsCounts(counts, tables[indices[j]], indices[j]);
          assert CountAt(counts, indices[j], values[j]) > 0;
        }
      }
    }
  }

  /** The elementary map with renumbered ids; strings whose id is dropped disappear. */
  method OptimizeIds(ids: IdMap, table: Renumbering) returns (optimized: IdMap)
    requires TableOk(table)
    ensures forall feature :: IdOf(optimized, feature) == Renumber(table, IdOf(ids, feature))
  {
    optimized := map[];
    var features := ids.Keys;
    while features != {}
      invariant features <= ids.Keys && optimized.Keys <= ids.Keys - features
      invariant forall feature :: feature in ids && feature !in features ==>
        IdOf(optimized, feature) == Renumber(table, ids[feature])
    {
      var feature :| feature in features;
      features := features - {feature};
      if ids[feature] < |table| && table[ids[feature]] != UNKNOWN {
        optimized := optimized[feature := table[ids[feature]]];
      }
    }
  }

  /** Rewrites all keys of one sequence that carry weight. */
  method RemapKeys(scores: ScoreMap, tables: seq<Renumbering>, indices: MapIndices) returns (optimized: ScoreMap)
    requires IndicesOk(indices, |tables|) && KeysOk(scores, |indices|)
    requires TablesOk(tables) && NothingDropped(scores, tables, indices)
    ensures Remapped(scores, optimized, tables, indices)
  {
    hide Vli.EncodeAll, TablesOk, NothingDropped, Remapped, RemappedExcept;
    optimized := map[];
    var keys := scores.Keys;
    NothingRemapped(scores, tables, indices);
    while keys != {}
      invariant keys <= scores.Keys
      invariant RemappedExcept(scores, keys, optimized, tables, indices)
    {
      var key :| key in keys;
      ghost var before := keys;
      keys := keys - {key};
      assert keys + {key} == before;
      if scores[key] != 0 {
        ghost var written :| IsKey(key, written, |indices|);
        var values := Vli.DecodeAll(key, written);
        var renumbered := Vli.EncodeAll(RenumberAll(tables, indices, values));
        RemapOne(scores, keys, optimized, tables, indices, key, values);
        if renumbered !in optimized {
          optimized := optimized[renumbered := scores[key]];
        }
      } else {
        WeightlessSkipped(scores, keys, optimized, tables, indices, key);
      }
    }
    AllRemapped(scores, optimized, tables, indices);
  }

  lemma NothingRemapped(scores: ScoreMap, tables: seq<Renumbering>, indices: MapIndices)
    requires IndicesOk(indices, |tables|)
    ensures RemappedExcept(scores, scores.Keys, map[], tables, indices)
  {
  }

  lemma WeightlessSkipped(scores: ScoreMap, left: set<seq<Byte>>, optimized: ScoreMap, tables: seq<Renumbering>,
                          indices: MapIndices,
                          key: seq<Byte>)
    requires IndicesOk(indices, |tables|) && key in scores && scores[key] == 0
    requires RemappedExcept(scores, left + {key}, optimized, tables, indices)
    ensures RemappedExcept(scores, left, optimized, tables, indices)
  {
    hide Vli.EncodeAll;
    forall r | r in optimized
      ensures exists k, vs :: k in scores - left && scores[k] != 0 && IsKey(k, vs, |indices|)
                              && r == Vli.EncodeAll(RenumberAll(tables, indices, vs))
    {
      var k, vs :| k in scores - (left + {key}) && scores[k] != 0 && IsKey(k, vs, |indices|)
                   && r == Vli.EncodeAll(RenumberAll(tables, indices, vs));
      assert k in scores - left;
    }
  }

  lemma AllRemapped(scores: ScoreMap, optimized: ScoreMap, tables: seq<Renumbering>, indices: MapIndices)
    requires IndicesOk(indices, |tables|) && RemappedExcept(scores, {}, optimized, tables, indices)
    ensures Remapped(scores, optimized, tables, indices)
  {
    hide Remapped;
    assert scores - {} == scores;
  }

  /** Remapped, for the keys outside `left`. */
  ghost predicate RemappedExcept(scores: ScoreMap, left: set<seq<Byte>>, optimized: ScoreMap, tables: seq<Renumbering>,
                                 indices: MapIndices)
    requires IndicesOk(indices, |tables|)
  {
    Remapped(scores - left, optimized, tables, indices)
  }

  /** Two different keys are never rewritten to the same one. */
  lemma RemapOne(scores: ScoreMap, left: set<seq<Byte>>, optimized: ScoreMap, tables: seq<Renumbering>,
                 indices: MapIndices,
                 key: seq<Byte>, values: seq<UInt32>)
    requires IndicesOk(indices, |tables|) && TablesOk(tables) && NothingDropped(scores, tables, indices)
    requires key in scores && key !in left && scores[key] != 0 && IsKey(key, values, |indices|)
    requires RemappedExcept(scores, left + {key}, optimized, tables, indices)
    ensures var renumbered := Vli.EncodeAll(RenumberAll(tables, indices, values));
      renumbered !in optimized && RemappedExcept(scores, left, optimized[renumbered := scores[key]], tables, indices)
  {
    hide Vli.EncodeAll, TablesOk;
    var renumbered := Vli.EncodeAll(RenumberAll(tables, indices, values));
    var rest := scores - (left + {key});
    if renumbered in optimized {
      NotRemapped(rest, optimized, tables, indices, values);
    }
    var added := optimized[renumbered := scores[key]];
    forall k, vs | k in scores - left && scores[k] != 0 && IsKey(k, vs, |indices|)
      ensures var r := Vli.EncodeAll(RenumberAll(tables, indices, vs)); r in added && added[r] == scores[k]
    {
      if k == key { Vli.EncodeAllInjective(vs, values); }
    }
    forall r | r in added
      ensures exists k, vs :: k in scores - left && scores[k] != 0 && IsKey(k, vs, |indices|)
                              && r == Vli.EncodeAll(RenumberAll(tables, indices, vs))
    {
      if r != renumbered {
        var k, vs :| k in rest && rest[k] != 0 && IsKey(k, vs, |indices|)
          && r == Vli.EncodeAll(RenumberAll(tables, indices, vs));
        assert k in scores - left;
      } else {
        assert key in scores - left;
      }
    }
  }

  /** The whole optimization: the renumbering is a by-product that relates old and new ids. */
  method Optimize(maps: seq<IdMap>, scores: seq<ScoreMap>, indices: seq<MapIndices>)
    returns (optimizedMaps: seq<IdMap>, optimizedScores: seq<ScoreMap>, ghost tables: seq<Renumbering>)
    requires |scores| == |indices|
    requires forall i :: 0 <= i < |scores| ==> IndicesOk(indices[i], |maps|) && KeysOk(scores[i], |indices[i]|)
    ensures |optimizedMaps| == |maps| == |tables| && |optimizedScores| == |scores|
    ensures forall m, feature :: 0 <= m < |maps| ==>
      IdOf(optimizedMaps[m], feature) == Renumber(tables[m], IdOf(maps[m], feature))
    ensures TablesOk(tables)
    ensures forall m: nat, id: UInt32 :: m < |maps| && id >= 2 ==>
      (Renumber(tables[m], id) != UNKNOWN <==> Frequency(scores, indices, |scores|, m, id) > 0)
    ensures forall m: nat, a: UInt32, b: UInt32 | m < |maps| && a >= 2 && b >= 2 ::
      Frequency(scores, indices, |scores|, m, a) > Frequency(scores, indices, |scores|, m, b) > 0 ==>
      Renumber(tables[m], a) < Renumber(tables[m], b)
    ensures forall i, values :: 0 <= i < |scores| && |values| == |indices[i]| ==>
      Lookup(optimizedScores[i], KeyOf(RenumberAll(tables, indices[i], values))) == Lookup(scores[i], KeyOf(values))
  {
    hide KeyOf, TableOk, TablesOk, NothingDropped, Remapped, AllCounted, KeysOk, IdOf, Renumber, RenumberAll,
      Frequency, CountAt;
    var counts := CountAll(|maps|, scores, indices);
    var renumberings := BuildTables(counts);
    optimizedMaps := OptimizeAllIds(maps, renumberings);
    forall i | 0 <= i < |scores| {
      CountedIsKept(counts, renumberings, scores[i], indices[i]);
    }
    optimizedScores := RemapAll(scores, renumberings, indices);
    tables := renumberings;
    assert forall m :: 0 <= m < |maps| ==> FollowsCounts(counts, tables[m], m);
  }

  method CountAll(maps: nat, scores: seq<ScoreMap>, indices: seq<MapIndices>) returns (counts: seq<seq<nat>>)
    requires |scores| == |indices|
    requires forall i :: 0 <= i < |scores| ==> IndicesOk(indices[i], maps) && KeysOk(scores[i], |indices[i]|)
    ensures |counts| == maps && forall m :: 0 <= m < maps ==> |counts[m]| <= 0x1_0000_0000
    ensures forall i :: 0 <= i < |scores| ==> AllCounted(counts, scores[i], indices[i])
    ensures forall m: nat, id :: m < maps ==> CountAt(counts, m, id) == Frequency(scores, indices, |scores|, m, id)
  {
    hide AllCounted, KeysOk, Uses;
    counts := seq(maps, _ => []);
    for i := 0 to |scores|
      invariant |counts| == maps && Grown(counts, counts)
      invariant forall k :: 0 <= k < i ==> AllCounted(counts, scores[k], indices[k])
      invariant forall m: nat, id :: m < maps ==> CountAt(counts, m, id) == Frequency(scores, indices, i, m, id)
    {
      var grown := CountKeys(counts, scores[i], indices[i]);
      AllCountedGrows(counts, grown, scores, indices, i);
      counts := grown;
    }
  }

  method OptimizeAllIds(maps: seq<IdMap>, tables: seq<Renumbering>) returns (optimized: seq<IdMap>)
    requires |tables| == |maps| && TablesOk(tables)
    ensures |optimized| == |maps|
    ensures forall m, feature :: 0 <= m < |maps| ==>
      IdOf(optimized[m], feature) == Renumber(tables[m], IdOf(maps[m], feature))
  {
    hide IdOf, Renumber, TableOk;
    optimized := [];
    for m := 0 to |maps|
      invariant |optimized| == m
      invariant forall n, feature ::
        0 <= n < m ==> IdOf(optimized[n], feature) == Renumber(tables[n], IdOf(maps[n], feature))
    {
      assert TableOk(tables[m]);
      var ids := OptimizeIds(maps[m], tables[m]);
      optimized := optimized + [ids];
    }
  }

  method RemapAll(scores: seq<ScoreMap>, tables: seq<Renumbering>, indices: seq<MapIndices>)
    returns (optimized: seq<ScoreMap>)
    requires |scores| == |indices| && TablesOk(tables)
    requires forall i :: 0 <= i < |scores| ==> IndicesOk(indices[i], |tables|) && KeysOk(scores[i], |indices[i]|)
    requires forall i :: 0 <= i < |scores| ==> NothingDropped(scores[i], tables, indices[i])
    ensures |optimized| == |scores|
    ensures forall i, values :: 0 <= i < |scores| && |values| == |indices[i]| ==>
      Lookup(optimized[i], KeyOf(RenumberAll(tables, indices[i], values))) == Lookup(scores[i], KeyOf(values))
  {
    hide KeyOf, TablesOk, NothingDropped, Remapped, KeysOk, RenumberAll, Lookup;
    optimized := [];
    for i := 0 to |scores|
      invariant |optimized| == i
      invariant forall k, values :: 0 <= k < i && |values| == |indices[k]| ==>
        Lookup(optimized[k], KeyOf(RenumberAll(tables, indices[k], values))) == Lookup(scores[k], KeyOf(values))
    {
      var remapped := RemapKeys(scores[i], tables, indices[i]);
      forall values: seq<UInt32> | |values| == |indices[i]| {
        RenumberedWeight(scores[i], remapped, tables, indices[i], values);
      }
      optimized := optimized + [remapped];
    }
  }

  lemma AllCountedGrows(before: seq<seq<nat>>, after: seq<seq<nat>>, scores: seq<ScoreMap>, indices: seq<MapIndices>,
                        i: nat)
    requires |scores| == |indices| && i <= |scores| && Grown(before, after)
    requires forall k :: 0 <= k < |indices| ==> IndicesOk(indices[k], |before|)
    requires forall k :: 0 <= k < i ==> AllCounted(before, scores[k], indices[k])
    ensures forall k :: 0 <= k < i ==> AllCounted(after, scores[k], indices[k])
  {
    forall k, key, values | 0 <= k < i && key in scores[k] && scores[k][key] != 0 && IsKey(key, values, |indices[k]|)
      ensures Counted(after, indices[k], values)
    {
      CountedGrows(before, after, indices[k], values);
    }
  }
}
