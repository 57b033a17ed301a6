/** What is stored with each suffix: the classes that use it, in ascending order, and the tags each class
    gives it (src/morpho/morpho_dictionary_encoder.h and morpho_dictionary.h). */
module SuffixTable {
  import opened Bytes
  import opened Words
  import FnvHash

  type Classes = map<nat, seq<nat>>

  /** The classes below a bound, in ascending order. */
  function Ids(m: Classes, bound: nat): (r: seq<nat>)
    ensures forall c <- r :: c in m && c < bound
  {
    if bound == 0 then [] else
      var front := Ids(m, bound - 1);
      assert forall c <- front :: c < bound;
      front + if bound - 1 in m then [bound - 1] else []
  }

  lemma {:induction false} IdsExact(m: Classes, bound: nat)
    ensures forall c: nat :: c in Ids(m, bound) <==> c in m && c < bound
    ensures forall i, j :: 0 <= i < j < |Ids(m, bound)| ==> Ids(m, bound)[i] < Ids(m, bound)[j]
  {
    if bound > 0 {
      IdsExact(m, bound - 1);
      var front := Ids(m, bound - 1);
      assert forall i :: 0 <= i < |front| ==> front[i] in front;
    }
  }

  /** The tags of a class that may be missing. */
  function TagsFor(m: Classes, clas: nat): seq<nat> {
    if clas in m then m[clas] else []
  }

  /** The tags of the given classes, one class after the other. */
  function TagsOf(m: Classes, ids: seq<nat>): seq<nat> {
    if ids == [] then [] else TagsOf(m, ids[..|ids| - 1]) + TagsFor(m, ids[|ids| - 1])
  }

  lemma TagsOfNext(m: Classes, ids: seq<nat>, i: nat)
    requires i < |ids|
    ensures TagsOf(m, ids[..i + 1]) == TagsOf(m, ids[..i]) + TagsFor(m, ids[i])
  {
    assert ids[..i + 1][..i] == ids[..i];
  }

  lemma {:induction false} TagsOfPrefix(m: Classes, ids: seq<nat>, i: nat, j: nat)
    requires i <= j <= |ids|
    ensures TagsOf(m, ids[..i]) <= TagsOf(m, ids[..j])
  {
    hide TagsOf;
    if i < j {
      TagsOfNext(m, ids, j - 1);
      TagsOfPrefix(m, ids, i, j - 1);
    }
  }

  /** Everything fits in two bytes. */
  predicate Fits(m: Classes, bound: nat) {
    && (forall c <- m :: c < bound) && bound <= 0x1_0000 && |Ids(m, bound)| < 0x1_0000
    && |TagsOf(m, Ids(m, bound))| < 0x1_0000 && forall t <- TagsOf(m, Ids(m, bound)) :: t < 0x1_0000
  }

  /** Where the tags of each class start; one more entry for their end. */
  function Starts(m: Classes, ids: seq<nat>): (r: seq<nat>)
    ensures |r| == |ids| + 1 && forall i :: 0 <= i <= |ids| ==> r[i] == |TagsOf(m, ids[..i])|
  {
    seq(|ids| + 1, i requires 0 <= i <= |ids| => |TagsOf(m, ids[..i])|)
  }

  ghost function Numbers(m: Classes, bound: nat): (r: seq<nat>)
    ensures |r| == 2 * |Ids(m, bound)| + 2 + |TagsOf(m, Ids(m, bound))|
  {
    var ids := Ids(m, bound);
    [|ids|] + ids + Starts(m, ids) + TagsOf(m, ids)
  }

  lemma NumbersFit(m: Classes, bound: nat)
    requires Fits(m, bound)
    ensures forall n <- Numbers(m, bound) :: n < 0x1_0000
  {
    hide TagsOf;
    var ids := Ids(m, bound);
    assert ids[..|ids|] == ids;
    forall n | n in Starts(m, ids)
      ensures n < 0x1_0000
    {
      var i :| 0 <= i <= |ids| && Starts(m, ids)[i] == n;
      TagsOfPrefix(m, ids, i, |ids|);
    }
  }

  ghost function Payload(m: Classes, bound: nat): seq<Byte> {
    Le2s(Numbers(m, bound))
  }

  /** How many bytes a reader of the entry skips. */
  function Size(data: seq<Byte>): nat {
    if |data| < 2 then 0 else
      var n := Word(data, 0);
      var last := 2 + 2 * n + 2 * n;
      if |data| < last + 2 then 0 else last + 2 + 2 * Word(data, last)
  }

  /** The numbers of an entry, read where it is stored. */
  lemma ReadNumber(data: seq<Byte>, p: nat, m: Classes, bound: nat, i: nat)
    requires Fits(m, bound) && p <= |data| && Payload(m, bound) <= data[p..] && i < |Numbers(m, bound)|
    ensures p + 2 * i + 2 <= |data| && Word(data, p + 2 * i) == Numbers(m, bound)[i]
  {
    hide Word, Numbers, Fits;
    NumbersFit(m, bound);
    assert Numbers(m, bound)[i] in Numbers(m, bound);
    WordOfLe2s(data, p, Numbers(m, bound), i);
  }

  lemma SizeDelimits(m: Classes, bound: nat)
    requires Fits(m, bound)
    ensures FnvHash.Delimits(Size, Payload(m, bound)) && |Payload(m, bound)| > 0
  {
    hide Word, TagsOf;
    var ids, payload := Ids(m, bound), Payload(m, bound);
    assert ids[..|ids|] == ids;
    forall rest: seq<Byte>
      ensures Size(payload + rest) == |payload|
    {
      var data := payload + rest;
      assert data[0..] == data;
      ReadNumber(data, 0, m, bound, 0);
      ReadNumber(data, 0, m, bound, 2 * |ids| + 1);
    }
  }

  /** Appends an entry to the output. */
  method Encode(m: Classes, bound: nat) returns (data: seq<Byte>)
    requires Fits(m, bound)
    ensures data == Payload(m, bound)
  {
    hide TagsOf, Le2s;
    var ids := Ids(m, bound);
    ghost var words: seq<nat> := [|ids|];
    data := Le2(|ids|);
    Le2sAppend([], |ids|);
    assert Le2s([]) + Le2(|ids|) == Le2(|ids|) && [] + [|ids|] == [|ids|] by { EmptyLe2s(); }
    for i := 0 to |ids|
      invariant words == [|ids|] + ids[..i] && data == Le2s(words)
    {
      assert ids[i] in ids;
      Le2sAppend(words, ids[i]);
      data, words := data + Le2(ids[i]), words + [ids[i]];
      assert ids[..i + 1] == ids[..i] + [ids[i]];
    }
    assert ids[..|ids|] == ids;
    data, words := EncodeStarts(m, bound, ids, data, words);
    data, words := EncodeTags(m, bound, ids, data, words);
  }

  lemma EmptyLe2s()
    ensures Le2s([]) == []
  {
  }

  method EncodeStarts(m: Classes, bound: nat, ids: seq<nat>, before: seq<Byte>, ghost wordsBefore: seq<nat>)
    returns (data: seq<Byte>, ghost words: seq<nat>)
    requires Fits(m, bound) && ids == Ids(m, bound) && before == Le2s(wordsBefore)
    ensures words == wordsBefore + Starts(m, ids) && data == Le2s(words)
  {
    hide TagsOf, Le2s;
    NumbersFit(m, bound);
    data, words := before, wordsBefore;
    ghost var starts := Starts(m, ids);
    var tags := 0;
    NoTags(m, ids);
    assert ids[..|ids|] == ids;
    for i := 0 to |ids|
      invariant tags == |TagsOf(m, ids[..i])| && words == wordsBefore + starts[..i] && data == Le2s(words)
    {
      TagsOfPrefix(m, ids, i, |ids|);
      Le2sAppend(words, tags);
      data, words := data + Le2(tags), words + [tags];
      assert ids[i] in ids;
      TagsOfNext(m, ids, i);
      tags := tags + |m[ids[i]]|;
      assert starts[..i + 1] == starts[..i] + [starts[i]];
    }
    Le2sAppend(words, tags);
    data, words := data + Le2(tags), words + [tags];
    assert starts == starts[..|ids|] + [starts[|ids|]];
  }

  lemma NoTags(m: Classes, ids: seq<nat>)
    ensures TagsOf(m, ids[..0]) == []
  {
  }

  method EncodeTags(m: Classes, bound: nat, ids: seq<nat>, before: seq<Byte>, ghost wordsBefore: seq<nat>)
    returns (data: seq<Byte>, ghost words: seq<nat>)
    requires Fits(m, bound) && ids == Ids(m, bound) && before == Le2s(wordsBefore)
    ensures words == wordsBefore + TagsOf(m, ids) && data == Le2s(words)
  {
    hide TagsOf, Le2s;
    data, words := before, wordsBefore;
    NoTags(m, ids);
    assert ids[..|ids|] == ids;
    for i := 0 to |ids|
      invariant words == wordsBefore + TagsOf(m, ids[..i]) && data == Le2s(words)
    {
      assert ids[i] in ids;
      var tags := m[ids[i]];
      TagsOfNext(m, ids, i);
      TagsOfPrefix(m, ids, i + 1, |ids|);
      ghost var start := words;
      for k := 0 to |tags|
        invariant words == start + tags[..k] && data == Le2s(words)
      {
        assert TagsOf(m, ids)[|TagsOf(m, ids[..i])| + k] == tags[k];
        Le2sAppend(words, tags[k]);
        data, words := data + Le2(tags[k]), words + [tags[k]];
        assert tags[..k + 1] == tags[..k] + [tags[k]];
      }
      assert tags[..|tags|] == tags;
    }
  }

  /** Numbers stored from a position on. */
  ghost predicate WordsAt(data: seq<Byte>, p: nat, words: seq<nat>) {
    p + 2 * |words| <= |data| && forall i :: 0 <= i < |words| ==> Word(data, p + 2 * i) == words[i]
  }

  predicate Ascending(words: seq<nat>) {
    forall i, j :: 0 <= i < j < |words| ==> words[i] < words[j]
  }

  /** Binary search for the first of `size` ascending numbers that is not below `val`. */
  method LowerBound(data: seq<Byte>, first: nat, size: nat, val: nat, ghost words: seq<nat>) returns (k: nat)
    requires size == |words| && WordsAt(data, first, words) && Ascending(words)
    ensures k <= size
    ensures forall i :: 0 <= i < k ==> words[i] < val
    ensures forall i :: k <= i < size ==> words[i] >= val
  {
    hide Word;
    k := 0;
    var left := size;
    while left > 0
      invariant k + left <= size
      invariant forall i :: 0 <= i < k ==> words[i] < val
      invariant forall i :: k + left <= i < size ==> words[i] >= val
    {
      var step := left / 2;
      assert Word(data, first + 2 * (k + step)) == words[k + step];
      if Word(data, first + 2 * (k + step)) < val {
        k, left := k + step + 1, left - step - 1;
      } else {
        left := step;
      }
    }
  }

  /** The tags of a class in an entry: positions of the first of them and of their end, equal when the
      class does not use the suffix. */
  method FindTags(data: seq<Byte>, p: nat, clas: nat, ghost m: Classes, ghost bound: nat) returns (from: nat, to: nat)
    requires Fits(m, bound) && p <= |data| && Payload(m, bound) <= data[p..]
    ensures to == from + 2 * |TagsFor(m, clas)| && WordsAt(data, from, TagsFor(m, clas))
  {
    hide Word, TagsOf, Numbers, Payload, Fits, Ids;
    ghost var ids := Ids(m, bound);
    IdsExact(m, bound);
    ReadLayout(data, p, m, bound);
    var n := Word(data, p);
    var k := LowerBound(data, p + 2, n, clas, ids);
    if k < n && Word(data, p + 2 + 2 * k) == clas {
      var starts := p + 2 + 2 * n;
      var tags := starts + 2 * n + 2;
      StartAt(data, starts, m, ids, k);
      StartAt(data, starts, m, ids, k + 1);
      from, to := tags + 2 * Word(data, starts + 2 * k), tags + 2 * Word(data, starts + 2 * (k + 1));
      TagsOfClass(data, tags, m, ids, k);
    } else {
      Unused(m, bound, clas, k);
      from, to := p, p;
    }
  }

  /** A search that ends at another class shows that the class is not used. */
  lemma Unused(m: Classes, bound: nat, clas: nat, k: nat)
    requires Fits(m, bound) && k <= |Ids(m, bound)|
    requires forall i :: 0 <= i < k ==> Ids(m, bound)[i] < clas
    requires forall i :: k <= i < |Ids(m, bound)| ==> Ids(m, bound)[i] >= clas
    requires k < |Ids(m, bound)| ==> Ids(m, bound)[k] != clas
    ensures clas !in m
  {
    hide TagsOf, Ids;
    var ids := Ids(m, bound);
    IdsExact(m, bound);
    forall i | 0 <= i < |ids|
      ensures ids[i] != clas
    {
      if i > k { assert ids[k] < ids[i]; }
    }
  }

  lemma StartAt(data: seq<Byte>, starts: nat, m: Classes, ids: seq<nat>, k: nat)
    requires k <= |ids| && WordsAt(data, starts, Starts(m, ids))
    ensures starts + 2 * k + 2 <= |data| && Word(data, starts + 2 * k) == |TagsOf(m, ids[..k])|
  {
    hide Word, TagsOf;
    assert Starts(m, ids)[k] == |TagsOf(m, ids[..k])|;
  }

  lemma TagsOfClass(data: seq<Byte>, p: nat, m: Classes, ids: seq<nat>, k: nat)
    requires k < |ids| && WordsAt(data, p, TagsOf(m, ids))
    ensures |TagsOf(m, ids[..k + 1])| == |TagsOf(m, ids[..k])| + |TagsFor(m, ids[k])|
    ensures WordsAt(data, p + 2 * |TagsOf(m, ids[..k])|, TagsFor(m, ids[k]))
  {
    hide Word, TagsOf;
    assert ids[..|ids|] == ids;
    TagsOfNext(m, ids, k);
    TagsOfPrefix(m, ids, k + 1, |ids|);
    var from, tags := |TagsOf(m, ids[..k])|, TagsFor(m, ids[k]);
    forall i | 0 <= i < |tags|
      ensures Word(data, p + 2 * from + 2 * i) == tags[i]
    {
      assert Word(data, p + 2 * (from + i)) == TagsOf(m, ids)[from + i] == TagsOf(m, ids[..k + 1])[from + i];
    }
  }

  /** Where the parts of an entry are. */
  lemma ReadLayout(data: seq<Byte>, p: nat, m: Classes, bound: nat)
    requires Fits(m, bound) && p <= |data| && Payload(m, bound) <= data[p..]
    ensures var ids := Ids(m, bound);
      var n := |ids|;
      && |Payload(m, bound)| == 4 * n + 4 + 2 * |TagsOf(m, ids)| && p + 2 <= |data| && Word(data, p) == n
      && WordsAt(data, p + 2, ids) && WordsAt(data, p + 2 + 2 * n, Starts(m, ids))
      && WordsAt(data, p + 2 + 2 * n + 2 * n + 2, TagsOf(m, ids))
  {
    hide Word, TagsOf, Fits, Ids;
    var ids := Ids(m, bound);
    var n := |ids|;
    ReadNumber(data, p, m, bound, 0);
    forall i | 0 <= i < n
      ensures Word(data, p + 2 + 2 * i) == ids[i]
    {
      ReadNumber(data, p, m, bound, 1 + i);
    }
    var starts := Starts(m, ids);
    forall i | 0 <= i < |starts|
      ensures Word(data, p + 2 + 2 * n + 2 * i) == starts[i]
    {
      ReadNumber(data, p, m, bound, 1 + n + i);
    }
    var tags := TagsOf(m, ids);
    forall i | 0 <= i < |tags|
      ensures Word(data, p + 2 + 2 * n + 2 * n + 2 + 2 * i) == tags[i]
    {
      ReadNumber(data, p, m, bound, 2 + 2 * n + i);
    }
    ReadNumber(data, p, m, bound, 1 + n + n);
  }
}
