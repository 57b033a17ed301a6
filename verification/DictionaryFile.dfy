/** The whole byte stream of a dictionary but for the suffix table: how many keys of each length there are,
    the lemmas with their roots, and the tags (src/morpho/morpho_dictionary_encoder.h and
    morpho_dictionary.h). */
module DictionaryFile {
  import opened Bytes
  import opened Words
  import opened EditScript
  import opened ClassFactoring
  import opened DictionaryCodec
  import PersistentMap

  /** Different texts by length. */
  class Histogram {
    var lengths: seq<set<Text>>

    /** Each text is counted under its length, nothing else is, and no length beyond the longest is listed. */
    ghost predicate Counts(texts: seq<Text>)
      reads this
    {
      && (lengths != [] ==> lengths[|lengths| - 1] != {})
      && (forall t <- texts :: |t| < |lengths| && t in lengths[|t|])
      && forall i :: 0 <= i < |lengths| ==> forall t <- lengths[i] :: t in texts && |t| == i
    }

    constructor ()
      ensures Counts([]) && lengths == []
    {
      lengths := [];
    }

    method Add(str: Text, ghost texts: seq<Text>)
      requires Counts(texts)
      modifies this
      ensures Counts(texts + [str])
      ensures |lengths| == if |str| >= |old(lengths)| then |str| + 1 else |old(lengths)|
    {
      if |str| >= |lengths| {
        lengths := lengths + seq(|str| + 1 - |lengths|, _ => {});
      }
      lengths := lengths[|str| := lengths[|str|] + {str}];
    }

    /** The number of texts of each length. */
    function Sizes(): (r: seq<nat>)
      reads this
      ensures |r| == |lengths| && forall i :: 0 <= i < |r| ==> r[i] == |lengths[i]|
    {
      seq(|lengths|, i requires 0 <= i < |lengths| reads this => |lengths[i]|)
    }

    method Encode() returns (data: seq<Byte>)
      requires |lengths| < 0x100
      ensures data == HistogramBytes(Sizes())
    {
      data := [|lengths|];
      ghost var sizes := Sizes();
      assert Le4s(sizes[..0]) == [];
      for i := 0 to |lengths|
        invariant data == [|lengths|] + Le4s(sizes[..i])
      {
        assert sizes[..i + 1] == sizes[..i] + [sizes[i]];
        Le4sAppend(sizes[..i], sizes[i]);
        data := data + Le4(|lengths[i]|);
      }
      assert sizes[..|lengths|] == sizes;
    }
  }

  function HistogramBytes(sizes: seq<nat>): seq<Byte>
    requires |sizes| < 0x100
  {
    [|sizes|] + Le4s(sizes)
  }

  /** Tags, each preceded by its length. */
  function TagsBytes(tags: seq<Text>): seq<Byte>
    requires forall t <- tags :: |t| < 0x100
    decreases |tags|
  {
    if tags == [] then [] else [|tags[0]|] + tags[0] + TagsBytes(tags[1..])
  }

  /** The stream, up to the suffix table. */
  ghost function FileBytes(lemmaSizes: seq<nat>, rootSizes: seq<nat>, lemmas: seq<Lemma>, tags: seq<Text>): seq<Byte>
    requires FileFits(lemmaSizes, rootSizes, lemmas, tags)
  {
    HistogramBytes(lemmaSizes)
      + (HistogramBytes(rootSizes) + (Le4(|lemmas|) + (LemmasBytes([], lemmas) + (Le2(|tags|) + TagsBytes(tags)))))
  }

  /** All counts and lengths fit in their fields. */
  predicate FileFits(lemmaSizes: seq<nat>, rootSizes: seq<nat>, lemmas: seq<Lemma>, tags: seq<Text>) {
    && |lemmaSizes| < 0x100 && |rootSizes| < 0x100 && |lemmas| < 0x1_0000_0000 && |tags| < 0x1_0000
    && (forall l <- lemmas :: LemmaFits(l)) && forall t <- tags :: |t| < 0x100
  }

  method EncodeTags(tags: seq<Text>) returns (data: seq<Byte>)
    requires forall t <- tags :: |t| < 0x100
    ensures data == TagsBytes(tags)
  {
    data := [];
    assert tags[0..] == tags;
    for i := 0 to |tags|
      invariant forall t <- tags[i..] :: |t| < 0x100
      invariant data + TagsBytes(tags[i..]) == TagsBytes(tags)
    {
      assert tags[i] in tags[i..] && tags[i..][0] == tags[i] && tags[i..][1..] == tags[i + 1..];
      var n: Byte := |tags[i]|;
      data := data + [n];
      data := data + tags[i];
    }
  }

  /** Writes everything but the suffix table. */
  method EncodeFile(lemmasHist: Histogram, formsHist: Histogram, lemmas: seq<Lemma>, tags: seq<Text>)
    returns (data: seq<Byte>)
    requires FileFits(lemmasHist.Sizes(), formsHist.Sizes(), lemmas, tags)
    ensures data == FileBytes(lemmasHist.Sizes(), formsHist.Sizes(), lemmas, tags)
  {
    hide HistogramBytes, LemmasBytes, TagsBytes, Le2, Le4, LemmaFits;
    var a := lemmasHist.Encode();
    var b := formsHist.Encode();
    var c := EncodeLemmas(lemmas);
    var d := EncodeTags(tags);
    data := a + b;
    data := data + Le4(|lemmas|);
    data := data + c;
    data := data + Le2(|tags|);
    data := data + d;
    Associate6(a, b, Le4(|lemmas|), c, Le2(|tags|), d);
  }

  lemma Associate6(a: seq<Byte>, b: seq<Byte>, c: seq<Byte>, d: seq<Byte>, e: seq<Byte>, f: seq<Byte>)
    ensures a + b + c + d + e + f == a + (b + (c + (d + (e + f))))
  {
  }

  /** The stream with what follows it, part after part. */
  lemma FileParts(lemmaSizes: seq<nat>, rootSizes: seq<nat>, lemmas: seq<Lemma>, tags: seq<Text>, tail: seq<Byte>)
    requires FileFits(lemmaSizes, rootSizes, lemmas, tags)
    ensures FileBytes(lemmaSizes, rootSizes, lemmas, tags) + tail ==
      HistogramBytes(lemmaSizes) + (HistogramBytes(rootSizes)
        + (Le4(|lemmas|) + (LemmasBytes([], lemmas) + (Le2(|tags|) + (TagsBytes(tags) + tail)))))
  {
    hide HistogramBytes, LemmasBytes, TagsBytes, Le2, Le4, LemmaFits;
    Reassociate(HistogramBytes(lemmaSizes), HistogramBytes(rootSizes), Le4(|lemmas|), LemmasBytes([], lemmas),
      Le2(|tags|), TagsBytes(tags), tail);
  }

  lemma Reassociate(a: seq<Byte>, b: seq<Byte>, c: seq<Byte>, d: seq<Byte>, e: seq<Byte>, f: seq<Byte>, g: seq<Byte>)
    ensures a + (b + (c + (d + (e + f)))) + g == a + (b + (c + (d + (e + (f + g)))))
  {
    assert e + f + g == e + (f + g);
    assert d + (e + f) + g == d + (e + (f + g));
    assert c + (d + (e + f)) + g == c + (d + (e + (f + g)));
    assert b + (c + (d + (e + f))) + g == b + (c + (d + (e + (f + g))));
  }

  // ----- Reading

  /** Announces the lengths of keys to a map. */
  method LoadLengths(m: PersistentMap.Map, data: seq<Byte>, pos: nat, ghost sizes: seq<nat>, ghost tail: seq<Byte>)
    returns (next: nat)
    requires m.hashes == [] && |sizes| < 0x100 && pos <= |data| && HistogramBytes(sizes) + tail <= data[pos..]
    modifies m
    ensures m.AllAdding([]) && |m.hashes| == |sizes| && forall i :: 0 <= i < |m.hashes| ==> fresh(m.hashes[i])
    ensures pos <= next <= |data| && tail <= data[next..]
  {
    hide Le4s, Quad, PersistentMap.Map.AllAdding;
    NothingAdded(m);
    assert HistogramBytes(sizes) + tail == [|sizes|] + (Le4s(sizes) + tail);
    Consume(data, pos, [|sizes|], Le4s(sizes) + tail);
    Consume(data, pos + 1, Le4s(sizes), tail);
    var n := data[pos];
    next := pos + 1;
    for i := 0 to n
      invariant next == pos + 1 + 4 * i
      invariant m.AllAdding([]) && |m.hashes| == i && forall j :: 0 <= j < |m.hashes| ==> fresh(m.hashes[j])
    {
      m.Resize(Quad(data, next));
      next := next + 4;
    }
  }

  lemma NothingAdded(m: PersistentMap.Map)
    requires m.hashes == []
    ensures m.AllAdding([])
  {
  }

  method ReadTags(data: seq<Byte>, pos: nat, count: nat, ghost tags: seq<Text>, ghost tail: seq<Byte>)
    returns (read: seq<Text>, next: nat)
    requires (forall t <- tags :: |t| < 0x100) && count == |tags|
    requires pos <= |data| && TagsBytes(tags) + tail <= data[pos..]
    ensures read == tags && pos <= next <= |data| && tail <= data[next..]
  {
    hide TagsBytes;
    read, next := [], pos;
    assert tags[0..] == tags;
    for i := 0 to count
      invariant |read| == i && read == tags[..i] && pos <= next <= |data|
      invariant (forall t <- tags[i..] :: |t| < 0x100) && TagsBytes(tags[i..]) + tail <= data[next..]
    {
      ghost var t := tags[i];
      assert t in tags[i..] && forall x <- tags[i + 1..] :: x in tags[i..];
      ghost var rest := TagsBytes(tags[i + 1..]) + tail;
      NextTag(tags, i, tail);
      Consume(data, next, [|t|], t + rest);
      Consume(data, next + 1, t, rest);
      var n := data[next];
      read, next := read + [data[next + 1..next + 1 + n]], next + 1 + n;
      assert tags[..i + 1] == tags[..i] + [t];
    }
    NoTags(tags[count..], tail);
  }

  lemma NextTag(tags: seq<Text>, i: nat, tail: seq<Byte>)
    requires i < |tags| && (forall t <- tags[i..] :: |t| < 0x100) && forall t <- tags[i + 1..] :: |t| < 0x100
    ensures |tags[i]| < 0x100
    ensures TagsBytes(tags[i..]) + tail == [|tags[i]|] + (tags[i] + (TagsBytes(tags[i + 1..]) + tail))
  {
    assert tags[i] in tags[i..] && tags[i..][0] == tags[i] && tags[i..][1..] == tags[i + 1..];
  }

  lemma NoTags(tags: seq<Text>, tail: seq<Byte>)
    requires tags == []
    ensures TagsBytes(tags) + tail == tail
  {
  }
}
