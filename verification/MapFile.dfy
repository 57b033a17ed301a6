/** Maps as they are saved and loaded (src/morpho/persistent_unordered_map.h and
    persistent_unordered_map_encoder.h). */
module MapFile {
  import opened Bytes
  import opened FnvHash
  import opened PersistentMap
  import opened Words
  import EditScript

  /** What is saved of a hash: where its buckets start, and its bytes. */
  datatype Image = Image(hash: seq<nat>, data: seq<Byte>) {
    /** The size of the bytes is summed up in a signed number. */
    predicate Fits() { |hash| < 0x1_0000_0000 && |data| < 0x8000_0000 }
  }

  function Images(m: Map): (r: seq<Image>)
    reads m, m.hashes
    ensures |r| == |m.hashes|
  {
    seq(|m.hashes|, i requires 0 <= i < |m.hashes| reads m, m.hashes => Image(m.hashes[i].hash, m.hashes[i].data))
  }

  /** Everything fits in its field. */
  predicate AllFit(images: seq<Image>) {
    |images| < 0x100 && forall i <- images :: i.Fits()
  }

  /** The images are those of a map that holds the items. */
  ghost predicate Hold(images: seq<Image>, items: seq<Entry>) {
    && (forall e <- items :: |e.key| < |images|)
    && forall i :: 0 <= i < |images| ==> Laid(i, images[i].hash, images[i].data, OfLength(items, i))
  }

  function ImageBytes(image: Image): seq<Byte> {
    Le4(|image.hash|) + (Le4s(image.hash) + (Le4(|image.data|) + image.data))
  }

  function ImagesBytes(images: seq<Image>): seq<Byte>
    decreases |images|
  {
    if images == [] then [] else ImageBytes(images[0]) + ImagesBytes(images[1..])
  }

  /** A saved map. */
  function MapBytes(images: seq<Image>): seq<Byte>
    requires |images| < 0x100
  {
    [|images|] + ImagesBytes(images)
  }

  lemma ImagesHold(m: Map, items: seq<Entry>)
    requires m.Holds(items)
    ensures Hold(Images(m), items)
  {
    hide OfLength, Hash.Built, Laid;
    forall i | 0 <= i < |m.hashes|
      ensures Laid(i, m.hashes[i].hash, m.hashes[i].data, OfLength(items, i))
    {
      m.hashes[i].IsLaid();
    }
  }

  /** Bucket starts and bytes of one hash. */
  method SaveHash(h: Hash) returns (data: seq<Byte>)
    ensures data == ImageBytes(Image(h.hash, h.data))
  {
    hide Le4;
    data := Le4(|h.hash|);
    ghost var size := data;
    assert Le4s(h.hash[..0]) == [];
    for i := 0 to |h.hash|
      invariant data == size + Le4s(h.hash[..i])
    {
      assert h.hash[..i + 1] == h.hash[..i] + [h.hash[i]];
      Le4sAppend(h.hash[..i], h.hash[i]);
      data := data + Le4(h.hash[i]);
    }
    assert h.hash[..|h.hash|] == h.hash;
    data := data + Le4(|h.data|);
    data := data + h.data;
  }

  /** Saves a map, if everything fits in its field. */
  method Save(m: Map) returns (data: Option<seq<Byte>>)
    ensures data.None? <==> !AllFit(Images(m))
    ensures data.Some? ==> data.value == MapBytes(Images(m))
  {
    hide ImageBytes;
    ghost var images := Images(m);
    if |m.hashes| >= 0x100 {
      return None;
    }
    var n: Byte := |m.hashes|;
    var bytes: seq<Byte> := [n];
    assert images[0..] == images;
    for i := 0 to |m.hashes|
      invariant forall j :: 0 <= j < i ==> images[j].Fits()
      invariant bytes + ImagesBytes(images[i..]) == MapBytes(images)
    {
      assert images[i] in images && images[i..][0] == images[i] && images[i..][1..] == images[i + 1..];
      if |m.hashes[i].hash| >= 0x1_0000_0000 || |m.hashes[i].data| >= 0x8000_0000 {
        return None;
      }
      var hash := SaveHash(m.hashes[i]);
      bytes := bytes + hash;
    }
    assert images[|images|..] == [];
    data := Some(bytes);
  }

  /** The places where buckets start are places in the bytes. */
  lemma {:induction false} StartsFit(len: nat, image: Image, entries: seq<Entry>)
    requires Laid(len, image.hash, image.data, entries) && image.Fits()
    ensures forall n <- image.hash :: n < 0x1_0000_0000
  {
    hide Offset, AllStored;
    var buckets, slots := |image.hash| - 1, Slots(entries);
    forall b | 0 <= b <= buckets
      ensures image.hash[b] <= |image.data|
    {
      if b < buckets { OffsetMonotone(buckets, slots, b, buckets); }
    }
  }

  /** Where the fields of a saved hash are. */
  lemma Fields(data: seq<Byte>, pos: nat, image: Image, tail: seq<Byte>)
    requires image.Fits() && forall n <- image.hash :: n < 0x1_0000_0000
    requires pos <= |data| && ImageBytes(image) + tail <= data[pos..]
    ensures var size := |image.hash|;
      && pos + 8 + 4 * size <= |data| && Quad(data, pos) == size && Quads(data, pos + 4, size) == image.hash
      && Quad(data, pos + 4 + 4 * size) == |image.data|
    ensures var next := pos + 8 + 4 * |image.hash|;
      && next + |image.data| <= |data| && data[next..next + |image.data|] == image.data
        && tail <= data[next + |image.data|..]
  {
    hide Le4, Le4s, Quad, Quads;
    var rest := Le4(|image.data|) + (image.data + tail);
    assert ImageBytes(image) + tail == Le4(|image.hash|) + (Le4s(image.hash) + rest);
    StartsField(data, pos, image.hash, rest);
    DataField(data, pos + 4 + 4 * |image.hash|, image.data, tail);
  }

  lemma StartsField(data: seq<Byte>, pos: nat, hash: seq<nat>, tail: seq<Byte>)
    requires |hash| < 0x1_0000_0000 && forall n <- hash :: n < 0x1_0000_0000
    requires pos <= |data| && Le4(|hash|) + (Le4s(hash) + tail) <= data[pos..]
    ensures pos + 4 + 4 * |hash| <= |data| && Quad(data, pos) == |hash| && Quads(data, pos + 4, |hash|) == hash
    ensures tail <= data[pos + 4 + 4 * |hash|..]
  {
    hide Le4, Le4s, Quad, Quads;
    Field4(data, pos, |hash|, Le4s(hash) + tail);
    Front(data[pos + 4..], Le4s(hash), tail);
    EditScript.Consume(data, pos + 4, Le4s(hash), tail);
    QuadsOfLe4s(data, pos + 4, hash);
  }

  lemma Front(data: seq<Byte>, part: seq<Byte>, tail: seq<Byte>)
    requires part + tail <= data
    ensures part <= data
  {
    assert data[..|part|] == (part + tail)[..|part|];
  }

  lemma DataField(data: seq<Byte>, pos: nat, bytes: seq<Byte>, tail: seq<Byte>)
    requires |bytes| < 0x1_0000_0000 && pos <= |data| && Le4(|bytes|) + (bytes + tail) <= data[pos..]
    ensures pos + 4 + |bytes| <= |data| && Quad(data, pos) == |bytes| && data[pos + 4..pos + 4 + |bytes|] == bytes
    ensures tail <= data[pos + 4 + |bytes|..]
  {
    hide Le4, Quad;
    Field4(data, pos, |bytes|, bytes + tail);
    EditScript.Consume(data, pos + 4, bytes, tail);
  }

  lemma Field4(data: seq<Byte>, pos: nat, n: nat, tail: seq<Byte>)
    requires n < 0x1_0000_0000 && pos <= |data| && Le4(n) + tail <= data[pos..]
    ensures pos + 4 <= |data| && Quad(data, pos) == n && tail <= data[pos + 4..]
  {
    hide Le4, Quad;
    EditScript.Consume(data, pos, Le4(n), tail);
    QuadOfLe4(data, pos, n);
  }

  /** Reads one hash. */
  method LoadHash(len: nat, data: seq<Byte>, pos: nat, ghost image: Image, ghost entries: seq<Entry>,
                  ghost tail: seq<Byte>)
    returns (h: Hash, next: nat)
    requires Laid(len, image.hash, image.data, entries) && image.Fits()
    requires pos <= |data| && ImageBytes(image) + tail <= data[pos..]
    ensures fresh(h) && h.Built() && h.len == len && h.entries == entries && h.hash == image.hash
    ensures h.data == image.data
    ensures pos <= next <= |data| && tail <= data[next..]
  {
    hide Quad, Laid, Quads, Hash.Built, ImageBytes;
    StartsFit(len, image, entries);
    Fields(data, pos, image, tail);
    var size := Quad(data, pos);
    var hash := Quads(data, pos + 4, size);
    next := pos + 4 + 4 * size;
    size := Quad(data, next);
    next := next + 4;
    h := new Hash.Saved(len, hash, data[next..next + size], entries);
    next := next + size;
  }

  /** Reads a map: what was saved is what it holds. */
  method Load(m: Map, data: seq<Byte>, pos: nat, ghost images: seq<Image>, ghost items: seq<Entry>,
              ghost tail: seq<Byte>)
    returns (next: nat)
    requires AllFit(images) && Hold(images, items)
    requires pos <= |data| && MapBytes(images) + tail <= data[pos..]
    modifies m
    ensures m.Holds(items) && Images(m) == images && forall h <- m.hashes :: fresh(h)
    ensures pos <= next <= |data| && tail <= data[next..]
  {
    hide ImageBytes, ImagesBytes, Laid, OfLength, Hash.Built, Image.Fits;
    assert MapBytes(images) + tail == [|images|] + (ImagesBytes(images) + tail);
    EditScript.Consume(data, pos, [|images|], ImagesBytes(images) + tail);
    var sizes := data[pos];
    next := pos + 1;
    m.hashes := [];
    assert images[0..] == images;
    for i := 0 to sizes
      invariant |m.hashes| == i && pos <= next <= |data|
      invariant forall j ::
        0 <= j < i ==> m.hashes[j].len == j && m.hashes[j].Built() && m.hashes[j].entries == OfLength(items, j)
      invariant forall j :: 0 <= j < i ==> fresh(m.hashes[j]) && Image(m.hashes[j].hash, m.hashes[j].data) == images[j]
      invariant ImagesBytes(images[i..]) + tail <= data[next..]
    {
      ghost var rest := ImagesBytes(images[i + 1..]) + tail;
      assert images[i] in images;
      NextImage(images, i, tail);
      var h;
      h, next := LoadHash(i, data, next, images[i], OfLength(items, i), rest);
      m.hashes := m.hashes + [h];
    }
    assert images[sizes..] == [];
    assert ImagesBytes([]) + tail == tail by { NoImages(tail); }
    assert Images(m) == images;
  }

  lemma NextImage(images: seq<Image>, i: nat, tail: seq<Byte>)
    requires i < |images|
    ensures ImagesBytes(images[i..]) + tail == ImageBytes(images[i]) + (ImagesBytes(images[i + 1..]) + tail)
  {
    hide ImageBytes;
    assert images[i..][0] == images[i] && images[i..][1..] == images[i + 1..];
  }

  lemma NoImages(tail: seq<Byte>)
    ensures ImagesBytes([]) + tail == tail
  {
  }
}
