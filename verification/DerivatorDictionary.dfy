/** Loading derivations in three passes, and looking up parents and children
    (src/derivator/derivator_dictionary.cpp). */
module DerivatorDictionary {
  import opened Bytes
  import opened Words
  import opened FnvHash
  import opened DerivatorCodec
  import opened DerivatorLayout
  import opened DictionaryFile
  import EditScript
  import PersistentMap

  type Map = PersistentMap.Map

  /** Places in a hash are stored in three bytes. */
  const MAX_OFFSET := 0x100_0000

  /** Keys and sizes of the entries. */
  function Shape(n: Node): Entry {
    Entry(n.text, seq(PayloadSize(n), _ => 0))
  }

  function Shapes(nodes: seq<Node>): (r: seq<Entry>)
    ensures |r| == |nodes| && forall k :: 0 <= k < |r| ==> r[k] == Shape(nodes[k])
  {
    seq(|nodes|, k requires 0 <= k < |nodes| => Shape(nodes[k]))
  }

  /** The entries when the parents of the first `i` lemmas have been stored. */
  ghost predicate ItemsOk(nodes: seq<Node>, places: seq<nat>, i: nat, items: seq<Entry>)
    requires NodesOk(nodes) && i <= |nodes|
  {
    |items| == |nodes| && forall k :: 0 <= k < |items| ==> ItemOk(nodes, places, i, k, items[k])
  }

  ghost predicate ItemOk(nodes: seq<Node>, places: seq<nat>, i: nat, k: nat, e: Entry)
    requires NodesOk(nodes) && i <= |nodes| && k < |nodes|
  {
    e.key == nodes[k].text
      && Layout(nodes[k], StoredParent(nodes, places, i, k), StoredKids(nodes, places, i, k), e.payload)
  }

  ghost function StoredParent(nodes: seq<Node>, places: seq<nat>, i: nat, k: nat): nat
    requires NodesOk(nodes) && k < |nodes|
  {
    if k < i then ParentRef(nodes, places, k) else 0
  }

  function StoredKids(nodes: seq<Node>, places: seq<nat>, i: nat, k: nat): seq<nat>
    requires i <= |nodes| && k < |nodes|
  {
    RefsTo(nodes, places, Kids(nodes, nodes[k].text, i))
  }

  /** The node numbers are the text's own. */
  lemma NumberUnique(nodes: seq<Node>, j: nat)
    requires NodesOk(nodes) && j < |nodes|
    ensures NumberOf(nodes, nodes[j].text) == j
  {
  }

  lemma RefBound(nodes: seq<Node>, places: seq<nat>, j: nat)
    requires NodesOk(nodes) && PlacesFit(nodes, places)
    ensures RefTo(nodes, places, j) < 0x1_0000_0000
    ensures j < |nodes| ==> RefTo(nodes, places, j) == Ref(places[j], |nodes[j].text|) > 0
    ensures j < |nodes| ==>
      RefTo(nodes, places, j) / 0x100 == places[j] && RefTo(nodes, places, j) % 0x100 == |nodes[j].text|
  {
    if j < |nodes| { assert NodeOk(nodes, j); }
  }

  lemma StoredParentBound(nodes: seq<Node>, places: seq<nat>, i: nat, k: nat)
    requires NodesOk(nodes) && PlacesFit(nodes, places) && k < |nodes|
    ensures StoredParent(nodes, places, i, k) < 0x1_0000_0000
  {
    assert NodeOk(nodes, k);
    if nodes[k].parent != [] { RefBound(nodes, places, NumberOf(nodes, nodes[k].parent)); }
  }

  // ----- Reading the stream

  ghost predicate NodesRemain(nodes: seq<Node>, k: nat, data: seq<Byte>, pos: nat)
    requires NodesOk(nodes) && k <= |nodes|
  {
    PreviousFits(nodes, k);
    pos <= |data| && NodesBytes(PreviousText(nodes, k), nodes[k..]) <= data[pos..]
  }

  function PreviousText(nodes: seq<Node>, k: nat): Text
    requires k <= |nodes|
  {
    if k == 0 then [] else nodes[k - 1].text
  }

  lemma PreviousFits(nodes: seq<Node>, k: nat)
    requires NodesOk(nodes) && k <= |nodes|
    ensures |PreviousText(nodes, k)| < 0x100 && forall n <- nodes[k..] :: NodeFits(n)
  {
    if k > 0 { assert NodeOk(nodes, k - 1); }
    forall n | n in nodes[k..]
      ensures NodeFits(n)
    {
      var i :| 0 <= i < |nodes[k..]| && nodes[k..][i] == n;
      assert NodeOk(nodes, k + i);
    }
  }

  method ReadNext(text: Text, data: seq<Byte>, pos: nat, ghost nodes: seq<Node>, ghost k: nat)
    returns (newText: Text, comment: Text, children: nat, parent: Text, next: nat)
    requires NodesOk(nodes) && k < |nodes| && text == PreviousText(nodes, k) && NodesRemain(nodes, k, data, pos)
    ensures newText == nodes[k].text && comment == nodes[k].comment && children == nodes[k].children
    ensures parent == nodes[k].parent
    ensures NodesRemain(nodes, k + 1, data, next)
  {
    hide NodeBytes, NodesOk;
    PreviousFits(nodes, k);
    PreviousFits(nodes, k + 1);
    ghost var n := nodes[k];
    assert NodeOk(nodes, k) by { OneOk(nodes, k); }
    assert nodes[k..][0] == n && nodes[k..][1..] == nodes[k + 1..];
    ghost var tail := NodesBytes(n.text, nodes[k + 1..]);
    assert NodesBytes(text, nodes[k..]) == NodeBytes(text, n) + tail;
    newText, comment, children, parent, next := ReadNode(text, data, pos, n, tail);
  }

  lemma OneOk(nodes: seq<Node>, k: nat)
    requires NodesOk(nodes) && k < |nodes|
    ensures NodeOk(nodes, k)
  {
  }

  // ----- The dictionary

  class Derivator {
    var derinet: PersistentMap.Map

    /** The hash is complete, and the parents of the first `i` lemmas have been stored. */
    ghost predicate Linked(nodes: seq<Node>, places: seq<nat>, i: nat, items: seq<Entry>)
      requires NodesOk(nodes) && i <= |nodes|
      reads `derinet, derinet, derinet.hashes
    {
      PlacesFit(nodes, places) && derinet.Holds(items) && ItemsOk(nodes, places, i, items)
        && places == derinet.Places(items)
    }

    constructor ()
      ensures fresh(derinet) && derinet.hashes == []
    {
      derinet := new PersistentMap.Map();
    }

    /** First pass: keys and sizes. */
    method AddPass(data: seq<Byte>, pos: nat, count: nat, ghost nodes: seq<Node>) returns (next: nat)
      requires NodesOk(nodes) && count == |nodes| && NodesRemain(nodes, 0, data, pos) && derinet.AllAdding([])
      modifies derinet.hashes
      ensures derinet.AllAdding(Shapes(nodes)) && derinet.hashes == old(derinet.hashes)
      ensures NodesRemain(nodes, count, data, next)
    {
      hide Map.AllAdding, NodesRemain, NodesOk;
      next := pos;
      var text: Text := [];
      ghost var shapes := Shapes(nodes);
      assert shapes[..0] == [];
      for k := 0 to count
        invariant text == PreviousText(nodes, k) && NodesRemain(nodes, k, data, next)
        invariant derinet.AllAdding(shapes[..k]) && derinet.hashes == old(derinet.hashes)
      {
        var comment, children, parent;
        text, comment, children, parent, next := ReadNext(text, data, next, nodes, k);
        derinet.Add(text, 1 + |comment| + 4 + 2 + 4 * children, shapes[..k], shapes[k]);
        assert shapes[..k + 1] == shapes[..k] + [shapes[k]];
      }
      assert shapes[..count] == shapes;
    }

    /** Second pass: keys, comments and numbers of children; the last slot of the children starts as a
        counter at zero. */
    method FillPass(data: seq<Byte>, pos: nat, count: nat, ghost nodes: seq<Node>)
      returns (next: nat, ghost filled: seq<Entry>)
      requires NodesOk(nodes) && count == |nodes| && NodesRemain(nodes, 0, data, pos)
      requires derinet.AllFilling(Shapes(nodes), [])
      requires forall n <- nodes :: |n.text| < |derinet.hashes|
      modifies derinet.hashes
      ensures derinet.AllFilling(Shapes(nodes), filled) && derinet.hashes == old(derinet.hashes)
      ensures |filled| == count && forall k :: 0 <= k < count ==> Begun(nodes[k], filled[k])
      ensures NodesRemain(nodes, count, data, next)
    {
      hide Map.AllFilling, NodesRemain, NodesOk, Begun;
      next, filled := pos, [];
      var text: Text := [];
      for k := 0 to count
        invariant text == PreviousText(nodes, k) && NodesRemain(nodes, k, data, next)
        invariant derinet.AllFilling(Shapes(nodes), filled) && derinet.hashes == old(derinet.hashes)
        invariant |filled| == k && forall j :: 0 <= j < k ==> Begun(nodes[j], filled[j])
      {
        var comment, children, parent;
        text, comment, children, parent, next := ReadNext(text, data, next, nodes, k);
        assert nodes[k] in nodes;
        assert NodeOk(nodes, k) by { OneOk(nodes, k); }
        ghost var e := BeginNode(text, comment, children, nodes[k], Shapes(nodes), filled);
        filled := filled + [e];
      }
    }

    /** Stores everything about a lemma but its parent and its children. */
    method BeginNode(text: Text, comment: Text, children: nat, ghost n: Node, ghost shapes: seq<Entry>,
                     ghost filled: seq<Entry>)
      returns (ghost e: Entry)
      requires derinet.AllFilling(shapes, filled) && |filled| < |shapes| && shapes[|filled|] == Shape(n)
      requires |text| < |derinet.hashes|
      requires text == n.text && comment == n.comment && children == n.children && NodeFits(n)
      modifies derinet.hashes
      ensures derinet.AllFilling(shapes, filled + [e]) && Begun(n, e) && derinet.hashes == old(derinet.hashes)
    {
      hide Map.AllFilling, Map.Place, Le2, Le4, Layout;
      ghost var k := |filled|;
      var offset, payload := derinet.Fill(text, 1 + |comment| + 4 + 2 + 4 * children, shapes, filled);
      e := Entry(text, payload);
      FillShape(derinet, shapes, filled + [e], k);
      var at := offset.value;
      var bytes := [|comment| % 0x100] + comment + Le4(0) + Le2(children);
      derinet.Patch(|text|, at, bytes, shapes, filled + [e], k, 0);
      assert (filled + [e])[k := Patched(e, 0, bytes)] == filled + [Patched(e, 0, bytes)];
      e := Patched(e, 0, bytes);
      if children > 0 {
        derinet.Patch(|text|, at + 1 + |comment| + 4 + 2 + 4 * (children - 1), Le4(0), shapes, filled + [e], k,
          SlotAt(n, children - 1));
        ghost var last := Patched(e, SlotAt(n, children - 1), Le4(0));
        assert (filled + [e])[k := last] == filled + [last];
        LayoutBegins(n, payload);
        e := last;
      } else {
        LayoutBegins(n, payload);
      }
    }

    lemma LinkedReadable(nodes: seq<Node>, places: seq<nat>, i: nat, items: seq<Entry>)
      requires NodesOk(nodes) && i <= |nodes| && Linked(nodes, places, i, items)
      ensures derinet.Readable(items, Size) && PersistentMap.NoneEmpty(items)
    {
      hide Map.Holds, Layout, Size;
      forall e | e in items
        ensures e.Bytes() != [] && Delimits(Size, e.payload)
      {
        var k :| 0 <= k < |items| && items[k] == e;
        OneOk(nodes, k);
        assert ItemOk(nodes, places, i, k, items[k]);
        LayoutDelimits(nodes[k], StoredParent(nodes, places, i, k), StoredKids(nodes, places, i, k), e.payload);
      }
    }

    /** Where the entry of a lemma is found. */
    method Find(text: Text, ghost nodes: seq<Node>, ghost places: seq<nat>, ghost i: nat, ghost items: seq<Entry>)
      returns (r: Option<nat>, ghost k: nat)
      requires NodesOk(nodes) && i <= |nodes| && Linked(nodes, places, i, items)
      ensures r.None? <==> forall j :: 0 <= j < |nodes| ==> nodes[j].text != text
      ensures r.Some? ==>
        k < |nodes| && nodes[k].text == text && r.value == places[k] + |text| && |text| < |derinet.hashes|
      ensures r.Some? ==>
        r.value <= |derinet.hashes[|text|].data| && items[k].payload <= derinet.hashes[|text|].data[r.value..]
    {
      hide Map.Holds, Map.Place, Map.Readable, Layout, NodesOk;
      LinkedReadable(nodes, places, i, items);
      r, k := derinet.At(text, Size, items);
      assert forall j :: 0 <= j < |nodes| ==> ItemOk(nodes, places, i, j, items[j]) && items[j] in items;
      if r.None? {
        forall j | 0 <= j < |nodes|
          ensures nodes[j].text != text
        {
          assert items[j].key != text;
        }
      }
    }

    /** Where an item is stored after others have been changed. */
    lemma StillThere(items: seq<Entry>, k: nat)
      requires derinet.Holds(items) && k < |items|
      ensures |items[k].key| < |derinet.hashes|
      ensures var p, data := derinet.Place(items, k) + |items[k].key|, derinet.hashes[|items[k].key|].data;
        p <= |data| && items[k].payload <= data[p..]
    {
      hide Map.Holds, Map.Place;
      var e := items[k];
      derinet.PlacedAt(items, items, k);
      assert e.Bytes() == e.key + e.payload;
      EditScript.Consume(derinet.hashes[|e.key|].data, derinet.Place(items, k), e.key, e.payload);
    }

    lemma PatchedPlaces(items: seq<Entry>, k: nat, from: nat, bytes: seq<Byte>)
      requires k < |items| && from + |bytes| <= |items[k].payload|
      ensures derinet.Places(items[k := Patched(items[k], from, bytes)]) == derinet.Places(items)
    {
      hide Map.Place;
      var others := items[k := Patched(items[k], from, bytes)];
      forall i | 0 <= i < |items|
        ensures derinet.Place(others, i) == derinet.Place(items, i)
      {
        derinet.PlaceOfSlots(others, items, i);
      }
    }

    /** Rewrites a part of a payload; places stay. */
    method Store(len: nat, at: nat, bytes: seq<Byte>, ghost items: seq<Entry>, ghost places: seq<nat>, ghost k: nat,
                 ghost from: nat)
      requires derinet.Holds(items) && places == derinet.Places(items) && k < |items| && len == |items[k].key|
      requires from + |bytes| <= |items[k].payload| && at == places[k] + len + from
      modifies derinet.hashes
      ensures derinet.Holds(items[k := Patched(items[k], from, bytes)]) && derinet.hashes == old(derinet.hashes)
      ensures places == derinet.Places(items[k := Patched(items[k], from, bytes)])
    {
      hide Map.Holds, Map.Place;
      PatchedPlaces(items, k, from, bytes);
      derinet.Rewrite(len, at, bytes, items, k, from);
    }

    /** Stores the reference to the parent. */
    method StoreParent(lemmaData: nat, len: nat, ref: nat, ghost n: Node, ghost before: nat, ghost kids: seq<nat>,
                       ghost items: seq<Entry>, ghost places: seq<nat>, ghost k: nat)
      returns (ghost payload: seq<Byte>)
      requires derinet.Holds(items) && places == derinet.Places(items) && k < |items| && items[k].key == n.text
      requires len == |n.text|
      requires Layout(n, before, kids, items[k].payload) && before < 0x1_0000_0000 && NodeFits(n)
      requires lemmaData == places[k] + len
      requires len < |derinet.hashes| && lemmaData <= |derinet.hashes[len].data|
      requires items[k].payload <= derinet.hashes[len].data[lemmaData..]
      modifies derinet.hashes
      ensures derinet.Holds(items[k := Entry(n.text, payload)]) && derinet.hashes == old(derinet.hashes)
      ensures places == derinet.Places(items[k := Entry(n.text, payload)]) && Layout(n, ref, kids, payload)
    {
      hide Map.Holds, Map.Place, Layout, Le4, Le2, Word, Quad;
      LayoutSize(n, before, kids, items[k].payload);
      ReadLayout(n, before, kids, items[k].payload, derinet.hashes[len].data, lemmaData);
      var comment := derinet.hashes[len].data[lemmaData];
      Store(len, lemmaData + 1 + comment, Le4(ref), items, places, k, 1 + |n.comment|);
      payload := Overwrite(items[k].payload, 1 + |n.comment|, Le4(ref));
      LayoutParent(n, before, ref, kids, items[k].payload);
      assert items[k := Patched(items[k], 1 + |n.comment|, Le4(ref))] == items[k := Entry(n.text, payload)];
    }

    /** Stores the next reference to a child. The last slot says which it is, until it is taken itself. */
    method StoreChild(parentData: nat, len: nat, ref: nat, ghost n: Node, ghost parentRef: nat, ghost kids: seq<nat>,
                      ghost items: seq<Entry>, ghost places: seq<nat>, ghost k: nat)
      returns (ghost payload: seq<Byte>)
      requires derinet.Holds(items) && places == derinet.Places(items) && k < |items| && items[k].key == n.text
      requires len == |n.text|
      requires Layout(n, parentRef, kids, items[k].payload) && |kids| < n.children && NodeFits(n)
      requires parentRef < 0x1_0000_0000 && parentData == places[k] + len
      modifies derinet.hashes
      ensures derinet.Holds(items[k := Entry(n.text, payload)]) && derinet.hashes == old(derinet.hashes)
      ensures places == derinet.Places(items[k := Entry(n.text, payload)])
      ensures Layout(n, parentRef, kids + [ref], payload)
    {
      hide Map.Holds, Map.Place, Layout, Le4, Le2, Word, Quad;
      ghost var before := items[k].payload;
      StillThere(items, k);
      var data := derinet.hashes[len].data;
      LayoutSize(n, parentRef, kids, before);
      ReadLayout(n, parentRef, kids, before, data, parentData);
      CounterAt(n, parentRef, kids, before, data, parentData);
      LayoutKid(n, parentRef, kids, before, ref);
      var childrenAt := parentData + 1 + data[parentData] + 4;
      var childrenLen := Word(data, childrenAt);
      var childIndex := Quad(data, childrenAt + 2 + 4 * (childrenLen - 1));
      Store(len, childrenAt + 2 + 4 * childIndex, Le4(ref), items, places, k, SlotAt(n, childIndex));
      payload := Overwrite(before, SlotAt(n, childIndex), Le4(ref));
      ghost var after := items[k := Entry(n.text, payload)];
      assert items[k := Patched(items[k], SlotAt(n, childIndex), Le4(ref))] == after;
      if childIndex + 1 < childrenLen {
        StillThere(after, k);
        CounterKept(n, parentRef, kids, before, ref, derinet.hashes[len].data, parentData);
        var counter := Quad(derinet.hashes[len].data, childrenAt + 2 + 4 * (childrenLen - 1));
        Store(len, childrenAt + 2 + 4 * (childrenLen - 1), Le4(counter + 1), after, places, k,
          SlotAt(n, n.children - 1));
        ghost var stored := payload;
        payload := Overwrite(stored, SlotAt(n, n.children - 1), Le4(counter + 1));
        assert after[k := Patched(after[k], SlotAt(n, n.children - 1), Le4(counter + 1))] ==
          items[k := Entry(n.text, payload)];
      }
    }

    /** Third pass: parents and children. */
    method LinkPass(data: seq<Byte>, pos: nat, count: nat, ghost nodes: seq<Node>, ghost places: seq<nat>,
                    ghost items: seq<Entry>)
      returns (ghost linked: seq<Entry>)
      requires NodesOk(nodes) && count == |nodes| && NodesRemain(nodes, 0, data, pos) && Linked(nodes, places, 0, items)
      modifies derinet.hashes
      ensures Linked(nodes, places, count, linked) && derinet.hashes == old(derinet.hashes)
    {
      hide Derivator.Linked, NodesRemain, NodesOk;
      linked := items;
      var next, text: Text := pos, [];
      for k := 0 to count
        invariant text == PreviousText(nodes, k) && NodesRemain(nodes, k, data, next)
        invariant Linked(nodes, places, k, linked) && derinet.hashes == old(derinet.hashes)
      {
        var comment, children, parent;
        text, comment, children, parent, next := ReadNext(text, data, next, nodes, k);
        linked := LinkNode(text, parent, nodes, places, k, linked);
      }
    }

    /** Reads a stream of derivations. */
    method Load(data: seq<Byte>, ghost sizes: seq<nat>, ghost nodes: seq<Node>)
      returns (ghost places: seq<nat>, ghost items: seq<Entry>)
      requires derinet.hashes == [] && NodesOk(nodes) && |sizes| < 0x100 && |nodes| < 0x1_0000_0000
      requires NodesFit(nodes) && data == HistogramBytes(sizes) + (Le4(|nodes|) + NodesBytes([], nodes))
      requires forall n <- nodes :: |n.text| < |sizes|
      requires PersistentMap.HashesFit(Shapes(nodes), MAX_OFFSET)
      modifies derinet
      ensures Linked(nodes, places, |nodes|, items)
    {
      hide Map.AllAdding, Map.AllFilling, Map.Holds, NodesRemain, NodesOk, NodeFits, HistogramBytes, NodesBytes, Le4,
        Quad, Begun, Derivator.Linked, PersistentMap.TotalSize, PersistentMap.HashesFit;
      assert data[0..] == data && HistogramBytes(sizes) + (Le4(|nodes|) + NodesBytes([], nodes)) <= data[0..];
      var pos := LoadLengths(derinet, data, 0, sizes, Le4(|nodes|) + NodesBytes([], nodes));
      CountRead(data, pos, nodes);
      var count := Quad(data, pos);
      var next := AddPass(data, pos + 4, count, nodes);
      derinet.DoneAdding(Shapes(nodes));
      ghost var filled;
      next, filled := FillPass(data, pos + 4, count, nodes);
      FilledKeys(nodes, |sizes|);
      derinet.DoneFilling(Shapes(nodes), filled);
      places := derinet.Places(filled);
      NothingLinked(nodes, filled);
      items := LinkPass(data, pos + 4, count, nodes, places, filled);
    }

    lemma CountRead(data: seq<Byte>, pos: nat, nodes: seq<Node>)
      requires NodesOk(nodes) && NodesFit(nodes) && |nodes| < 0x1_0000_0000 && pos <= |data|
      requires Le4(|nodes|) + NodesBytes([], nodes) <= data[pos..]
      ensures pos + 4 <= |data| && Quad(data, pos) == |nodes| && NodesRemain(nodes, 0, data, pos + 4)
    {
      hide Le4, Quad, NodesBytes, NodesRemain, NodeFits, NodesOk;
      EditScript.Consume(data, pos, Le4(|nodes|), NodesBytes([], nodes));
      QuadOfLe4(data, pos, |nodes|);
      NodesBegin(nodes, data, pos + 4);
    }

    lemma NothingLinked(nodes: seq<Node>, filled: seq<Entry>)
      requires NodesOk(nodes) && derinet.Holds(filled) && |filled| == |nodes|
      requires forall k :: 0 <= k < |nodes| ==> Begun(nodes[k], filled[k])
      requires PersistentMap.HashesFit(Shapes(nodes), MAX_OFFSET)
      ensures Linked(nodes, derinet.Places(filled), 0, filled)
    {
      hide Map.Holds, Map.Place, Layout, PersistentMap.HashesFit;
      forall k | 0 <= k < |nodes|
        ensures filled[k].ToSlot() == Shape(nodes[k]).ToSlot()
      {
        assert Begun(nodes[k], filled[k]);
        LayoutSize(nodes[k], 0, [], filled[k].payload);
      }
      forall k | 0 <= k < |nodes|
        ensures derinet.Place(filled, k) < 0x100_0000 && ItemOk(nodes, derinet.Places(filled), 0, k, filled[k])
      {
        assert Begun(nodes[k], filled[k]);
        assert filled[k].ToSlot() == Shape(nodes[k]).ToSlot();
        StillThere(filled, k);
        derinet.HashBound(Shapes(nodes), filled, |filled[k].key|, MAX_OFFSET);
      }
    }

    // ----- Queries

    /** The parent of a lemma, with its comment. */
    method Parent(name: Text, lemmaId: Text -> Text, ghost nodes: seq<Node>, ghost places: seq<nat>,
                  ghost items: seq<Entry>)
      returns (found: bool, parent: Text)
      requires NodesOk(nodes) && Linked(nodes, places, |nodes|, items)
      ensures found <==> exists j :: 0 <= j < |nodes| && nodes[j].text == lemmaId(name) && nodes[j].parent != []
      ensures found ==> forall j :: 0 <= j < |nodes| && nodes[j].text == lemmaId(name) ==>
        exists q :: 0 <= q < |nodes| && nodes[q].text == nodes[j].parent && parent == Named(nodes[q])
      ensures !found ==> parent == []
    {
      hide Map.Holds, Map.Place, Layout, NodesOk, Word, Quad, Kids, ParentRef, NodeFits, ItemOk;
      var id := lemmaId(name);
      found, parent := false, [];
      var lemmaData;
      ghost var k;
      lemmaData, k := Find(id, nodes, places, |nodes|, items);
      if lemmaData.Some? {
        OnlyOne(nodes, k);
        NodeFacts(nodes, places, k, items);
        var data := derinet.hashes[|id|].data;
        LayoutSize(nodes[k], ParentRef(nodes, places, k), StoredKids(nodes, places, |nodes|, k), items[k].payload);
        ReadLayout(nodes[k], ParentRef(nodes, places, k), StoredKids(nodes, places, |nodes|, k), items[k].payload, data,
          lemmaData.value);
        var encoded := Quad(data, lemmaData.value + 1 + data[lemmaData.value]);
        ParentRefZero(nodes, places, k);
        if encoded != 0 {
          ghost var q := NumberOf(nodes, nodes[k].parent);
          ParentRefIs(nodes, places, k, q);
          found := true;
          parent := NameAt(encoded, nodes, places, q, items);
        }
      }
    }

    /** The children of a lemma, with their comments and in the order of the lemmas. */
    method Children(name: Text, lemmaId: Text -> Text, ghost nodes: seq<Node>, ghost places: seq<nat>,
                    ghost items: seq<Entry>)
      returns (found: bool, children: seq<Text>)
      requires NodesOk(nodes) && Linked(nodes, places, |nodes|, items)
      ensures found <==> children != []
      ensures (forall j :: 0 <= j < |nodes| ==> nodes[j].text != lemmaId(name)) ==> !found
      ensures forall j ::
        0 <= j < |nodes| && nodes[j].text == lemmaId(name) ==>
        children == Names(nodes, Kids(nodes, nodes[j].text, |nodes|))
    {
      hide Map.Holds, Map.Place, Layout, NodesOk, Word, Quad, Kids, ParentRef, NodeFits, ItemOk;
      var id := lemmaId(name);
      found, children := false, [];
      var lemmaData;
      ghost var k;
      lemmaData, k := Find(id, nodes, places, |nodes|, items);
      if lemmaData.Some? {
        OnlyOne(nodes, k);
        NodeFacts(nodes, places, k, items);
        var data := derinet.hashes[|id|].data;
        LayoutSize(nodes[k], ParentRef(nodes, places, k), StoredKids(nodes, places, |nodes|, k), items[k].payload);
        ReadLayout(nodes[k], ParentRef(nodes, places, k), StoredKids(nodes, places, |nodes|, k), items[k].payload, data,
          lemmaData.value);
        var childrenAt := lemmaData.value + 1 + data[lemmaData.value] + 4;
        var count := Word(data, childrenAt);
        ghost var kids := Kids(nodes, nodes[k].text, |nodes|);
        if count > 0 {
          found := true;
          for i := 0 to count
            invariant |children| == i && children == Names(nodes, kids)[..i]
          {
            SlotIs(nodes, places, k, i, items[k].payload, data, lemmaData.value);
            assert kids[i] in kids;
            var child := NameAt(Quad(data, childrenAt + 2 + 4 * i), nodes, places, kids[i], items);
            children := children + [child];
          }
        }
      }
    }

    /** The name of the lemma a reference leads to. */
    method NameAt(encoded: nat, ghost nodes: seq<Node>, ghost places: seq<nat>, ghost q: nat, ghost items: seq<Entry>)
      returns (name: Text)
      requires NodesOk(nodes) && Linked(nodes, places, |nodes|, items) && q < |nodes|
      requires encoded == RefTo(nodes, places, q)
      ensures name == Named(nodes[q])
    {
      hide Layout, NodesOk, Derivator.Linked, NodeFits;
      EntryAt(nodes, places, q, items);
      var len, place := encoded % 0x100, encoded / 0x100;
      var data := derinet.hashes[len].data;
      name := data[place..place + len];
      if data[place + len] != 0 {
        name := name + data[place + len + 1..place + len + 1 + data[place + len]];
      }
    }

    /** What a reference leads to: the text of a lemma, and its comment. */
    lemma EntryAt(nodes: seq<Node>, places: seq<nat>, q: nat, items: seq<Entry>)
      requires NodesOk(nodes) && Linked(nodes, places, |nodes|, items) && q < |nodes|
      ensures var len, place := RefTo(nodes, places, q) % 0x100, RefTo(nodes, places, q) / 0x100;
        len < |derinet.hashes| && var data := derinet.hashes[len].data;
        && place + len < |data| && data[place..place + len] == nodes[q].text && data[place + len] == |nodes[q].comment|
        && place + len + 1 + |nodes[q].comment| <= |data|
        && data[place + len + 1..place + len + 1 + |nodes[q].comment|] == nodes[q].comment
    {
      hide Map.Holds, Map.Place, Layout, NodesOk, Word, Quad, Kids, ParentRef, NodeFits, ItemOk, StoredKids;
      RefBound(nodes, places, q);
      NodeFacts(nodes, places, q, items);
      derinet.PlacedAt(items, items, q);
      var e := items[q];
      var len := |nodes[q].text|;
      var data := derinet.hashes[len].data;
      assert e.Bytes() == e.key + e.payload;
      EditScript.Consume(data, places[q], e.key, e.payload);
      CommentAt(nodes[q], ParentRef(nodes, places, q), StoredKids(nodes, places, |nodes|, q), e.payload, data, places[q]
        + len);
    }

    lemma NodeFacts(nodes: seq<Node>, places: seq<nat>, k: nat, items: seq<Entry>)
      requires NodesOk(nodes) && Linked(nodes, places, |nodes|, items) && k < |nodes|
      ensures items[k].key == nodes[k].text && NodeFits(nodes[k]) && nodes[k].children < 0x1_0000
      ensures Layout(nodes[k], ParentRef(nodes, places, k), StoredKids(nodes, places, |nodes|, k), items[k].payload)
      ensures ParentRef(nodes, places, k) < 0x1_0000_0000
      ensures |StoredKids(nodes, places, |nodes|, k)| == nodes[k].children
    {
      hide Map.Holds, Map.Place, Layout, Kids;
      assert ItemOk(nodes, places, |nodes|, k, items[k]) && NodeOk(nodes, k);
      StoredParentBound(nodes, places, |nodes|, k);
    }

    /** Links one lemma with its parent, in both directions. */
    method LinkNode(text: Text, parent: Text, ghost nodes: seq<Node>, ghost places: seq<nat>, ghost i: nat,
                    ghost items: seq<Entry>)
      returns (ghost after: seq<Entry>)
      requires NodesOk(nodes) && i < |nodes| && Linked(nodes, places, i, items) && text == nodes[i].text
      requires parent == nodes[i].parent
      modifies derinet.hashes
      ensures Linked(nodes, places, i + 1, after) && derinet.hashes == old(derinet.hashes)
    {
      hide Map.Holds, Map.Place, Layout, NodesOk, Kids, ParentRef, StoredParent, StoredKids, NodeFits;
      after := items;
      OneOk(nodes, i);
      if parent == [] {
        RootLinked(nodes, places, i, items);
        return;
      }
      var lemmaData, parentData;
      ghost var k, q;
      lemmaData, k := Find(text, nodes, places, i, items);
      parentData, q := Find(parent, nodes, places, i, items);
      NumbersFound(nodes, i, k, q);
      var parentPlace, lemmaPlace := parentData.value - |parent|, lemmaData.value - |text|;
      LinkFacts(nodes, places, i, q, items);
      ghost var payload := StoreParent(lemmaData.value, |text|, parentPlace * 0x100 + |parent|, nodes[i],
                                       StoredParent(nodes, places, i, i),
                                       StoredKids(nodes, places, i, i), items, places, i);
      ghost var middle := items[i := Entry(text, payload)];
      ghost var parentPayload := StoreChild(parentData.value, |parent|, lemmaPlace * 0x100 + |text|, nodes[q],
                                            StoredParent(nodes, places, i, q),
                                            StoredKids(nodes, places, i, q), middle, places, q);
      after := middle[q := Entry(parent, parentPayload)];
      BothLinked(nodes, places, i, q, items, payload, parentPayload);
    }
  }

  /** Nothing is stored for a lemma without parent. */
  lemma RootLinked(nodes: seq<Node>, places: seq<nat>, i: nat, items: seq<Entry>)
    requires NodesOk(nodes) && i < |nodes| && nodes[i].parent == [] && ItemsOk(nodes, places, i, items)
    ensures ItemsOk(nodes, places, i + 1, items)
  {
    hide Layout, Kids, NodesOk, PlacesFit;
    forall k | 0 <= k < |items|
      ensures ItemOk(nodes, places, i + 1, k, items[k])
    {
      assert ItemOk(nodes, places, i, k, items[k]);
      OneOk(nodes, k);
      KidsStep(nodes, nodes[k].text, i);
    }
  }

  lemma NumbersFound(nodes: seq<Node>, i: nat, k: nat, q: nat)
    requires NodesOk(nodes) && i < |nodes| && k < |nodes| && q < |nodes| && nodes[k].text == nodes[i].text
    requires nodes[q].text == nodes[i].parent
    ensures k == i && q != i
  {
    assert NodeOk(nodes, i);
  }

  /** What is known before lemma `i` is linked to lemma `q`. */
  lemma LinkFacts(nodes: seq<Node>, places: seq<nat>, i: nat, q: nat, items: seq<Entry>)
    requires i < |nodes| && q < |nodes|
    requires NodesOk(nodes) && PlacesFit(nodes, places) && ItemsOk(nodes, places, i, items)
    requires nodes[q].text == nodes[i].parent
    ensures ItemOk(nodes, places, i, i, items[i]) && ItemOk(nodes, places, i, q, items[q]) && NodeFits(nodes[i])
    ensures NodeFits(nodes[q])
    ensures StoredParent(nodes, places, i, i) == 0 && StoredParent(nodes, places, i, q) < 0x1_0000_0000
    ensures |StoredKids(nodes, places, i, q)| < nodes[q].children
  {
    hide Layout;
    StoredParentBound(nodes, places, i, q);
    assert NodeOk(nodes, q) && NodeOk(nodes, i);
    KidsPrefix(nodes, nodes[q].text, i + 1, |nodes|);
  }

  /** Lemma `i` and its parent `q` now refer to each other. */
  lemma BothLinked(nodes: seq<Node>, places: seq<nat>, i: nat, q: nat, items: seq<Entry>, payload: seq<Byte>,
                   parentPayload: seq<Byte>)
    requires i < |nodes| && q < |nodes|
    requires NodesOk(nodes) && PlacesFit(nodes, places) && ItemsOk(nodes, places, i, items)
    requires q != i && nodes[q].text == nodes[i].parent && nodes[i].parent != []
    requires Layout(nodes[i], places[q] * 0x100 + |nodes[q].text|, StoredKids(nodes, places, i, i), payload)
    requires Layout(nodes[q], StoredParent(nodes, places, i, q), StoredKids(nodes, places, i, q)
      + [places[i] * 0x100 + |nodes[i].text|], parentPayload)
    ensures ItemsOk(nodes, places, i + 1,
      items[i := Entry(nodes[i].text, payload)][q := Entry(nodes[q].text, parentPayload)])
  {
    hide Layout, PlacesFit, Kids, NodesOk, RefTo, StoredKids, StoredParent, ParentRef;
    RefBound(nodes, places, i);
    RefBound(nodes, places, q);
    OnlyOne(nodes, q);
    ParentStored(nodes, places, i, q);
    PlacesLength(nodes, places);
    var after := items[i := Entry(nodes[i].text, payload)][q := Entry(nodes[q].text, parentPayload)];
    forall k | 0 <= k < |after|
      ensures ItemOk(nodes, places, i + 1, k, after[k])
    {
      assert ItemOk(nodes, places, i, k, items[k]);
      StoredKidsStep(nodes, places, i, k);
      if k != i { StoredParentKept(nodes, places, i, k); }
    }
  }

  lemma ParentStored(nodes: seq<Node>, places: seq<nat>, i: nat, q: nat)
    requires NodesOk(nodes) && i < |nodes| && q < |nodes| && nodes[q].text == nodes[i].parent && nodes[i].parent != []
    ensures StoredParent(nodes, places, i + 1, i) == RefTo(nodes, places, q)
  {
    ParentRefIs(nodes, places, i, q);
  }

  lemma StoredParentKept(nodes: seq<Node>, places: seq<nat>, i: nat, k: nat)
    requires NodesOk(nodes) && k < |nodes| && k != i
    ensures StoredParent(nodes, places, i + 1, k) == StoredParent(nodes, places, i, k)
  {
  }

  lemma StoredKidsStep(nodes: seq<Node>, places: seq<nat>, i: nat, k: nat)
    requires i < |nodes| && k < |nodes|
    ensures StoredKids(nodes, places, i + 1, k) ==
            if nodes[i].parent == nodes[k].text then StoredKids(nodes, places, i, k) + [RefTo(nodes, places, i)]
              else StoredKids(nodes, places, i, k)
  {
    hide Kids, RefTo;
    KidsStep(nodes, nodes[k].text, i);
  }

  lemma KidsStep(nodes: seq<Node>, p: Text, i: nat)
    requires i < |nodes|
    ensures Kids(nodes, p, i + 1) == if nodes[i].parent == p then Kids(nodes, p, i) + [i] else Kids(nodes, p, i)
  {
  }

  lemma PlacesLength(nodes: seq<Node>, places: seq<nat>)
    requires PlacesFit(nodes, places)
    ensures |places| == |nodes|
  {
  }

  predicate NodesFit(nodes: seq<Node>) {
    forall n <- nodes :: NodeFits(n)
  }

  lemma NodesBegin(nodes: seq<Node>, data: seq<Byte>, pos: nat)
    requires NodesOk(nodes) && NodesFit(nodes) && pos <= |data| && NodesBytes([], nodes) <= data[pos..]
    ensures NodesRemain(nodes, 0, data, pos)
  {
    assert nodes[0..] == nodes;
  }

  lemma FilledKeys(nodes: seq<Node>, lengths: nat)
    requires forall n <- nodes :: |n.text| < lengths
    ensures forall e <- Shapes(nodes) :: |e.key| < lengths
  {
    forall e | e in Shapes(nodes)
      ensures |e.key| < lengths
    {
      var k :| 0 <= k < |nodes| && Shapes(nodes)[k] == e;
      assert nodes[k] in nodes;
    }
  }

  lemma CommentAt(n: Node, parentRef: nat, kids: seq<nat>, payload: seq<Byte>, data: seq<Byte>, p: nat)
    requires Layout(n, parentRef, kids, payload) && p <= |data| && payload <= data[p..] && NodeFits(n)
    requires n.children < 0x1_0000 && parentRef < 0x1_0000_0000
    ensures p + 1 + |n.comment| <= |data| && data[p] == |n.comment| && data[p + 1..p + 1 + |n.comment|] == n.comment
  {
    hide Layout, NodeFits, Word, Quad;
    LayoutSize(n, parentRef, kids, payload);
    ReadLayout(n, parentRef, kids, payload, data, p);
  }

  /** A lemma with its comment. */
  function Named(n: Node): Text {
    n.text + n.comment
  }

  function Names(nodes: seq<Node>, js: seq<nat>): (r: seq<Text>)
    requires forall j <- js :: j < |nodes|
    ensures |r| == |js| && forall i :: 0 <= i < |r| ==> js[i] in js && r[i] == Named(nodes[js[i]])
  {
    seq(|js|, i requires 0 <= i < |js| => assert js[i] in js; Named(nodes[js[i]]))
  }

  lemma OnlyOne(nodes: seq<Node>, k: nat)
    requires NodesOk(nodes) && k < |nodes|
    ensures forall j :: 0 <= j < |nodes| && nodes[j].text == nodes[k].text ==> j == k
    ensures nodes[k].parent != [] ==> exists j :: 0 <= j < |nodes| && nodes[j].text == nodes[k].parent
  {
    assert NodeOk(nodes, k);
  }

  /** The reference to the parent is zero iff there is no parent. */
  lemma ParentRefZero(nodes: seq<Node>, places: seq<nat>, k: nat)
    requires NodesOk(nodes) && PlacesFit(nodes, places) && k < |nodes|
    ensures nodes[k].parent == [] <==> ParentRef(nodes, places, k) == 0
  {
    if nodes[k].parent != [] {
      assert NodeOk(nodes, k);
      RefBound(nodes, places, NumberOf(nodes, nodes[k].parent));
    }
  }

  lemma ParentRefIs(nodes: seq<Node>, places: seq<nat>, k: nat, q: nat)
    requires NodesOk(nodes) && k < |nodes| && nodes[k].parent != [] && q < |nodes| && nodes[q].text == nodes[k].parent
    ensures ParentRef(nodes, places, k) == RefTo(nodes, places, q)
  {
    assert NodeOk(nodes, k);
    NumberUnique(nodes, q);
  }

  lemma SlotIs(nodes: seq<Node>, places: seq<nat>, k: nat, i: nat, payload: seq<Byte>, data: seq<Byte>, p: nat)
    requires NodesOk(nodes) && PlacesFit(nodes, places) && k < |nodes| && p <= |data| && payload <= data[p..]
    requires Layout(nodes[k], ParentRef(nodes, places, k), StoredKids(nodes, places, |nodes|, k), payload)
    requires i < nodes[k].children == |StoredKids(nodes, places, |nodes|, k)|
    ensures p + SlotAt(nodes[k], i) + 4 <= |data|
    ensures i < |Kids(nodes, nodes[k].text, |nodes|)|
    ensures Quad(data, p + SlotAt(nodes[k], i)) == RefTo(nodes, places, Kids(nodes, nodes[k].text, |nodes|)[i])
  {
    hide Quad, Le4, Kids, NodesOk;
    var kids := Kids(nodes, nodes[k].text, |nodes|);
    RefBound(nodes, places, kids[i]);
    ReadSlot(nodes[k], payload, data, p, i, RefTo(nodes, places, kids[i]));
  }

  /** Parents and children agree: a lemma occurs among the children of another exactly when that is its
      parent, and then it occurs once. */
  lemma ParentsAndChildrenAgree(nodes: seq<Node>, i: nat, p: nat)
    requires NodesOk(nodes) && i < |nodes| && p < |nodes|
    ensures multiset(Kids(nodes, nodes[p].text, |nodes|))[i] == if nodes[i].parent == nodes[p].text then 1 else 0
    ensures nodes[i].parent != [] ==> exists q :: 0 <= q < |nodes| && i in Kids(nodes, nodes[q].text, |nodes|)
    ensures forall q ::
      0 <= q < |nodes| && i in Kids(nodes, nodes[q].text, |nodes|) && i in Kids(nodes, nodes[p].text, |nodes|) ==>
      q == p
  {
    hide Kids;
    var kids := Kids(nodes, nodes[p].text, |nodes|);
    KidsExact(nodes, nodes[p].text, |nodes|);
    AscendingOnce(kids, i);
    OnlyOne(nodes, p);
    OnlyOne(nodes, i);
    forall q | 0 <= q < |nodes|
      ensures i in Kids(nodes, nodes[q].text, |nodes|) <==> nodes[i].parent == nodes[q].text
    {
      KidsExact(nodes, nodes[q].text, |nodes|);
    }
  }

  lemma {:induction false} AscendingOnce(s: seq<nat>, x: nat)
    requires forall a, b :: 0 <= a < b < |s| ==> s[a] < s[b]
    ensures multiset(s)[x] == if x in s then 1 else 0
  {
    if s != [] {
      var front, last := s[..|s| - 1], s[|s| - 1];
      assert s == front + [last];
      AscendingOnce(front, x);
      if x == last { assert forall a :: 0 <= a < |front| ==> front[a] == s[a] < last; }
    }
  }

  lemma LayoutSize(n: Node, parentRef: nat, kids: seq<nat>, payload: seq<Byte>)
    requires Layout(n, parentRef, kids, payload)
    ensures |payload| == PayloadSize(n)
  {
  }

  /** The last slot holds the number of children stored. */
  lemma CounterAt(n: Node, parentRef: nat, kids: seq<nat>, payload: seq<Byte>, data: seq<Byte>, p: nat)
    requires Layout(n, parentRef, kids, payload) && |kids| < n.children < 0x1_0000 && p <= |data|
    requires payload <= data[p..]
    ensures p + SlotAt(n, n.children - 1) + 4 <= |data| && Quad(data, p + SlotAt(n, n.children - 1)) == |kids|
  {
    hide Quad, Le4;
    ReadSlot(n, payload, data, p, n.children - 1, |kids|);
  }

  /** Storing a child elsewhere leaves the counter alone. */
  lemma CounterKept(n: Node, parentRef: nat, kids: seq<nat>, payload: seq<Byte>, ref: nat, data: seq<Byte>, p: nat)
    requires Layout(n, parentRef, kids, payload) && |kids| + 1 < n.children < 0x1_0000 && p <= |data|
    requires SlotAt(n, |kids|) + 4 <= |payload| && Overwrite(payload, SlotAt(n, |kids|), Le4(ref)) <= data[p..]
    ensures p + SlotAt(n, n.children - 1) + 4 <= |data| && Quad(data, p + SlotAt(n, n.children - 1)) == |kids|
  {
    hide Quad, Le4, Overwrite;
    SlotStored(n, parentRef, kids, payload, |kids|, Le4(ref));
    ReadSlot(n, Overwrite(payload, SlotAt(n, |kids|), Le4(ref)), data, p, n.children - 1, |kids|);
  }

  ghost predicate Begun(n: Node, e: Entry) {
    e.key == n.text && Layout(n, 0, [], e.payload)
  }

  lemma FillShape(m: Map, shapes: seq<Entry>, filled: seq<Entry>, k: nat)
    requires m.AllFilling(shapes, filled) && k < |filled|
    ensures k < |shapes| && filled[k].ToSlot() == shapes[k].ToSlot()
  {
  }

  lemma LayoutBegins(n: Node, payload: seq<Byte>)
    requires |payload| == PayloadSize(n) && NodeFits(n)
    ensures var bytes := [|n.comment| % 0x100] + n.comment + Le4(0) + Le2(n.children);
      var begun := Overwrite(payload, 0, bytes);
      if n.children > 0 then Layout(n, 0, [], Overwrite(begun, SlotAt(n, n.children - 1), Le4(0)))
        else Layout(n, 0, [], begun)
  {
    hide Le4, Le2, Overwrite;
    var c := |n.comment|;
    var bytes := [c % 0x100] + n.comment + Le4(0) + Le2(n.children);
    var begun := Overwrite(payload, 0, bytes);
    assert begun[0..|bytes|] == bytes;
    assert begun[0] == begun[0..|bytes|][0];
    assert begun[1..1 + c] == begun[0..|bytes|][1..1 + c] == n.comment;
    assert begun[1 + c..5 + c] == begun[0..|bytes|][1 + c..5 + c] == Le4(0);
    assert begun[5 + c..7 + c] == begun[0..|bytes|][5 + c..7 + c] == Le2(n.children);
    if n.children > 0 { SlotStored(n, 0, [], begun, n.children - 1, Le4(0)); }
  }
}
