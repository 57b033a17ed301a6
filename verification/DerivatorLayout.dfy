/** What the hash of derivations stores for each lemma (src/derivator/derivator_dictionary.cpp): the comment,
    a reference to the parent, and references to the children. While children are being linked, the last
    slot counts those stored so far. */
module DerivatorLayout {
  import opened Bytes
  import opened Words
  import opened FnvHash
  import opened DerivatorCodec

  type Text = seq<Byte>

  /** The lemmas among the first `i` whose parent is `p`, in order. */
  function Kids(nodes: seq<Node>, p: Text, i: nat): (r: seq<nat>)
    requires i <= |nodes|
    ensures forall j <- r :: j < i && nodes[j].parent == p
  {
    if i == 0 then [] else
      var front := Kids(nodes, p, i - 1);
      assert forall j <- front :: j < i && nodes[j].parent == p;
      front + if nodes[i - 1].parent == p then [i - 1] else []
  }

  /** Each lemma is listed exactly once, under its parent. */
  lemma {:induction false} KidsExact(nodes: seq<Node>, p: Text, i: nat)
    requires i <= |nodes|
    ensures forall j :: 0 <= j < i ==> (j in Kids(nodes, p, i) <==> nodes[j].parent == p)
    ensures forall a, b :: 0 <= a < b < |Kids(nodes, p, i)| ==> Kids(nodes, p, i)[a] < Kids(nodes, p, i)[b]
  {
    if i > 0 {
      KidsExact(nodes, p, i - 1);
      var front := Kids(nodes, p, i - 1);
      assert forall a :: 0 <= a < |front| ==> front[a] in front;
    }
  }

  lemma {:induction false} KidsPrefix(nodes: seq<Node>, p: Text, i: nat, j: nat)
    requires i <= j <= |nodes|
    ensures Kids(nodes, p, i) <= Kids(nodes, p, j)
  {
    if i < j { KidsPrefix(nodes, p, i, j - 1); }
  }

  /** The lemmas are different and not empty, every parent is another of them, and children are counted. */
  ghost predicate NodesOk(nodes: seq<Node>) {
    && (forall i, j :: 0 <= i < j < |nodes| ==> nodes[i].text != nodes[j].text)
    && (forall i :: 0 <= i < |nodes| ==> NodeOk(nodes, i))
  }

  ghost predicate NodeOk(nodes: seq<Node>, i: nat)
    requires i < |nodes|
  {
    var n := nodes[i];
    && NodeFits(n) && n.text != [] && n.parent != n.text && n.children == |Kids(nodes, n.text, |nodes|)|
    && (n.parent != [] ==> exists j :: 0 <= j < |nodes| && nodes[j].text == n.parent)
  }

  /** Number of the lemma with a text. */
  ghost function NumberOf(nodes: seq<Node>, text: Text): (j: nat)
    requires exists j :: 0 <= j < |nodes| && nodes[j].text == text
    ensures j < |nodes| && nodes[j].text == text
  {
    var j :| 0 <= j < |nodes| && nodes[j].text == text;
    j
  }

  /** A reference holds a place in the upper 24 bits and a length in the lowest 8. */
  function Ref(place: nat, len: nat): nat {
    place * 0x100 + len
  }

  ghost predicate PlacesFit(nodes: seq<Node>, places: seq<nat>) {
    |places| == |nodes| && forall i :: 0 <= i < |places| ==> places[i] < 0x100_0000
  }

  function RefTo(nodes: seq<Node>, places: seq<nat>, j: nat): nat {
    if j < |nodes| && j < |places| then Ref(places[j], |nodes[j].text|) else 0
  }

  ghost function ParentRef(nodes: seq<Node>, places: seq<nat>, k: nat): nat
    requires k < |nodes| && NodesOk(nodes)
  {
    if nodes[k].parent == [] then 0
    else
      assert NodeOk(nodes, k);
      RefTo(nodes, places, NumberOf(nodes, nodes[k].parent))
  }

  function RefsTo(nodes: seq<Node>, places: seq<nat>, js: seq<nat>): (r: seq<nat>)
    ensures |r| == |js| && forall i :: 0 <= i < |r| ==> r[i] == RefTo(nodes, places, js[i])
  {
    seq(|js|, i requires 0 <= i < |js| => RefTo(nodes, places, js[i]))
  }

  // ----- The payload of one lemma

  function PayloadSize(n: Node): nat {
    1 + |n.comment| + 4 + 2 + 4 * n.children
  }

  function SlotAt(n: Node, j: nat): nat {
    1 + |n.comment| + 4 + 2 + 4 * j
  }

  /** The payload when some children have been stored. */
  ghost predicate Layout(n: Node, parentRef: nat, kids: seq<nat>, payload: seq<Byte>) {
    && |payload| == PayloadSize(n) && |n.comment| < 0x100 && |kids| <= n.children
    && payload[0] == |n.comment| && payload[1..1 + |n.comment|] == n.comment
    && payload[1 + |n.comment|..5 + |n.comment|] == Le4(parentRef)
    && payload[5 + |n.comment|..7 + |n.comment|] == Le2(n.children)
    && (forall j :: 0 <= j < |kids| ==> payload[SlotAt(n, j)..SlotAt(n, j + 1)] == Le4(kids[j]))
    && (|kids| < n.children ==> payload[SlotAt(n, n.children - 1)..SlotAt(n, n.children)] == Le4(|kids|))
  }

  /** Overwriting one part of a payload leaves the parts before and after it. */
  lemma OverwriteOther(payload: seq<Byte>, at: nat, bytes: seq<Byte>, from: nat, to: nat)
    requires at + |bytes| <= |payload| && from <= to <= |payload| && (to <= at || at + |bytes| <= from)
    ensures Overwrite(payload, at, bytes)[from..to] == payload[from..to]
  {
    OverwriteElsewhere(payload, at, bytes, from, to);
  }

  /** Storing the parent. */
  lemma LayoutParent(n: Node, before: nat, after: nat, kids: seq<nat>, payload: seq<Byte>)
    requires Layout(n, before, kids, payload)
    ensures Layout(n, after, kids, Overwrite(payload, 1 + |n.comment|, Le4(after)))
  {
    hide Le4, Le2, Overwrite;
    var at := 1 + |n.comment|;
    var changed := Overwrite(payload, at, Le4(after));
    OverwriteOther(payload, at, Le4(after), 0, 1);
    assert changed[0] == changed[0..1][0] == payload[0..1][0];
    OverwriteOther(payload, at, Le4(after), 1, at);
    OverwriteOther(payload, at, Le4(after), at + 4, at + 6);
    forall j | 0 <= j < n.children
      ensures changed[SlotAt(n, j)..SlotAt(n, j + 1)] == payload[SlotAt(n, j)..SlotAt(n, j + 1)]
    {
      OverwriteOther(payload, at, Le4(after), SlotAt(n, j), SlotAt(n, j + 1));
    }
  }

  /** Storing the next child; unless it takes the last slot, that slot then counts one more. */
  lemma LayoutKid(n: Node, parentRef: nat, kids: seq<nat>, payload: seq<Byte>, kid: nat)
    requires Layout(n, parentRef, kids, payload) && |kids| < n.children
    ensures SlotAt(n, |kids| + 1) <= |payload|
    ensures var m := |kids|;
      var stored := Overwrite(payload, SlotAt(n, m), Le4(kid));
      if m + 1 < n.children
        then Layout(n, parentRef, kids + [kid], Overwrite(stored, SlotAt(n, n.children - 1), Le4(m + 1)))
      else Layout(n, parentRef, kids + [kid], stored)
  {
    hide Le4, Le2, Overwrite;
    var m := |kids|;
    var stored := Overwrite(payload, SlotAt(n, m), Le4(kid));
    SlotStored(n, parentRef, kids, payload, m, Le4(kid));
    if m + 1 < n.children {
      SlotStored(n, parentRef, kids, stored, n.children - 1, Le4(m + 1));
    }
  }

  /** Everything but one slot stays. */
  lemma SlotStored(n: Node, parentRef: nat, kids: seq<nat>, payload: seq<Byte>, slot: nat, bytes: seq<Byte>)
    requires |payload| == PayloadSize(n) && slot < n.children && |bytes| == 4
    ensures SlotAt(n, slot) + 4 <= |payload|
    ensures var changed := Overwrite(payload, SlotAt(n, slot), bytes);
      && |changed| == |payload| && changed[0] == payload[0]
        && changed[1..1 + |n.comment|] == payload[1..1 + |n.comment|]
      && changed[1 + |n.comment|..5 + |n.comment|] == payload[1 + |n.comment|..5 + |n.comment|]
      && changed[5 + |n.comment|..7 + |n.comment|] == payload[5 + |n.comment|..7 + |n.comment|]
      && changed[SlotAt(n, slot)..SlotAt(n, slot + 1)] == bytes
      && forall j ::
        0 <= j < n.children && j != slot ==>
        changed[SlotAt(n, j)..SlotAt(n, j + 1)] == payload[SlotAt(n, j)..SlotAt(n, j + 1)]
  {
    hide Overwrite;
    var at := SlotAt(n, slot);
    var changed := Overwrite(payload, at, bytes);
    OverwriteOther(payload, at, bytes, 0, 1);
    assert changed[0] == changed[0..1][0] == payload[0..1][0];
    OverwriteOther(payload, at, bytes, 1, 1 + |n.comment|);
    OverwriteOther(payload, at, bytes, 1 + |n.comment|, 5 + |n.comment|);
    OverwriteOther(payload, at, bytes, 5 + |n.comment|, 7 + |n.comment|);
    forall j | 0 <= j < n.children && j != slot
      ensures changed[SlotAt(n, j)..SlotAt(n, j + 1)] == payload[SlotAt(n, j)..SlotAt(n, j + 1)]
    {
      OverwriteOther(payload, at, bytes, SlotAt(n, j), SlotAt(n, j + 1));
    }
  }

  /** How many bytes a reader of an entry skips. */
  function Size(data: seq<Byte>): nat {
    if |data| == 0 then 0 else
      var comment: nat := data[0];
      if |data| < comment + 7 then 0 else comment + 7 + 4 * Word(data, comment + 5)
  }

  lemma LayoutDelimits(n: Node, parentRef: nat, kids: seq<nat>, payload: seq<Byte>)
    requires Layout(n, parentRef, kids, payload) && n.children < 0x1_0000
    ensures Delimits(Size, payload) && |payload| > 0
  {
    hide Word, Le2, Le4;
    forall rest: seq<Byte>
      ensures Size(payload + rest) == |payload|
    {
      var data, c := payload + rest, |n.comment|;
      assert data[c + 5..c + 7] == payload[5 + c..7 + c];
      WordOfLe2(data, c + 5, n.children);
    }
  }

  /** The parts of an entry, read where its payload is stored. */
  lemma ReadLayout(n: Node, parentRef: nat, kids: seq<nat>, payload: seq<Byte>, data: seq<Byte>, p: nat)
    requires Layout(n, parentRef, kids, payload) && p <= |data| && payload <= data[p..]
    requires n.children < 0x1_0000 && parentRef < 0x1_0000_0000
    ensures p + |payload| <= |data| && data[p] == |n.comment| && data[p + 1..p + 1 + |n.comment|] == n.comment
    ensures Quad(data, p + 1 + |n.comment|) == parentRef && Word(data, p + 5 + |n.comment|) == n.children
  {
    hide Word, Quad, Le2, Le4;
    var c := |n.comment|;
    Window(data, p, payload, 0, 1);
    assert data[p] == data[p..p + 1][0] == payload[0..1][0];
    Window(data, p, payload, 1, 1 + c);
    Window(data, p, payload, 1 + c, 5 + c);
    Window(data, p, payload, 5 + c, 7 + c);
    QuadOfLe4(data, p + 1 + c, parentRef);
    WordOfLe2(data, p + 5 + c, n.children);
  }

  /** A slot of an entry, read where its payload is stored. */
  lemma ReadSlot(n: Node, payload: seq<Byte>, data: seq<Byte>, p: nat, j: nat, value: nat)
    requires |payload| == PayloadSize(n) && p <= |data| && payload <= data[p..] && j < n.children
    requires payload[SlotAt(n, j)..SlotAt(n, j + 1)] == Le4(value) && value < 0x1_0000_0000
    ensures p + SlotAt(n, j) + 4 <= |data| && Quad(data, p + SlotAt(n, j)) == value
  {
    hide Quad, Le4;
    Window(data, p, payload, SlotAt(n, j), SlotAt(n, j + 1));
    QuadOfLe4(data, p + SlotAt(n, j), value);
  }

  lemma Window(data: seq<Byte>, p: nat, payload: seq<Byte>, from: nat, to: nat)
    requires p <= |data| && payload <= data[p..] && from <= to <= |payload|
    ensures p + |payload| <= |data| && data[p + from..p + to] == payload[from..to]
  {
    forall i | 0 <= i < to - from
      ensures data[p + from..p + to][i] == payload[from..to][i]
    {
      assert data[p..][from + i] == payload[from + i];
    }
  }
}
