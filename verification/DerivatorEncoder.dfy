/** From possible parents to the byte stream of derivations (src/derivator/derivator_dictionary_encoder.cpp). */
module DerivatorEncoder {
  import opened Bytes
  import opened Words
  import opened ClassFactoring
  import opened DerivationForest
  import opened DerivatorCodec
  import opened DerivatorLayout
  import DictionaryFile

  function NodeOf(d: Derinet, x: Text): Node
    requires x in d
  {
    Node(x, d[x].comment, d[x].parent, d[x].children)
  }

  /** The nodes list the lemmas of the map, each once. */
  ghost predicate ListsAll(nodes: seq<Node>, d: Derinet, keys: set<Text>) {
    && (forall i ::
      0 <= i < |nodes| ==> nodes[i].text in d && nodes[i].text in keys && nodes[i] == NodeOf(d, nodes[i].text))
    && (forall x <- keys :: exists i :: 0 <= i < |nodes| && nodes[i].text == x)
    && DistinctTexts(nodes)
  }

  ghost predicate DistinctTexts(nodes: seq<Node>) {
    forall i, j :: 0 <= i < j < |nodes| ==> nodes[i].text != nodes[j].text
  }

  ghost predicate Ascending(nodes: seq<Node>) {
    forall i, j :: 0 <= i < j < |nodes| ==> TextLeq(nodes[i].text, nodes[j].text)
  }

  ghost predicate AllBelow(nodes: seq<Node>, texts: set<Text>) {
    forall i, x :: 0 <= i < |nodes| && x in texts ==> TextLeq(nodes[i].text, x)
  }

  lemma BelowNext(nodes: seq<Node>, texts: set<Text>, n: Node)
    requires Ascending(nodes) && AllBelow(nodes, texts) && Smallest(n.text, texts)
    ensures Ascending(nodes + [n]) && AllBelow(nodes + [n], texts - {n.text})
  {
    hide TextLeq;
  }

  /** Goes through the map in ascending order. */
  method ListNodes(d: Derinet) returns (nodes: seq<Node>)
    ensures ListsAll(nodes, d, d.Keys) && Ascending(nodes)
  {
    hide TextLeq, ListsAll, AllBelow, Ascending, Smallest, NodeOf;
    nodes := [];
    var remaining := d.Keys;
    ghost var done: set<Text> := {};
    NothingListed(d);
    while remaining != {}
      invariant done <= d.Keys && remaining == d.Keys - done
      invariant ListsAll(nodes, d, done) && Ascending(nodes) && AllBelow(nodes, remaining)
      decreases |remaining|
    {
      var x := TakeSmallest(remaining);
      assert x in remaining by { SmallestIn(x, remaining); }
      ListOneMore(nodes, d, done, x);
      NodeText(d, x);
      BelowNext(nodes, remaining, NodeOf(d, x));
      nodes, remaining, done := nodes + [NodeOf(d, x)], remaining - {x}, done + {x};
    }
    assert done == d.Keys;
  }

  lemma NodeText(d: Derinet, x: Text)
    requires x in d
    ensures NodeOf(d, x).text == x
  {
  }

  lemma SmallestIn(x: Text, texts: set<Text>)
    requires Smallest(x, texts)
    ensures x in texts
  {
  }

  lemma NothingListed(d: Derinet)
    ensures ListsAll([], d, {}) && Ascending([]) && AllBelow([], d.Keys)
  {
  }

  lemma ListOneMore(nodes: seq<Node>, d: Derinet, keys: set<Text>, x: Text)
    requires ListsAll(nodes, d, keys) && x in d && x !in keys
    ensures ListsAll(nodes + [NodeOf(d, x)], d, keys + {x})
  {
    var after := nodes + [NodeOf(d, x)];
    forall y | y in keys + {x}
      ensures exists i :: 0 <= i < |after| && after[i].text == y
    {
      if y == x {
        assert after[|nodes|].text == y;
      } else {
        var i :| 0 <= i < |nodes| && nodes[i].text == y;
        assert after[i].text == y;
      }
    }
  }

  /** The lemmas among the first `i` whose parent is `p`. */
  function KidSet(nodes: seq<Node>, p: Text, i: nat): set<Text>
    requires i <= |nodes|
  {
    if i == 0 then {} else KidSet(nodes, p, i - 1) + if nodes[i - 1].parent == p then {nodes[i - 1].text} else {}
  }

  lemma {:induction false} KidSetExact(nodes: seq<Node>, p: Text, i: nat, x: Text)
    requires i <= |nodes|
    ensures x in KidSet(nodes, p, i) <==> exists j :: 0 <= j < i && nodes[j].parent == p && nodes[j].text == x
  {
    if i > 0 { KidSetExact(nodes, p, i - 1, x); }
  }

  lemma {:induction false} KidsCount(nodes: seq<Node>, p: Text, i: nat)
    requires i <= |nodes| && DistinctTexts(nodes)
    ensures |Kids(nodes, p, i)| == |KidSet(nodes, p, i)|
  {
    hide DistinctTexts, Kids, KidSet;
    if i == 0 {
      NoKidsYet(nodes, p);
    } else {
      KidsCount(nodes, p, i - 1);
      NewKid(nodes, p, i - 1);
      KidsNext(nodes, p, i - 1);
    }
  }

  lemma NoKidsYet(nodes: seq<Node>, p: Text)
    ensures Kids(nodes, p, 0) == [] && KidSet(nodes, p, 0) == {}
  {
  }

  lemma KidsNext(nodes: seq<Node>, p: Text, i: nat)
    requires i < |nodes|
    ensures |Kids(nodes, p, i + 1)| == |Kids(nodes, p, i)| + if nodes[i].parent == p then 1 else 0
    ensures KidSet(nodes, p, i + 1) == KidSet(nodes, p, i) + if nodes[i].parent == p then {nodes[i].text} else {}
  {
  }

  lemma NewKid(nodes: seq<Node>, p: Text, i: nat)
    requires i < |nodes| && DistinctTexts(nodes)
    ensures nodes[i].text !in KidSet(nodes, p, i)
  {
    hide KidSet;
    KidSetExact(nodes, p, i, nodes[i].text);
  }

  /** The children counted are the lemmas with that parent. */
  lemma KidsAreChildren(nodes: seq<Node>, d: Derinet, p: Text)
    requires ListsAll(nodes, d, d.Keys)
    ensures |Kids(nodes, p, |nodes|)| == |ChildrenOf(d, p)|
  {
    KidsCount(nodes, p, |nodes|);
    forall x
      ensures x in KidSet(nodes, p, |nodes|) <==> x in ChildrenOf(d, p)
    {
      KidSetExact(nodes, p, |nodes|, x);
      if x in ChildrenOf(d, p) {
        var i :| 0 <= i < |nodes| && nodes[i].text == x;
        assert nodes[i].parent == p;
      }
    }
    assert KidSet(nodes, p, |nodes|) == ChildrenOf(d, p);
  }

  lemma ListedNodesOk(nodes: seq<Node>, d: Derinet)
    requires ListsAll(nodes, d, d.Keys) && Closed(d) && forall x <- d :: d[x].parent != x
    requires forall p <- d :: d[p].children == |ChildrenOf(d, p)|
    requires forall n <- nodes :: NodeFits(n)
    ensures NodesOk(nodes)
  {
    hide Kids, NodeFits;
    forall i | 0 <= i < |nodes|
      ensures NodeOk(nodes, i)
    {
      assert nodes[i] in nodes;
      KidsAreChildren(nodes, d, nodes[i].text);
    }
  }

  /** Two listings in ascending order are the same: the stream is determined by the lemmas. */
  lemma {:induction false} ListingUnique(a: seq<Node>, b: seq<Node>, d: Derinet, keys: set<Text>)
    requires ListsAll(a, d, keys) && Ascending(a) && ListsAll(b, d, keys) && Ascending(b)
    ensures a == b
    decreases |a|
  {
    hide TextLeq, NodeOf;
    ListedSize(a, d, keys);
    ListedSize(b, d, keys);
    if a != [] {
      var m, n := |a| - 1, |b| - 1;
      SameLast(a, b, d, keys);
      ListedLess(a, d, keys);
      ListedLess(b, d, keys);
      ListingUnique(a[..m], b[..n], d, keys - {a[m].text});
      assert a == a[..m] + [a[m]] && b == b[..n] + [b[n]];
    }
  }

  lemma SameLast(a: seq<Node>, b: seq<Node>, d: Derinet, keys: set<Text>)
    requires a != [] && b != [] && ListsAll(a, d, keys) && Ascending(a) && ListsAll(b, d, keys) && Ascending(b)
    ensures a[|a| - 1] == b[|b| - 1]
  {
    hide TextLeq, NodeOf, Ascending;
    var x, y := a[|a| - 1], b[|b| - 1];
    assert x in a && y in b;
    TextLeqTotal(x.text, y.text);
    LastIsGreatest(a, d, keys, y.text);
    LastIsGreatest(b, d, keys, x.text);
  }

  lemma LastIsGreatest(nodes: seq<Node>, d: Derinet, keys: set<Text>, x: Text)
    requires nodes != [] && ListsAll(nodes, d, keys) && Ascending(nodes) && x in keys
    ensures TextLeq(x, nodes[|nodes| - 1].text)
  {
    hide TextLeq, NodeOf;
    var i :| 0 <= i < |nodes| && nodes[i].text == x;
    TextLeqTotal(x, x);
  }

  lemma ListedLess(nodes: seq<Node>, d: Derinet, keys: set<Text>)
    requires nodes != [] && ListsAll(nodes, d, keys) && Ascending(nodes)
    ensures ListsAll(nodes[..|nodes| - 1], d, keys - {nodes[|nodes| - 1].text}) && Ascending(nodes[..|nodes| - 1])
  {
    hide TextLeq;
    var n := |nodes| - 1;
    forall x | x in keys - {nodes[n].text}
      ensures exists i :: 0 <= i < n && nodes[..n][i].text == x
    {
      var i :| 0 <= i < |nodes| && nodes[i].text == x;
      assert nodes[..n][i].text == x;
    }
  }

  /** How many lengths of lemmas there are up to the longest. */
  function Lengths(nodes: seq<Node>): (n: nat)
    ensures forall x <- nodes :: |x.text| < n
    ensures n > 0 ==> exists x <- nodes :: |x.text| == n - 1
  {
    if nodes == [] then 0
    else
      var before, x := Lengths(nodes[..|nodes| - 1]), nodes[|nodes| - 1];
      assert nodes[..|nodes| - 1] + [x] == nodes;
      if |x.text| < before then before else |x.text| + 1
  }

  /** How many lemmas have a length. */
  function OfLength(nodes: seq<Node>, len: nat): (n: nat)
    ensures len >= Lengths(nodes) ==> n == 0
  {
    if nodes == [] then 0
    else OfLength(nodes[..|nodes| - 1], len) + if |nodes[|nodes| - 1].text| == len then 1 else 0
  }

  /** Lengths of the lemmas, counted. */
  method CountLengths(nodes: seq<Node>) returns (lengths: seq<nat>)
    ensures Counted(nodes, lengths)
  {
    hide OfLength, Lengths;
    lengths := [];
    NothingCounted();
    for k := 0 to |nodes|
      invariant Counted(nodes[..k], lengths)
    {
      ghost var before := lengths;
      var len := |nodes[k].text|;
      if len >= |lengths| {
        lengths := lengths + seq(len + 1 - |lengths|, _ => 0);
      }
      lengths := lengths[len := lengths[len] + 1];
      CountedNext(nodes[..k], nodes[k], before, lengths);
      assert nodes[..k + 1] == nodes[..k] + [nodes[k]];
    }
    assert nodes[..|nodes|] == nodes;
  }

  /** The lemmas of each length up to the longest are counted. */
  ghost predicate Counted(nodes: seq<Node>, lengths: seq<nat>) {
    |lengths| == Lengths(nodes) && forall len :: 0 <= len < |lengths| ==> lengths[len] == OfLength(nodes, len)
  }

  lemma NothingCounted()
    ensures Counted([], [])
  {
  }

  lemma CountedNext(nodes: seq<Node>, x: Node, before: seq<nat>, after: seq<nat>)
    requires Counted(nodes, before)
    requires |after| == if |x.text| < |before| then |before| else |x.text| + 1
    requires forall len :: 0 <= len < |after| ==>
      after[len] == (if len < |before| then before[len] else 0) + if len == |x.text| then 1 else 0
    ensures Counted(nodes + [x], after)
  {
    assert (nodes + [x])[..|nodes|] == nodes;
    forall len | 0 <= len < |after|
      ensures after[len] == OfLength(nodes + [x], len)
    {
      assert OfLength(nodes + [x], len) == OfLength(nodes, len) + if |x.text| == len then 1 else 0;
    }
  }

  method EncodeLengths(sizes: seq<nat>) returns (data: seq<Byte>)
    requires |sizes| < 0x100
    ensures data == DictionaryFile.HistogramBytes(sizes)
  {
    data := [|sizes|];
    assert sizes[..0] == [];
    for i := 0 to |sizes|
      invariant data == [|sizes|] + Le4s(sizes[..i])
    {
      assert sizes[..i + 1] == sizes[..i] + [sizes[i]];
      Le4sAppend(sizes[..i], sizes[i]);
      data := data + Le4(sizes[i]);
    }
    assert sizes[..|sizes|] == sizes;
  }

  predicate WidthsFit(nodes: seq<Node>) {
    Lengths(nodes) < 0x100 && |nodes| < 0x1_0000_0000 && forall n <- nodes :: NodeFits(n)
  }

  /** What the encoder accepts, told from what is known about the lemmas: their chosen parents do not run in a
      cycle, and everything fits in its field. */
  ghost predicate Acceptable(before: Derinet) {
    var d := Chosen(before);
    !HasCycle(d) && |d| < 0x1_0000_0000 && forall x <- d :: NodeFits(NodeOf(d, x))
  }

  /** The nodes of what is known, in the order in which they are written. */
  ghost predicate Listing(nodes: seq<Node>, before: Derinet) {
    ListsAll(nodes, Chosen(before), before.Keys) && Ascending(nodes)
  }

  /** The stream of some nodes. */
  ghost predicate StreamOf(data: seq<Byte>, sizes: seq<nat>, nodes: seq<Node>) {
    && Counted(nodes, sizes) && |sizes| < 0x100
    && |nodes| < 0x1_0000_0000 && (forall n <- nodes :: NodeFits(n))
    && data == DictionaryFile.HistogramBytes(sizes) + (Le4(|nodes|) + NodesBytes([], nodes))
  }

  /** Chooses parents, rejects cycles, and writes the stream. It fails exactly when the chosen parents run in
      a cycle or something does not fit in its field. */
  method Encode(before: Derinet) returns (data: Option<seq<Byte>>, ghost sizes: seq<nat>, ghost nodes: seq<Node>)
    requires ParentsOk(before)
    requires forall x <- before :: before[x].parent == [] && before[x].children == 0 && before[x].mark == 0
    ensures Listing(nodes, before)
    ensures data.None? <==> !Acceptable(before)
    ensures data.Some? ==> NodesOk(nodes) && forall x <- Chosen(before) :: Ends(Chosen(before), x)
    ensures data.Some? ==> StreamOf(data.value, sizes, nodes)
  {
    hide Choice, ParentsOk, ListsAll, HasCycle, Ends, NodesBytes, Le4, DictionaryFile.HistogramBytes, NodeFits,
      Chosen, Ascending, NodeOf, OfLength, Lengths;
    var d := ChooseParents(before);
    ChosenKeys(before);
    ChosenClosed(before, d);
    var list := ListNodes(d);
    var lengths := CountLengths(list);
    sizes, nodes := lengths, list;
    var cycle := ContainsCycle(d);
    ListFits(list, d);
    if cycle || !WidthsFit(list) {
      return None, sizes, nodes;
    }
    ListedNodesOk(nodes, d);
    var header := EncodeLengths(lengths);
    var body := EncodeNodes(list);
    data := Some(header + (Le4(|list|) + body));
  }

  lemma ChosenKeys(before: Derinet)
    ensures Chosen(before).Keys == before.Keys
  {
  }

  /** The listing fits iff the lemmas do. */
  lemma ListFits(nodes: seq<Node>, d: Derinet)
    requires ListsAll(nodes, d, d.Keys)
    ensures WidthsFit(nodes) <==> |d| < 0x1_0000_0000 && forall x <- d :: NodeFits(NodeOf(d, x))
  {
    ListedSize(nodes, d, d.Keys);
    assert |d| == |d.Keys|;
    forall x | x in d
      ensures NodeOf(d, x) in nodes
    {
      var i :| 0 <= i < |nodes| && nodes[i].text == x;
    }
    forall n | n in nodes
      ensures n.text in d && n == NodeOf(d, n.text)
    {
      var i :| 0 <= i < |nodes| && nodes[i] == n;
    }
  }

  lemma {:induction false} ListedSize(nodes: seq<Node>, d: Derinet, keys: set<Text>)
    requires ListsAll(nodes, d, keys)
    ensures |nodes| == |keys|
    decreases |nodes|
  {
    hide NodeOf;
    if nodes == [] {
      assert keys == {};
    } else {
      var n := |nodes| - 1;
      var x := nodes[n].text;
      forall y | y in keys - {x}
        ensures exists i :: 0 <= i < n && nodes[..n][i].text == y
      {
        var i :| 0 <= i < |nodes| && nodes[i].text == y;
        assert nodes[..n][i].text == y;
      }
      ListedSize(nodes[..n], d, keys - {x});
    }
  }

  lemma ChosenClosed(before: Derinet, d: Derinet)
    requires ParentsOk(before) && d.Keys == before.Keys && forall x <- d :: Choice(before, x, d[x].parent)
    ensures Closed(d) && forall x <- d :: d[x].parent != x
  {
    forall x | x in d
      ensures d[x].parent != x && (d[x].parent == [] || d[x].parent in d)
    {
      if before[x].parents != {} { ChosenIsParent(before, x, d[x].parent); }
    }
  }
}
