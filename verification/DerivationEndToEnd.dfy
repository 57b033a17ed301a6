/** From possible parents to answers and printed trees: choose, encode, load, ask
    (src/derivator/derivator_dictionary_encoder.cpp, derivator_dictionary.cpp and derivation_formatter.cpp). */
module DerivationEndToEnd {
  import opened Bytes
  import opened ClassFactoring
  import opened DerivationForest
  import opened DerivationFormatter
  import opened DerivatorCodec
  import opened DerivatorDictionary
  import opened DerivatorEncoder
  import opened DerivatorLayout
  import DictionaryFile
  import FnvHash
  import PersistentMap
  import opened Encoding = Words

  // ----- What is to be answered

  /** A lemma with its comment. */
  function FullName(d: Derinet, x: Text): Text
    requires x in d
  {
    x + d[x].comment
  }

  function ParentName(d: Derinet, x: Text): Option<Text> {
    if x in d && d[x].parent in d then Some(FullName(d, d[x].parent)) else None
  }

  /** The texts in ascending order, each once. */
  ghost predicate IsInOrder(q: seq<Text>, s: set<Text>) {
    && (forall i, j :: 0 <= i < j < |q| ==> TextLeq(q[i], q[j]) && q[i] != q[j])
    && (forall i :: 0 <= i < |q| ==> q[i] in s) && forall x <- s :: x in q
  }

  ghost function InOrder(s: set<Text>): (q: seq<Text>) {
    if s == {} then []
    else
      SmallestExists(s);
      var t :| Smallest(t, s);
      [t] + InOrder(s - {t})
  }

  lemma InOrderStep(s: set<Text>)
    requires s != {}
    ensures var q := InOrder(s); q != [] && Smallest(q[0], s) && q[1..] == InOrder(s - {q[0]})
  {
    hide TextLeq;
    SmallestExists(s);
    var q := InOrder(s);
    assert exists t :: Smallest(t, s) && q == [t] + InOrder(s - {t});
  }

  lemma {:induction false} InOrderOk(s: set<Text>)
    ensures IsInOrder(InOrder(s), s)
    decreases |s|
  {
    hide TextLeq, InOrder;
    if s == {} {
      NothingInOrder();
    } else {
      InOrderStep(s);
      var q := InOrder(s);
      InOrderOk(s - {q[0]});
      FirstInOrder(q, s);
    }
  }

  lemma NothingInOrder()
    ensures InOrder({}) == []
  {
  }

  lemma FirstInOrder(q: seq<Text>, s: set<Text>)
    requires q != [] && Smallest(q[0], s) && IsInOrder(q[1..], s - {q[0]})
    ensures IsInOrder(q, s)
  {
    hide TextLeq;
    var rest := q[1..];
    assert forall i :: 0 < i < |q| ==> q[i] == rest[i - 1];
    forall x | x in s
      ensures x in q
    {
      if x != q[0] {
        assert x in s - {q[0]};
        var i :| 0 <= i < |rest| && rest[i] == x;
        assert q[i + 1] == x;
      }
    }
  }

  lemma {:induction false} InOrderUnique(a: seq<Text>, b: seq<Text>, s: set<Text>)
    requires IsInOrder(a, s) && IsInOrder(b, s)
    ensures a == b
    decreases |a|
  {
    hide TextLeq;
    if a == [] {
      assert s == {};
    } else {
      assert a[0] in s && b != [] && b[0] in s;
      TextLeqTotal(a[0], b[0]);
      assert a[0] in b && b[0] in a;
      assert a[0] == b[0];
      OrderedRest(a, s);
      OrderedRest(b, s);
      InOrderUnique(a[1..], b[1..], s - {a[0]});
      assert a == [a[0]] + a[1..] && b == [b[0]] + b[1..];
    }
  }

  lemma OrderedRest(q: seq<Text>, s: set<Text>)
    requires q != [] && IsInOrder(q, s)
    ensures IsInOrder(q[1..], s - {q[0]})
  {
    hide TextLeq;
    forall x | x in s - {q[0]}
      ensures x in q[1..]
    {
      var i :| 0 <= i < |q| && q[i] == x;
      assert q[1..][i - 1] == x;
    }
  }

  ghost function ChildTexts(d: Derinet, x: Text): (q: seq<Text>) {
    if x in d then InOrder(ChildrenOf(d, x)) else []
  }

  lemma ChildTextsExact(d: Derinet, x: Text, c: Text)
    ensures c in ChildTexts(d, x) <==> x in d && c in d && d[c].parent == x
    ensures forall i, j :: 0 <= i < j < |ChildTexts(d, x)| ==> ChildTexts(d, x)[i] != ChildTexts(d, x)[j]
  {
    hide TextLeq, InOrder;
    InOrderOk(ChildrenOf(d, x));
    if x in d && c in ChildTexts(d, x) {
      var i :| 0 <= i < |ChildTexts(d, x)| && ChildTexts(d, x)[i] == c;
    }
  }

  function FullNames(d: Derinet, q: seq<Text>): (r: seq<Text>)
    ensures |r| == |q| && forall i :: 0 <= i < |q| && q[i] in d ==> r[i] == FullName(d, q[i])
  {
    seq(|q|, i requires 0 <= i < |q| => if q[i] in d then FullName(d, q[i]) else [])
  }

  /** What a derivator is to answer when asked by name: the parent with its comment, and the children with theirs
      in ascending order. A dictionary tells the lemma in a name. */
  ghost function AnswersOf(d: Derinet, lemmaId: Text -> Text): Derivations {
    Derivations(name => ParentName(d, lemmaId(name)), name => FullNames(d, ChildTexts(d, lemmaId(name))))
  }

  // ----- Encoding, loading and asking

  /** The derivator has loaded the stream of what is known. */
  ghost predicate Represents(der: Derivator, before: Derinet, nodes: seq<Node>, places: seq<nat>,
                             items: seq<FnvHash.Entry>)
    reads der`derinet, der.derinet, der.derinet.hashes
  {
    Listing(nodes, before) && NodesOk(nodes) && der.Linked(nodes, places, |nodes|, items)
  }

  /** Every place fits in three bytes, as the loader asserts. */
  ghost predicate PlacesInRange(before: Derinet) {
    forall nodes :: Listing(nodes, before) ==> PersistentMap.HashesFit(Shapes(nodes), MAX_OFFSET)
  }

  /** Chooses parents, encodes and loads. */
  method Publish(before: Derinet)
    returns (der: Option<Derivator>, ghost nodes: seq<Node>, ghost places: seq<nat>, ghost items: seq<FnvHash.Entry>)
    requires ParentsOk(before)
    requires forall x <- before :: before[x].parent == [] && before[x].children == 0 && before[x].mark == 0
    requires PlacesInRange(before)
    ensures der.None? <==> !Acceptable(before)
    ensures der.Some? ==> Represents(der.value, before, nodes, places, items)
    ensures der.Some? ==> Closed(Chosen(before)) && forall x <- Chosen(before) :: Ends(Chosen(before), x)
  {
    hide ParentsOk, Listing, Acceptable, NodesOk, Derivator.Linked, PersistentMap.HashesFit, Chosen, Ends, StreamOf,
      Closed;
    var data;
    ghost var sizes;
    data, sizes, nodes := Encode(before);
    places, items := [], [];
    if data.None? {
      return None, nodes, places, items;
    }
    assert Closed(Chosen(before)) by { ChosenIsClosed(before); }
    StreamLoads(data.value, sizes, nodes);
    var d := new Derivator();
    places, items := d.Load(data.value, sizes, nodes);
    der := Some(d);
  }

  lemma ChosenIsClosed(before: Derinet)
    requires ParentsOk(before)
    ensures Closed(Chosen(before))
  {
    hide Choice;
    forall x | x in before
      ensures Choice(before, x, ChosenParent(before, x))
    {
      ChoiceExists(before, x);
    }
    ChosenClosed(before, Chosen(before));
  }

  lemma ChoiceExists(d: Derinet, x: Text)
    requires x in d
    ensures Choice(d, x, ChosenParent(d, x))
  {
    hide TextLeq;
    if d[x].parents == {} {
      assert Choice(d, x, []);
    } else if SameSense(d, x) != {} {
      SmallestExists(SameSense(d, x));
      var p :| Smallest(p, SameSense(d, x));
      assert Choice(d, x, p);
    } else {
      SmallestExists(d[x].parents);
      var p :| Smallest(p, d[x].parents);
      assert Choice(d, x, p);
    }
  }

  /** The stream is as the loader needs it. */
  lemma StreamLoads(data: seq<Byte>, sizes: seq<nat>, nodes: seq<Node>)
    requires StreamOf(data, sizes, nodes)
    ensures |sizes| < 0x100 && |nodes| < 0x1_0000_0000 && NodesFit(nodes)
    ensures data == DictionaryFile.HistogramBytes(sizes) + (Le4(|nodes|) + NodesBytes([], nodes))
    ensures forall n <- nodes :: |n.text| < |sizes|
  {
  }

  /** Asking for the parent gives what is to be answered. */
  method AskParent(der: Derivator, name: Text, lemmaId: Text -> Text,
                   ghost before: Derinet, ghost nodes: seq<Node>, ghost places: seq<nat>,
                     ghost items: seq<FnvHash.Entry>)
    returns (parent: Option<Text>)
    requires Represents(der, before, nodes, places, items)
    ensures parent == AnswersOf(Chosen(before), lemmaId).parent(name)
    ensures parent.Some? ==>
      var x := lemmaId(name);
      && x in before
      && exists p <- before[x].parents ::
           && p in before && parent.value == p + before[p].comment
           && ((exists q <- before[x].parents :: q in before && before[q].sense == before[x].sense) ==>
                 && before[p].sense == before[x].sense
                 && forall q <- before[x].parents ::
                      q in before && before[q].sense == before[x].sense ==> TextLeq(p, q))
           && ((forall q <- before[x].parents :: q in before ==> before[q].sense != before[x].sense) ==>
                 forall q <- before[x].parents :: TextLeq(p, q))
    ensures ParentsOk(before) && lemmaId(name) in before && before[lemmaId(name)].parents != {} ==> parent.Some?
  {
    hide NodesOk, Derivator.Linked, Chosen, ParentsOk, TextLeq, ParentName, Listing;
    var found, p := der.Parent(name, lemmaId, nodes, places, items);
    parent := if found then Some(p) else None;
    ParentAnswered(before, nodes, lemmaId(name), found, p);
    NothingEmpty(before, nodes);
    ParentTold(before, lemmaId(name));
  }

  lemma NothingEmpty(before: Derinet, nodes: seq<Node>)
    requires Listing(nodes, before) && NodesOk(nodes)
    ensures [] !in before
  {
    hide Chosen, NodesOk, ListsAll, Ascending;
    ChosenKeys(before);
    NoEmptyNode(nodes, Chosen(before));
  }

  /** The parent that is told, in so many words: a possible one, with its comment. If some possible parent has the sense
      of the lemma, the one told has it, and no smaller one has. Otherwise it is the smallest of all. */
  lemma ParentTold(before: Derinet, x: Text)
    requires [] !in before
    ensures ParentName(Chosen(before), x).Some? ==>
      && x in before
      && exists p <- before[x].parents ::
           && p in before && ParentName(Chosen(before), x).value == p + before[p].comment
           && ((exists q <- before[x].parents :: q in before && before[q].sense == before[x].sense) ==>
                 && before[p].sense == before[x].sense
                 && forall q <- before[x].parents ::
                      q in before && before[q].sense == before[x].sense ==> TextLeq(p, q))
           && ((forall q <- before[x].parents :: q in before ==> before[q].sense != before[x].sense) ==>
                 forall q <- before[x].parents :: TextLeq(p, q))
    ensures ParentsOk(before) && x in before && before[x].parents != {} ==> ParentName(Chosen(before), x).Some?
  {
    hide TextLeq;
    if x in before {
      var p := ChosenParent(before, x);
      ChoiceExists(before, x);
      forall q | q in before[x].parents
        ensures q in before && before[q].sense == before[x].sense <==> q in SameSense(before, x)
      {
      }
    }
  }

  lemma ParentAnswered(before: Derinet, nodes: seq<Node>, x: Text, found: bool, p: Text)
    requires Listing(nodes, before) && NodesOk(nodes)
    requires found <==> exists j :: 0 <= j < |nodes| && nodes[j].text == x && nodes[j].parent != []
    requires found ==> forall j :: 0 <= j < |nodes| && nodes[j].text == x ==>
      exists q :: 0 <= q < |nodes| && nodes[q].text == nodes[j].parent && p == Named(nodes[q])
    ensures ParentName(Chosen(before), x) == if found then Some(p) else None
  {
    hide Chosen, NodesOk, NodeFits, Kids, Ascending;
    var d := Chosen(before);
    ChosenKeys(before);
    if found {
      var j :| 0 <= j < |nodes| && nodes[j].text == x && nodes[j].parent != [];
      var q :| 0 <= q < |nodes| && nodes[q].text == nodes[j].parent && p == Named(nodes[q]);
      assert nodes[q] == NodeOf(d, nodes[q].text) && nodes[j] == NodeOf(d, x);
    } else if x in d {
      var j :| 0 <= j < |nodes| && nodes[j].text == x;
      assert nodes[j] == NodeOf(d, x) && d[x].parent == [];
      NoEmptyNode(nodes, d);
    }
  }

  lemma NoEmptyNode(nodes: seq<Node>, d: Derinet)
    requires NodesOk(nodes) && ListsAll(nodes, d, d.Keys)
    ensures [] !in d
  {
    hide Kids, NodeFits, NodeOf;
    forall i | 0 <= i < |nodes|
      ensures nodes[i].text != []
    {
      assert NodeOk(nodes, i);
    }
  }

  /** Asking for the children gives what is to be answered. */
  method AskChildren(der: Derivator, name: Text, lemmaId: Text -> Text,
                     ghost before: Derinet, ghost nodes: seq<Node>, ghost places: seq<nat>,
                       ghost items: seq<FnvHash.Entry>)
    returns (children: seq<Text>)
    requires Represents(der, before, nodes, places, items)
    ensures children == AnswersOf(Chosen(before), lemmaId).children(name)
    ensures exists texts: seq<Text> ::
      && |texts| == |children|
      && (forall i :: 0 <= i < |texts| ==> texts[i] in before && children[i] == texts[i] + before[texts[i]].comment)
      && (forall i, j :: 0 <= i < j < |texts| ==> TextLeq(texts[i], texts[j]) && texts[i] != texts[j])
      && Chosen(before).Keys == before.Keys
      && forall c :: c in texts <==>
           lemmaId(name) in before && c in before && Chosen(before)[c].parent == lemmaId(name)
  {
    hide NodesOk, Derivator.Linked, Chosen, TextLeq, ChildTexts, FullNames;
    var found;
    found, children := der.Children(name, lemmaId, nodes, places, items);
    ChildrenAnswered(before, nodes, lemmaId(name), children);
    var _ := ChildrenTold(before, lemmaId(name));
  }

  /** The children that are told, in so many words: those that chose the lemma, with their comments, in ascending
      order, each once. */
  lemma ChildrenTold(before: Derinet, x: Text) returns (texts: seq<Text>)
    ensures var told := FullNames(Chosen(before), ChildTexts(Chosen(before), x));
      && |texts| == |told|
      && (forall i :: 0 <= i < |texts| ==> texts[i] in before && told[i] == texts[i] + before[texts[i]].comment)
      && (forall i, j :: 0 <= i < j < |texts| ==> TextLeq(texts[i], texts[j]) && texts[i] != texts[j])
      && Chosen(before).Keys == before.Keys
      && forall c :: c in texts <==> x in before && c in before && Chosen(before)[c].parent == x
  {
    hide TextLeq, InOrder, ChosenParent;
    var d := Chosen(before);
    ChosenKeys(before);
    texts := ChildTexts(d, x);
    if x in d { InOrderOk(ChildrenOf(d, x)); }
    forall c
      ensures c in texts <==> x in before && c in before && d[c].parent == x
    {
      ChildTextsExact(d, x, c);
    }
    forall i | 0 <= i < |texts|
      ensures texts[i] in d && FullNames(d, texts)[i] == texts[i] + before[texts[i]].comment
    {
      ChildTextsExact(d, x, texts[i]);
    }
  }

  lemma ChildrenAnswered(before: Derinet, nodes: seq<Node>, x: Text, children: seq<Text>)
    requires Listing(nodes, before) && NodesOk(nodes)
    requires (forall j :: 0 <= j < |nodes| ==> nodes[j].text != x) ==> children == []
    requires forall j ::
      0 <= j < |nodes| && nodes[j].text == x ==> children == DerivatorDictionary.Names(nodes, Kids(nodes, x, |nodes|))
    ensures children == FullNames(Chosen(before), ChildTexts(Chosen(before), x))
  {
    hide Chosen, NodesOk, Kids, InOrder, IsInOrder, ListsAll, Ascending;
    var d := Chosen(before);
    ChosenKeys(before);
    if x in d {
      var j := NumberIn(nodes, d, x);
      var kids := Kids(nodes, x, |nodes|);
      var texts := KidTexts(nodes, kids);
      KidsInOrder(nodes, d, x);
      InOrderOk(ChildrenOf(d, x));
      InOrderUnique(texts, InOrder(ChildrenOf(d, x)), ChildrenOf(d, x));
      forall i | 0 <= i < |kids|
        ensures children[i] == FullNames(d, texts)[i]
      {
        assert kids[i] in kids;
        ListedAt(nodes, d, kids[i]);
      }
    } else {
      forall j | 0 <= j < |nodes|
        ensures nodes[j].text != x
      {
        ListedAt(nodes, d, j);
      }
    }
  }

  lemma ListedAt(nodes: seq<Node>, d: Derinet, j: nat)
    requires ListsAll(nodes, d, d.Keys) && j < |nodes|
    ensures nodes[j].text in d && nodes[j] == NodeOf(d, nodes[j].text)
  {
  }

  lemma NumberIn(nodes: seq<Node>, d: Derinet, x: Text) returns (j: nat)
    requires ListsAll(nodes, d, d.Keys) && x in d
    ensures j < |nodes| && nodes[j].text == x
  {
    j :| 0 <= j < |nodes| && nodes[j].text == x;
  }

  function KidTexts(nodes: seq<Node>, js: seq<nat>): (r: seq<Text>)
    requires forall j <- js :: j < |nodes|
    ensures |r| == |js| && forall i :: 0 <= i < |r| ==> js[i] in js && r[i] == nodes[js[i]].text
  {
    seq(|js|, i requires 0 <= i < |js| => assert js[i] in js; nodes[js[i]].text)
  }

  /** The children of a listed lemma come in ascending order. */
  lemma KidsInOrder(nodes: seq<Node>, d: Derinet, x: Text)
    requires ListsAll(nodes, d, d.Keys) && Ascending(nodes) && x in d
    ensures IsInOrder(KidTexts(nodes, Kids(nodes, x, |nodes|)), ChildrenOf(d, x))
  {
    hide Kids, TextLeq;
    var kids := Kids(nodes, x, |nodes|);
    var texts := KidTexts(nodes, kids);
    KidsExact(nodes, x, |nodes|);
    forall i, j | 0 <= i < j < |texts|
      ensures TextLeq(texts[i], texts[j]) && texts[i] != texts[j]
    {
      assert kids[i] in kids && kids[j] in kids && kids[i] < kids[j];
    }
    forall i | 0 <= i < |texts|
      ensures texts[i] in ChildrenOf(d, x)
    {
      assert kids[i] in kids;
      ListedAt(nodes, d, kids[i]);
    }
    forall c | c in ChildrenOf(d, x)
      ensures c in texts
    {
      var j := NumberIn(nodes, d, c);
      ListedAt(nodes, d, j);
      assert j in kids;
      var i :| 0 <= i < |kids| && kids[i] == j;
      assert texts[i] == c;
    }
  }

  // ----- Depth and height

  /** The least number of steps, at most `n`, after which the chain has ended. */
  ghost function Least(d: Derinet, x: Text, n: nat): (m: nat)
    requires Up(d, x, n) == []
    ensures m <= n && Up(d, x, m) == []
  {
    if k: nat :| k < n && Up(d, x, k) == [] then Least(d, x, k) else n
  }

  lemma {:induction false} LeastIsLeast(d: Derinet, x: Text, n: nat, k: nat)
    requires Up(d, x, n) == [] && Up(d, x, k) == []
    ensures Least(d, x, n) <= k
    decreases n
  {
    hide Up;
    if j: nat :| j < n && Up(d, x, j) == [] {
      var m := Least(d, x, n);
      if exists i: nat :: i < n && Up(d, x, i) == [] && m == Least(d, x, i) {
        var i: nat :| i < n && Up(d, x, i) == [] && m == Least(d, x, i);
        LeastIsLeast(d, x, i, k);
      }
    }
  }

  /** Steps to the root. */
  ghost function Depth(d: Derinet, x: Text): (n: nat)
    ensures Ends(d, x) ==> Up(d, x, n) == []
  {
    if Ends(d, x) then
      var n: nat :| Up(d, x, n) == [];
      Least(d, x, n)
    else 0
  }

  lemma DepthLeast(d: Derinet, x: Text, k: nat)
    requires Up(d, x, k) == []
    ensures Depth(d, x) <= k
  {
    hide Up, Least;
    assert Ends(d, x);
    forall n: nat | Up(d, x, n) == []
      ensures Least(d, x, n) <= k
    {
      LeastIsLeast(d, x, n, k);
    }
  }

  /** A parent is nearer to the root. */
  lemma DepthOfParent(d: Derinet, x: Text)
    requires x in d && [] !in d && Ends(d, x)
    ensures Depth(d, d[x].parent) < Depth(d, x)
  {
    hide Depth;
    var n := Depth(d, x);
    assert Up(d, x, 0) == x != [];
    UpPlus(d, x, 1, n - 1);
    assert Up(d, x, 1) == d[x].parent;
    DepthLeast(d, d[x].parent, n - 1);
  }

  lemma {:induction false} DepthBound(d: Derinet, keys: set<Text>) returns (m: nat)
    ensures forall x <- keys :: Depth(d, x) <= m
    decreases |keys|
  {
    hide Depth;
    if keys == {} {
      m := 0;
    } else {
      var x :| x in keys;
      m := DepthBound(d, keys - {x});
      if Depth(d, x) > m { m := Depth(d, x); }
    }
  }

  // ----- Names and trees

  /** The dictionary tells the lemma in each full name. */
  ghost predicate IdsOk(d: Derinet, lemmaId: Text -> Text) {
    forall x <- d :: lemmaId(FullName(d, x)) == x
  }

  /** What is known reaches a root everywhere. */
  ghost predicate Rooted(d: Derinet) {
    Closed(d) && forall x <- d :: Ends(d, x)
  }

  ghost function DepthOf(d: Derinet, x: Text): nat {
    if x in d then Depth(d, x) else 0
  }

  /** Following the answers ends, both upwards and downwards. */
  lemma AnswersFinite(d: Derinet, lemmaId: Text -> Text) returns (depth: Text -> nat, height: Text -> nat)
    requires Rooted(d) && IdsOk(d, lemmaId)
    ensures Finite(AnswersOf(d, lemmaId), depth, height)
  {
    hide Depth, ChildTexts, Ends;
    var f := AnswersOf(d, lemmaId);
    var m := DepthBound(d, d.Keys);
    depth := name => DepthOf(d, lemmaId(name));
    height := name => if lemmaId(name) in d && Depth(d, lemmaId(name)) <= m then m - Depth(d, lemmaId(name)) else 0;
    forall name | f.parent(name).Some?
      ensures depth(f.parent(name).value) < depth(name)
    {
      DepthOfParent(d, lemmaId(name));
    }
    forall name, c | c in f.children(name)
      ensures height(c) < height(name)
    {
      var x := ChildFullName(d, lemmaId(name), c);
      DepthOfParent(d, x);
    }
  }

  /** A child that is answered is the full name of a lemma with that parent. */
  lemma ChildFullName(d: Derinet, x: Text, c: Text) returns (y: Text)
    requires c in FullNames(d, ChildTexts(d, x))
    ensures y in d && x in d && d[y].parent == x && c == FullName(d, y)
  {
    hide ChildTexts;
    var texts := ChildTexts(d, x);
    var i :| 0 <= i < |texts| && FullNames(d, texts)[i] == c;
    ChildTextsExact(d, x, texts[i]);
    y := texts[i];
  }

  /** The full name of a lemma. */
  ghost predicate Known(d: Derinet, lemmaId: Text -> Text, name: Text) {
    lemmaId(name) in d && name == FullName(d, lemmaId(name))
  }

  /** The answers to full names alone. */
  ghost function KnownAnswers(d: Derinet, lemmaId: Text -> Text): Derivations {
    Derivations(name => KnownParent(d, lemmaId, name), name => KnownChildren(d, lemmaId, name))
  }

  ghost function KnownParent(d: Derinet, lemmaId: Text -> Text, name: Text): Option<Text> {
    if Known(d, lemmaId, name) then ParentName(d, lemmaId(name)) else None
  }

  ghost function KnownChildren(d: Derinet, lemmaId: Text -> Text, name: Text): seq<Text> {
    if Known(d, lemmaId, name) then FullNames(d, ChildTexts(d, lemmaId(name))) else []
  }

  /** For full names, a lemma is among the children of its parent, once, and of no other. */
  lemma KnownAgree(d: Derinet, lemmaId: Text -> Text)
    requires IdsOk(d, lemmaId)
    ensures Agree(KnownAnswers(d, lemmaId))
  {
    hide KnownParent, KnownChildren;
    var f := KnownAnswers(d, lemmaId);
    forall x, c
      ensures c in f.children(x) <==> f.parent(c) == Some(x)
    {
      KnownIff(d, lemmaId, x, c);
    }
    forall x, i, j | 0 <= i < j < |f.children(x)|
      ensures f.children(x)[i] != f.children(x)[j]
    {
      KnownOnce(d, lemmaId, x, i, j);
    }
  }

  lemma IdOf(d: Derinet, lemmaId: Text -> Text, x: Text)
    requires IdsOk(d, lemmaId) && x in d
    ensures lemmaId(FullName(d, x)) == x
  {
  }

  lemma KnownIff(d: Derinet, lemmaId: Text -> Text, x: Text, c: Text)
    requires IdsOk(d, lemmaId)
    ensures c in KnownChildren(d, lemmaId, x) <==> KnownParent(d, lemmaId, c) == Some(x)
  {
    hide ChildTexts, FullNames, IdsOk, FullName;
    if c in KnownChildren(d, lemmaId, x) {
      var y := ChildFullName(d, lemmaId(x), c);
      IdOf(d, lemmaId, y);
    }
    if KnownParent(d, lemmaId, c) == Some(x) {
      assert Known(d, lemmaId, c);
      var p := d[lemmaId(c)].parent;
      IdOf(d, lemmaId, p);
      FullNameListed(d, p, lemmaId(c));
    }
  }

  lemma KnownOnce(d: Derinet, lemmaId: Text -> Text, x: Text, i: nat, j: nat)
    requires IdsOk(d, lemmaId) && i < j < |KnownChildren(d, lemmaId, x)|
    ensures KnownChildren(d, lemmaId, x)[i] != KnownChildren(d, lemmaId, x)[j]
  {
    hide ChildTexts, IdsOk;
    var texts := ChildTexts(d, lemmaId(x));
    ChildTextsExact(d, lemmaId(x), texts[i]);
    ChildTextsExact(d, lemmaId(x), texts[j]);
    IdOf(d, lemmaId, texts[i]);
    IdOf(d, lemmaId, texts[j]);
  }

  lemma FullNameListed(d: Derinet, x: Text, y: Text)
    requires x in d && y in d && d[y].parent == x
    ensures FullName(d, y) in FullNames(d, ChildTexts(d, x))
  {
    hide ChildTexts;
    var texts := ChildTexts(d, x);
    ChildTextsExact(d, x, y);
    var i :| 0 <= i < |texts| && texts[i] == y;
    assert FullNames(d, texts)[i] == FullName(d, y);
  }

  lemma KnownFinite(d: Derinet, lemmaId: Text -> Text, depth: Text -> nat, height: Text -> nat)
    requires Finite(AnswersOf(d, lemmaId), depth, height)
    ensures Finite(KnownAnswers(d, lemmaId), depth, height)
  {
    hide ChildTexts, FullName, FullNames, ParentName;
    var f, g := AnswersOf(d, lemmaId), KnownAnswers(d, lemmaId);
    forall x | g.parent(x).Some?
      ensures depth(g.parent(x).value) < depth(x)
    {
      assert f.parent(x) == g.parent(x);
    }
    forall x, c | c in g.children(x)
      ensures height(c) < height(x)
    {
      assert f.children(x) == g.children(x);
    }
  }

  /** The tree below a full name consists of full names. */
  lemma {:induction false} TreeOfKnown(d: Derinet, lemmaId: Text -> Text, depth: Text -> nat, height: Text -> nat,
                                       r: Text)
    requires IdsOk(d, lemmaId) && Known(d, lemmaId, r)
    requires Finite(AnswersOf(d, lemmaId), depth, height) && Finite(KnownAnswers(d, lemmaId), depth, height)
    ensures TreeOf(AnswersOf(d, lemmaId), depth, height, r) == TreeOf(KnownAnswers(d, lemmaId), depth, height, r)
    decreases height(r)
  {
    hide ChildTexts, Finite;
    var f, g := AnswersOf(d, lemmaId), KnownAnswers(d, lemmaId);
    var children := f.children(r);
    assert g.children(r) == children;
    forall i | 0 <= i < |children|
      ensures TreeOf(f, depth, height, children[i]) == TreeOf(g, depth, height, children[i])
    {
      assert children[i] in f.children(r);
      var y := ChildFullName(d, lemmaId(r), children[i]);
      ChildLower(f, depth, height, r, children[i]);
      TreeOfKnown(d, lemmaId, depth, height, children[i]);
    }
  }

  lemma ChildLower(f: Derivations, depth: Text -> nat, height: Text -> nat, r: Text, c: Text)
    requires Finite(f, depth, height) && c in f.children(r)
    ensures height(c) < height(r)
  {
  }

  lemma {:induction false} TreeClean(d: Derinet, lemmaId: Text -> Text, depth: Text -> nat, height: Text -> nat,
                                     r: Text)
    requires IdsOk(d, lemmaId) && Known(d, lemmaId, r) && Finite(AnswersOf(d, lemmaId), depth, height)
    requires forall x <- d :: Clean(FullName(d, x))
    ensures AllClean(TreeOf(AnswersOf(d, lemmaId), depth, height, r))
    decreases height(r)
  {
    hide ChildTexts, Finite, Clean;
    var f := AnswersOf(d, lemmaId);
    var t := TreeOf(f, depth, height, r);
    forall c | c in t.children
      ensures AllClean(c)
    {
      var i :| 0 <= i < |t.children| && t.children[i] == c;
      var name := f.children(r)[i];
      assert name in f.children(r);
      var y := ChildFullName(d, lemmaId(r), name);
      ChildLower(f, depth, height, r, name);
      TreeClean(d, lemmaId, depth, height, name);
    }
  }

  lemma ParentOfFullName(d: Derinet, lemmaId: Text -> Text, y: Text)
    requires IdsOk(d, lemmaId) && y in d
    ensures KnownParent(d, lemmaId, FullName(d, y)) ==
      if d[y].parent in d then Some(FullName(d, d[y].parent)) else None
  {
    hide ChildTexts, FullNames, IdsOk, FullName;
    IdOf(d, lemmaId, y);
  }

  /** Descending among the answers is descending among the lemmas. */
  lemma {:induction false} ReachesUp(d: Derinet, lemmaId: Text -> Text, y: Text, x: Text, n: nat)
    requires Closed(d) && IdsOk(d, lemmaId) && y in d && x in d
    ensures Reaches(KnownAnswers(d, lemmaId), FullName(d, y), FullName(d, x), n) <==> Up(d, y, n) == x
    decreases n
  {
    hide KnownParent, FullName, Up, IdsOk;
    var f, p := KnownAnswers(d, lemmaId), d[y].parent;
    UpSteps(d, y);
    if n == 0 {
      IdOf(d, lemmaId, y);
      IdOf(d, lemmaId, x);
    } else {
      ParentOfFullName(d, lemmaId, y);
      UpPlus(d, y, 1, n - 1);
      if p in d { ReachesUp(d, lemmaId, p, x, n - 1); } else { StaysEmpty(d, n - 1); }
    }
  }

  lemma UpSteps(d: Derinet, y: Text)
    requires y in d
    ensures Up(d, y, 0) == y && Up(d, y, 1) == d[y].parent
  {
    assert Up(d, y, 0) == y;
  }

  ghost predicate Under(d: Derinet, y: Text, x: Text) {
    exists n: nat :: Up(d, y, n) == x
  }

  /** The words of the tree printed below a lemma are the full names of the lemmas derived from it, each once. */
  lemma TreePrinted(d: Derinet, lemmaId: Text -> Text, depth: Text -> nat, height: Text -> nat, x: Text)
    requires Rooted(d) && IdsOk(d, lemmaId) && x in d && Finite(AnswersOf(d, lemmaId), depth, height)
    requires forall y <- d :: Clean(FullName(d, y))
    ensures var words := DerivationFormatter.Words(Print(TreeOf(AnswersOf(d, lemmaId), depth, height, FullName(d, x))));
      && Distinct(words) && (forall y <- d :: FullName(d, y) in words <==> Under(d, y, x))
      && forall w <- words :: lemmaId(w) in d && w == FullName(d, lemmaId(w))
  {
    hide DerivationFormatter.Words, Print, ChildTexts, Finite, Clean, AllClean, Preorder, Ends, Distinct;
    var f, r := KnownAnswers(d, lemmaId), FullName(d, x);
    KnownFinite(d, lemmaId, depth, height);
    KnownAgree(d, lemmaId);
    TreeOfKnown(d, lemmaId, depth, height, r);
    TreeClean(d, lemmaId, depth, height, r);
    PrintedOnce(f, depth, height, r);
    forall y | y in d
      ensures Descends(f, FullName(d, y), r) <==> Under(d, y, x)
    {
      if n: nat :| Reaches(f, FullName(d, y), r, n) { ReachesUp(d, lemmaId, y, x, n); }
      if n: nat :| Up(d, y, n) == x { ReachesUp(d, lemmaId, y, x, n); }
    }
    forall w | Descends(f, w, r)
      ensures Known(d, lemmaId, w)
    {
      var n: nat :| Reaches(f, w, r, n);
      if n == 0 { assert w == r; }
    }
  }
}
