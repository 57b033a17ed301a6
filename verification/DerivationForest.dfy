/** Choosing one parent for each lemma and rejecting cycles (src/derivator/derivator_dictionary_encoder.cpp). */
module DerivationForest {
  import opened ClassFactoring

  /** What is known about a lemma; an empty `parent` means that it has none. */
  datatype Info = Info(sense: Text, comment: Text, parent: Text, parents: set<Text>, children: nat, mark: nat)

  type Derinet = map<Text, Info>

  // ----- The choice of parents

  /** The lexicographically smallest of some texts. */
  ghost predicate Smallest(t: Text, texts: set<Text>) {
    t in texts && forall u <- texts :: TextLeq(t, u)
  }

  lemma {:induction false} SmallestExists(texts: set<Text>)
    requires texts != {}
    ensures exists t :: Smallest(t, texts)
    decreases |texts|
  {
    hide TextLeq;
    var t :| t in texts;
    var rest := texts - {t};
    TextLeqTotal(t, t);
    if rest == {} {
      assert texts == {t};
      assert Smallest(t, texts);
    } else {
      SmallestExists(rest);
      var u :| Smallest(u, rest);
      TextLeqTotal(t, u);
      if TextLeq(t, u) {
        forall v | v in rest
          ensures TextLeq(t, v)
        {
          TextLeqTransitive(t, u, v);
        }
        assert Smallest(t, texts);
      } else {
        assert Smallest(u, texts);
      }
    }
  }

  /** Possible parents with the sense of the lemma. */
  function SameSense(d: Derinet, x: Text): set<Text>
    requires x in d
  {
    set p | p in d[x].parents && p in d && d[p].sense == d[x].sense
  }

  /** The parent that is chosen: the smallest with the same sense, otherwise the smallest. */
  ghost predicate Choice(d: Derinet, x: Text, p: Text)
    requires x in d
  {
    if d[x].parents == {} then p == []
    else if SameSense(d, x) != {} then Smallest(p, SameSense(d, x))
    else Smallest(p, d[x].parents)
  }

  /** Possible parents are lemmas themselves, other than the lemma and not empty. */
  ghost predicate ParentsOk(d: Derinet) {
    [] !in d && forall x <- d :: x !in d[x].parents && forall p <- d[x].parents :: p in d
  }

  /** The choice, in so many words: if some possible parent has the sense of the lemma, the one chosen has it, and no
      smaller one has. Otherwise the one chosen is the smallest of all. */
  lemma ChoiceMeans(d: Derinet, x: Text, p: Text)
    requires ParentsOk(d) && x in d && Choice(d, x, p)
    ensures if d[x].parents == {} then p == [] else p in d[x].parents && p in d
    ensures (exists q <- d[x].parents :: d[q].sense == d[x].sense) ==>
      d[p].sense == d[x].sense && forall q <- d[x].parents :: d[q].sense == d[x].sense ==> TextLeq(p, q)
    ensures (forall q <- d[x].parents :: d[q].sense != d[x].sense) ==> forall q <- d[x].parents :: TextLeq(p, q)
  {
    hide TextLeq;
    forall q | q in d[x].parents
      ensures d[q].sense == d[x].sense <==> q in SameSense(d, x)
    {
    }
  }

  /** Goes through the possible parents in ascending order. */
  method ChooseParent(d: Derinet, x: Text) returns (p: Text)
    requires ParentsOk(d) && x in d
    ensures Choice(d, x, p)
    ensures if d[x].parents == {} then p == [] else p in d[x].parents && p in d
    ensures (exists q <- d[x].parents :: d[q].sense == d[x].sense) ==>
      d[p].sense == d[x].sense && forall q <- d[x].parents :: d[q].sense == d[x].sense ==> TextLeq(p, q)
    ensures (forall q <- d[x].parents :: d[q].sense != d[x].sense) ==> forall q <- d[x].parents :: TextLeq(p, q)
  {
    p := FirstWithSense(d, x);
    ChoiceMeans(d, x, p);
  }

  method FirstWithSense(d: Derinet, x: Text) returns (p: Text)
    requires ParentsOk(d) && x in d
    ensures Choice(d, x, p)
  {
    hide TextLeq;
    p := [];
    if d[x].parents != {} {
      var remaining := d[x].parents;
      while remaining != {}
        invariant remaining <= d[x].parents
        invariant forall q, r :: q in remaining && r in d[x].parents - remaining ==> TextLeq(r, q)
        invariant forall q <- d[x].parents - remaining :: d[q].sense != d[x].sense
        decreases |remaining|
      {
        SmallestExists(remaining);
        ghost var smallest :| Smallest(smallest, remaining);
        var q := TakeSmallest(remaining);
        if d[q].sense == d[x].sense {
          p := q;
          assert q in SameSense(d, x);
          return;
        }
        remaining := remaining - {q};
      }
      assert SameSense(d, x) == {};
      p := TakeSmallest(d[x].parents);
    }
  }

  method TakeSmallest(texts: set<Text>) returns (t: Text)
    requires texts != {}
    ensures Smallest(t, texts)
  {
    hide TextLeq;
    t :| t in texts;
    var remaining := texts - {t};
    TextLeqTotal(t, t);
    while remaining != {}
      invariant remaining <= texts && t in texts
      invariant forall u <- texts - remaining :: TextLeq(t, u)
      decreases |remaining|
    {
      var u :| u in remaining;
      TextLeqTotal(t, u);
      if !TextLeq(t, u) {
        forall v | v in texts - remaining
          ensures TextLeq(u, v)
        {
          TextLeqTransitive(u, t, v);
        }
        t := u;
      }
      TextLeqTotal(u, u);
      remaining := remaining - {u};
    }
  }

  /** The lemmas whose parent is `p`. */
  function ChildrenOf(d: Derinet, p: Text): set<Text> {
    set x | x in d && d[x].parent == p
  }

  /** The parent that is chosen, as a function of what is known. */
  ghost function ChosenParent(d: Derinet, x: Text): Text
    requires x in d
  {
    if p :| Choice(d, x, p) then p else []
  }

  /** The lemmas with their chosen parents, and the children counted. */
  ghost function Chosen(d: Derinet): Derinet {
    map x | x in d :: d[x].(parent := ChosenParent(d, x), children := |ChoosersOf(d, x)|)
  }

  ghost function ChoosersOf(d: Derinet, p: Text): set<Text> {
    set x | x in d && ChosenParent(d, x) == p
  }

  lemma ChoiceUnique(d: Derinet, x: Text, p: Text, q: Text)
    requires x in d && Choice(d, x, p) && Choice(d, x, q)
    ensures p == q
  {
    hide TextLeq;
    TextLeqTotal(p, q);
  }

  /** What follows the choice everywhere is that function. */
  lemma ChosenIs(before: Derinet, d: Derinet)
    requires d.Keys == before.Keys && forall x <- d :: Choice(before, x, d[x].parent)
    requires forall x <- d :: d[x] == before[x].(parent := d[x].parent, children := d[x].children)
    requires forall p <- d :: d[p].children == |ChildrenOf(d, p)|
    ensures d == Chosen(before)
  {
    hide Choice;
    forall x | x in d
      ensures ChosenParent(before, x) == d[x].parent
    {
      ChoiceUnique(before, x, d[x].parent, ChosenParent(before, x));
    }
    forall p | p in d
      ensures ChildrenOf(d, p) == ChoosersOf(before, p)
    {
    }
  }

  /** The lemmas outside `remaining` have their parent, and all children so far are counted. */
  ghost predicate ChosenSoFar(before: Derinet, d: Derinet, remaining: set<Text>) {
    && remaining <= before.Keys && d.Keys == before.Keys
    && (forall x <- d :: d[x] == before[x].(parent := d[x].parent, children := d[x].children))
    && (forall x <- d :: if x in remaining then d[x].parent == [] else Choice(before, x, d[x].parent))
    && forall p <- d :: d[p].children == |ChildrenOf(d, p)|
  }

  lemma NoneChosen(before: Derinet)
    requires [] !in before && forall x <- before :: before[x].parent == [] && before[x].children == 0
    ensures ChosenSoFar(before, before, before.Keys)
  {
    hide Choice;
    forall p | p in before
      ensures ChildrenOf(before, p) == {}
    {
    }
  }

  /** The lemma `x` has got the parent `p`. */
  function Attached(d: Derinet, x: Text, p: Text): Derinet
    requires x in d && p in d
  {
    var e := d[x := d[x].(parent := p)];
    e[p := e[p].(children := e[p].children + 1)]
  }

  lemma AttachedFacts(d: Derinet, x: Text, p: Text)
    requires x in d && p in d && x != p
    ensures Attached(d, x, p).Keys == d.Keys
    ensures forall y <- d :: Attached(d, x, p)[y].parent == if y == x then p else d[y].parent
    ensures forall y <- d ::
      Attached(d, x, p)[y] == d[y].(parent := Attached(d, x, p)[y].parent, children := Attached(d, x, p)[y].children)
    ensures forall y <- d :: Attached(d, x, p)[y].children == if y == p then d[y].children + 1 else d[y].children
  {
  }

  lemma ChosenNext(before: Derinet, d: Derinet, remaining: set<Text>, x: Text, p: Text)
    requires ParentsOk(before) && ChosenSoFar(before, d, remaining) && x in remaining && Choice(before, x, p)
    requires before[x].parents != {} && p in before && p != x && p != []
    ensures ChosenSoFar(before, Attached(d, x, p), remaining - {x})
  {
    hide Choice, ParentsOk, Attached, ChildrenOf;
    EmptyNoLemma(before);
    AttachedFacts(d, x, p);
    var after := Attached(d, x, p);
    forall q | q in after
      ensures after[q].children == |ChildrenOf(after, q)|
    {
      ChildAdded(d, after, x, p, q);
    }
  }

  lemma EmptyNoLemma(d: Derinet)
    requires ParentsOk(d)
    ensures [] !in d
  {
  }

  /** Chooses a parent for every lemma and counts the children. */
  method ChooseParents(before: Derinet) returns (d: Derinet)
    requires ParentsOk(before) && forall x <- before :: before[x].parent == [] && before[x].children == 0
    ensures d == Chosen(before) && d.Keys == before.Keys
    ensures forall x <- d :: d[x] == before[x].(parent := d[x].parent, children := d[x].children)
    ensures forall x <- d :: Choice(before, x, d[x].parent)
    ensures forall p <- d :: d[p].children == |ChildrenOf(d, p)|
  {
    hide Choice, ParentsOk, ChosenSoFar, Chosen;
    d := before;
    var remaining := before.Keys;
    EmptyNoLemma(before);
    NoneChosen(before);
    while remaining != {}
      invariant ChosenSoFar(before, d, remaining) && remaining <= before.Keys && d.Keys == before.Keys
      decreases |remaining|
    {
      var x :| x in remaining;
      var p := ChooseParent(before, x);
      if before[x].parents != {} {
        ChosenIsParent(before, x, p);
        ChosenNext(before, d, remaining, x, p);
        ghost var attached := Attached(d, x, p);
        d := d[x := d[x].(parent := p)];
        d := d[p := d[p].(children := d[p].children + 1)];
        assert d == attached;
      } else {
        NothingToChoose(before, d, remaining, x, p);
      }
      remaining := remaining - {x};
    }
    AllChosen(before, d);
    ChosenIs(before, d);
  }

  lemma AllChosen(before: Derinet, d: Derinet)
    requires ChosenSoFar(before, d, {})
    ensures d.Keys == before.Keys
    ensures forall x <- d :: d[x] == before[x].(parent := d[x].parent, children := d[x].children)
    ensures forall x <- d :: Choice(before, x, d[x].parent)
    ensures forall p <- d :: d[p].children == |ChildrenOf(d, p)|
  {
    hide Choice;
  }

  lemma NothingToChoose(before: Derinet, d: Derinet, remaining: set<Text>, x: Text, p: Text)
    requires ChosenSoFar(before, d, remaining) && x in remaining && before[x].parents == {} && Choice(before, x, p)
    ensures ChosenSoFar(before, d, remaining - {x})
  {
    NoChoice(before, x, p);
  }

  lemma ChosenIsParent(d: Derinet, x: Text, p: Text)
    requires ParentsOk(d) && x in d && Choice(d, x, p) && d[x].parents != {}
    ensures p in d && p != x && p != [] && p in d[x].parents
  {
  }

  lemma NoChoice(d: Derinet, x: Text, p: Text)
    requires x in d && d[x].parents == {} && Choice(d, x, p)
    ensures p == [] && Choice(d, x, [])
  {
  }

  lemma ChildAdded(before: Derinet, after: Derinet, x: Text, p: Text, q: Text)
    requires x in before && p in before && p != [] && q in before && q != [] && before[x].parent == []
    requires after.Keys == before.Keys && after[x].parent == p
    requires forall y <- before :: y != x ==> after[y].parent == before[y].parent
    ensures |ChildrenOf(after, q)| == |ChildrenOf(before, q)| + if q == p then 1 else 0
  {
    assert ChildrenOf(after, q) == ChildrenOf(before, q) + if q == p then {x} else {};
    assert x !in ChildrenOf(before, q);
  }

  // ----- Chains of parents

  /** The ancestor `n` steps up, empty above a root. */
  function Up(d: Derinet, x: Text, n: nat): Text {
    if n == 0 then x
    else
      var y := Up(d, x, n - 1);
      if y in d then d[y].parent else []
  }

  lemma {:induction false} UpPlus(d: Derinet, x: Text, m: nat, n: nat)
    ensures Up(d, x, m + n) == Up(d, Up(d, x, m), n)
  {
    if n > 0 {
      UpPlus(d, x, m, n - 1);
      assert m + n - 1 == m + (n - 1);
    }
  }

  ghost predicate OnCycle(d: Derinet, x: Text) {
    x in d && exists n: nat :: n > 0 && Up(d, x, n) == x
  }

  ghost predicate HasCycle(d: Derinet) {
    exists x :: OnCycle(d, x)
  }

  /** The chain of parents ends at a root. */
  ghost predicate Ends(d: Derinet, x: Text) {
    exists n: nat :: Up(d, x, n) == []
  }

  /** Chosen parents are lemmas. */
  ghost predicate Closed(d: Derinet) {
    [] !in d && forall x <- d :: d[x].parent == [] || d[x].parent in d
  }

  lemma {:induction false} StaysEmpty(d: Derinet, n: nat)
    requires [] !in d
    ensures Up(d, [], n) == []
  {
    if n > 0 { StaysEmpty(d, n - 1); }
  }

  lemma {:induction false} CycleRepeats(d: Derinet, x: Text, n: nat, k: nat)
    requires n > 0 && Up(d, x, n) == x
    ensures Up(d, x, k * n) == x
  {
    if k > 0 {
      CycleRepeats(d, x, n, k - 1);
      UpPlus(d, x, (k - 1) * n, n);
      assert (k - 1) * n + n == k * n;
    }
  }

  /** A chain that ends does not run in a cycle. */
  lemma EndsNotOnCycle(d: Derinet, x: Text)
    requires [] !in d && Ends(d, x)
    ensures !OnCycle(d, x)
  {
    hide Up;
    if OnCycle(d, x) {
      var m: nat :| Up(d, x, m) == [];
      var n: nat :| n > 0 && Up(d, x, n) == x;
      CycleRepeats(d, x, n, m);
      assert m * n >= m;
      UpPlus(d, x, m, m * n - m);
      StaysEmpty(d, m * n - m);
      assert false;
    }
  }

  lemma EndsFromParent(d: Derinet, x: Text)
    requires x in d && Ends(d, d[x].parent)
    ensures Ends(d, x)
  {
    var n: nat :| Up(d, d[x].parent, n) == [];
    UpPlus(d, x, 1, n);
    assert Up(d, x, 1) == d[x].parent;
    assert Up(d, x, 1 + n) == [];
  }

  // ----- The marking walk

  ghost predicate SameParents(d: Derinet, e: Derinet) {
    d.Keys == e.Keys && forall x <- d :: d[x].parent == e[x].parent
  }

  lemma {:induction false} UpSame(d: Derinet, e: Derinet, x: Text, n: nat)
    requires SameParents(d, e)
    ensures Up(d, x, n) == Up(e, x, n)
  {
    if n > 0 { UpSame(d, e, x, n - 1); }
  }

  /** Lemmas not reached yet. */
  function Unmarked(d: Derinet): set<Text> {
    set x | x in d && d[x].mark == 0
  }

  /** The lemmas with a mark, and their chains end. */
  ghost predicate MarkedEnd(d: Derinet) {
    forall x <- d :: d[x].mark != 0 ==> Ends(d, x)
  }

  /** A walk from child to parent. */
  ghost predicate Path(d: Derinet, path: seq<Text>) {
    && path != [] && (forall i :: 0 <= i < |path| ==> path[i] in d)
    && forall i :: 0 < i < |path| ==> d[path[i - 1]].parent == path[i]
  }

  lemma {:induction false} PathUp(d: Derinet, path: seq<Text>, i: nat, j: nat)
    requires Path(d, path) && i <= j < |path|
    ensures Up(d, path[i], j - i) == path[j]
  {
    if i < j {
      PathUp(d, path, i, j - 1);
      assert d[path[j - 1]].parent == path[j];
    }
  }

  /** If the last chain of a walk ends, all its chains do. */
  lemma {:induction false} PathEnds(d: Derinet, path: seq<Text>, i: nat)
    requires Path(d, path) && Ends(d, d[path[|path| - 1]].parent) && i < |path|
    ensures Ends(d, path[i])
    decreases |path| - i
  {
    hide Ends;
    if i < |path| - 1 {
      PathEnds(d, path, i + 1);
      assert d[path[i + 1 - 1]].parent == path[i + 1];
    }
    EndsFromParent(d, path[i]);
  }

  /** What the walk from one lemma has done so far. */
  ghost predicate Walking(before: Derinet, d: Derinet, path: seq<Text>, mark: nat) {
    && SameParents(before, d) && Path(d, path)
    && forall x <- d :: d[x].mark == if x in path then mark else before[x].mark
  }

  lemma MarksUnderWalk(before: Derinet, d: Derinet, path: seq<Text>, mark: nat, x: Text)
    requires Walking(before, d, path, mark) && x in d
    ensures d[x].mark == if x in path then mark else before[x].mark
  {
  }

  lemma WalkBegins(before: Derinet, start: Text, mark: nat)
    requires start in before
    ensures Walking(before, before[start := before[start].(mark := mark)], [start], mark)
  {
  }

  lemma WalkOn(before: Derinet, d: Derinet, path: seq<Text>, mark: nat, node: Text)
    requires Walking(before, d, path, mark) && node in d && d[path[|path| - 1]].parent == node
    ensures Walking(before, d[node := d[node].(mark := mark)], path + [node], mark)
  {
  }

  /** A walk that meets itself has found a cycle. */
  lemma WalkMeetsItself(before: Derinet, d: Derinet, path: seq<Text>, mark: nat, node: Text)
    requires Walking(before, d, path, mark) && node in path && d[path[|path| - 1]].parent == node
    ensures HasCycle(before)
  {
    var i :| 0 <= i < |path| && path[i] == node;
    var last := |path| - 1;
    PathUp(d, path, i, last);
    assert Up(d, node, last - i + 1) == node;
    UpSame(before, d, node, last - i + 1);
    assert OnCycle(before, node);
  }

  lemma EndsSame(d: Derinet, e: Derinet, x: Text)
    requires SameParents(d, e) && Ends(d, x)
    ensures Ends(e, x)
  {
    var n: nat :| Up(d, x, n) == [];
    UpSame(d, e, x, n);
  }

  /** A walk that stops above a root or at a lemma whose chain ends leaves only such lemmas marked. */
  lemma WalkEnds(before: Derinet, d: Derinet, path: seq<Text>, mark: nat)
    requires Walking(before, d, path, mark) && MarkedEnd(before) && mark > 0
    requires Ends(before, d[path[|path| - 1]].parent)
    ensures MarkedEnd(d)
  {
    hide Ends, Up;
    EndsSame(before, d, d[path[|path| - 1]].parent);
    forall x | x in d && d[x].mark != 0
      ensures Ends(d, x)
    {
      if x in path {
        var i :| 0 <= i < |path| && path[i] == x;
        PathEnds(d, path, i);
      } else {
        EndsSame(before, d, x);
      }
    }
  }

  /** Follows the parents of one lemma, marking them, until a root or a marked lemma. */
  method Walk(before: Derinet, start: Text, mark: nat) returns (d: Derinet, cycle: bool)
    requires Closed(before) && start in before && mark > 0 && forall x <- before :: before[x].mark < mark
    ensures SameParents(before, d) && (forall x <- d :: d[x].mark <= mark && d[x].mark >= before[x].mark)
    ensures d[start].mark == mark
    ensures cycle ==> HasCycle(before)
    ensures !cycle && MarkedEnd(before) ==> MarkedEnd(d)
  {
    hide Ends, Up, HasCycle, MarkedEnd, Path, Walking;
    d, cycle := before[start := before[start].(mark := mark)], false;
    ghost var path := [start];
    WalkBegins(before, start, mark);
    var node := start;
    while d[node].parent != []
      invariant Walking(before, d, path, mark) && path != [] && path[|path| - 1] == node && start in path
      invariant node in d && SameParents(before, d)
      decreases Unmarked(d)
    {
      ghost var unmarked := Unmarked(d);
      node := d[node].parent;
      MarksUnderWalk(before, d, path, mark, node);
      if d[node].mark != 0 {
        if d[node].mark == mark {
          cycle := true;
          WalkMeetsItself(before, d, path, mark, node);
        } else if MarkedEnd(before) {
          assert Ends(before, node) by { assert MarkedEnd(before); MarkedEnds(before, node); }
          WalkEnds(before, d, path, mark);
        }
        WalkMarks(before, d, path, mark, start);
        return;
      }
      WalkOn(before, d, path, mark, node);
      d := d[node := d[node].(mark := mark)];
      path := path + [node];
      assert Unmarked(d) == unmarked - {node} && node in unmarked;
    }
    WalkFacts(before, d, path, mark);
    if MarkedEnd(before) {
      EmptyEnds(before);
      WalkEnds(before, d, path, mark);
    }
    WalkMarks(before, d, path, mark, start);
  }

  lemma EmptyEnds(d: Derinet)
    ensures Ends(d, [])
  {
    assert Up(d, [], 0) == [];
  }

  lemma MarkedEnds(d: Derinet, x: Text)
    requires MarkedEnd(d) && x in d && d[x].mark != 0
    ensures Ends(d, x)
  {
  }

  lemma WalkFacts(before: Derinet, d: Derinet, path: seq<Text>, mark: nat)
    requires Walking(before, d, path, mark)
    ensures SameParents(before, d) && path != [] && forall i :: 0 <= i < |path| ==> path[i] in d
  {
  }

  lemma WalkMarks(before: Derinet, d: Derinet, path: seq<Text>, mark: nat, start: Text)
    requires Walking(before, d, path, mark) && start in path && forall x <- before :: before[x].mark < mark
    ensures SameParents(before, d) && start in d && d[start].mark == mark
    ensures forall x <- d :: d[x].mark <= mark && d[x].mark >= before[x].mark
  {
    assert start in d;
  }

  /** The walks together report a cycle iff there is one, although a walk overwrites the mark of the lemma
      it starts from and stops at any marked lemma. */
  method ContainsCycle(before: Derinet) returns (contains: bool)
    requires Closed(before) && forall x <- before :: before[x].mark == 0
    ensures contains <==> HasCycle(before)
    ensures !contains ==> forall x <- before :: Ends(before, x)
  {
    hide Ends, Up, HasCycle, MarkedEnd;
    var d, mark, remaining := before, 0, before.Keys;
    contains := false;
    NothingMarked(before);
    while remaining != {}
      invariant remaining <= before.Keys && SameParents(before, d)
      invariant forall x <- d :: d[x].mark <= mark && (x !in remaining ==> d[x].mark > 0)
      invariant contains ==> HasCycle(before)
      invariant !contains ==> MarkedEnd(d)
      decreases |remaining|
    {
      var x :| x in remaining;
      mark := mark + 1;
      ghost var previous := d;
      var found;
      d, found := Walk(d, x, mark);
      if found {
        CycleSame(previous, before);
        contains := true;
      }
      remaining := remaining - {x};
    }
    if !contains {
      AllEnd(before, d);
    }
  }

  lemma NothingMarked(d: Derinet)
    requires forall x <- d :: d[x].mark == 0
    ensures MarkedEnd(d)
  {
  }

  lemma CycleSame(d: Derinet, e: Derinet)
    requires SameParents(d, e) && HasCycle(d)
    ensures HasCycle(e)
  {
    hide Up;
    var x :| OnCycle(d, x);
    var n: nat :| n > 0 && Up(d, x, n) == x;
    UpSame(d, e, x, n);
    assert OnCycle(e, x);
  }

  /** When every lemma is marked and every marked chain ends, there is no cycle. */
  lemma AllEnd(before: Derinet, d: Derinet)
    requires SameParents(before, d) && MarkedEnd(d) && [] !in before && forall x <- d :: d[x].mark > 0
    ensures !HasCycle(before) && forall x <- before :: Ends(before, x)
  {
    hide Ends, OnCycle;
    forall x | x in before
      ensures Ends(before, x) && !OnCycle(before, x)
    {
      EndsSame(d, before, x);
      EndsNotOnCycle(before, x);
    }
    forall x
      ensures !OnCycle(before, x)
    {
      if x !in before { NotOnCycle(before, x); }
    }
  }

  lemma NotOnCycle(d: Derinet, x: Text)
    requires x !in d
    ensures !OnCycle(d, x)
  {
  }
}
