/** Printing derivations: the root, the path to the root, or the whole tree
    (src/derivator/derivation_formatter.cpp). No tagset converter is applied. */
module DerivationFormatter {
  import opened Bytes

  type Text = seq<Byte>

  const SPACE: Byte := 32

  /** What a derivator answers: the parent and the children of a lemma. */
  datatype Derivations = Derivations(parent: Text -> Option<Text>, children: Text -> seq<Text>)

  /** Chains of parents and trees of children are finite. */
  ghost predicate Finite(f: Derivations, depth: Text -> nat, height: Text -> nat) {
    && (forall x :: f.parent(x).Some? ==> depth(f.parent(x).value) < depth(x))
    && forall x, c :: c in f.children(x) ==> height(c) < height(x)
  }

  /** Parents and children agree, and no child is listed twice. */
  ghost predicate Agree(f: Derivations) {
    && (forall x, c :: c in f.children(x) <==> f.parent(c) == Some(x))
    && forall x, i, j :: 0 <= i < j < |f.children(x)| ==> f.children(x)[i] != f.children(x)[j]
  }

  /** `r` is the ancestor of `x` that is `n` steps up. */
  predicate Reaches(f: Derivations, x: Text, r: Text, n: nat)
    decreases n
  {
    if n == 0 then x == r else f.parent(x).Some? && Reaches(f, f.parent(x).value, r, n - 1)
  }

  ghost predicate Descends(f: Derivations, x: Text, r: Text) {
    exists n: nat :: Reaches(f, x, r, n)
  }

  lemma {:induction false} ReachesPlus(f: Derivations, x: Text, y: Text, z: Text, m: nat, n: nat)
    requires Reaches(f, x, y, m) && Reaches(f, y, z, n)
    ensures Reaches(f, x, z, m + n)
    decreases m
  {
    if m > 0 { ReachesPlus(f, f.parent(x).value, y, z, m - 1, n); }
  }

  /** The ancestor after `m` of `n` steps lies on the way. */
  lemma {:induction false} ReachesSplit(f: Derivations, x: Text, y: Text, z: Text, m: nat, n: nat)
    requires m <= n && Reaches(f, x, y, m) && Reaches(f, x, z, n)
    ensures Reaches(f, y, z, n - m)
    decreases m
  {
    if m > 0 { ReachesSplit(f, f.parent(x).value, y, z, m - 1, n - 1); }
  }

  lemma {:induction false} ReachesDepth(f: Derivations, depth: Text -> nat, height: Text -> nat, x: Text, r: Text,
                                        n: nat)
    requires Finite(f, depth, height) && Reaches(f, x, r, n)
    ensures depth(r) + n <= depth(x)
    decreases n
  {
    if n > 0 { ReachesDepth(f, depth, height, f.parent(x).value, r, n - 1); }
  }

  /** The ancestors of a lemma, nearest first. */
  ghost function Ancestors(f: Derivations, depth: Text -> nat, height: Text -> nat, x: Text): seq<Text>
    requires Finite(f, depth, height)
    decreases depth(x)
  {
    if f.parent(x).None? then [] else [f.parent(x).value] + Ancestors(f, depth, height, f.parent(x).value)
  }

  /** The ancestors, one by one: each listed text is the parent of the one before, the `k`-th is `k + 1` steps up, and
      the last has no parent. */
  lemma {:induction false} AncestorsMean(f: Derivations, depth: Text -> nat, height: Text -> nat, x: Text)
    requires Finite(f, depth, height)
    ensures var chain := [x] + Ancestors(f, depth, height, x);
      && (forall k :: 0 < k < |chain| ==> f.parent(chain[k - 1]) == Some(chain[k]))
      && f.parent(chain[|chain| - 1]).None?
      && forall k :: 0 <= k < |chain| ==> Reaches(f, x, chain[k], k)
    decreases depth(x)
  {
    if f.parent(x).Some? {
      var p := f.parent(x).value;
      AncestorsMean(f, depth, height, p);
      assert ([x] + Ancestors(f, depth, height, x))[1..] == [p] + Ancestors(f, depth, height, p);
    }
  }

  /** Reaching an ancestor in `n` steps, with all that lie between. */
  lemma ReachesMeans(f: Derivations, x: Text, r: Text, n: nat)
    ensures Reaches(f, x, r, n) <==> exists c: seq<Text> ::
      |c| == n + 1 && c[0] == x && c[n] == r && forall k :: 0 < k <= n ==> f.parent(c[k - 1]) == Some(c[k])
  {
    if Reaches(f, x, r, n) { var _ := ChainUp(f, x, r, n); }
    if c: seq<Text> :|
      |c| == n + 1 && c[0] == x && c[n] == r && forall k :: 0 < k <= n ==> f.parent(c[k - 1]) == Some(c[k])
    {
      ReachesAlong(f, c, n);
    }
  }

  lemma {:induction false} ChainUp(f: Derivations, x: Text, r: Text, n: nat) returns (c: seq<Text>)
    requires Reaches(f, x, r, n)
    ensures |c| == n + 1 && c[0] == x && c[n] == r && forall k :: 0 < k <= n ==> f.parent(c[k - 1]) == Some(c[k])
    decreases n
  {
    c := [x];
    if n > 0 {
      var rest := ChainUp(f, f.parent(x).value, r, n - 1);
      c := [x] + rest;
    }
  }

  lemma {:induction false} ReachesAlong(f: Derivations, c: seq<Text>, n: nat)
    requires |c| == n + 1 && forall k :: 0 < k <= n ==> f.parent(c[k - 1]) == Some(c[k])
    ensures Reaches(f, c[0], c[n], n)
  {
    if n > 0 {
      assert f.parent(c[0]) == Some(c[1]);
      ReachesAlong(f, c[1..], n - 1);
    }
  }

  /** Follows the parents to the root. */
  method FormatRoot(f: Derivations, name: Text, ghost depth: Text -> nat, ghost height: Text -> nat)
    returns (root: Text)
    requires Finite(f, depth, height)
    ensures Descends(f, name, root) && f.parent(root).None?
  {
    root := name;
    ghost var n := 0;
    assert Reaches(f, name, root, 0);
    while f.parent(root).Some?
      invariant Reaches(f, name, root, n)
      decreases depth(root)
    {
      ghost var before := root;
      root := f.parent(root).value;
      assert Reaches(f, before, root, 1) by { assert Reaches(f, root, root, 0); }
      ReachesPlus(f, name, before, root, n, 1);
      n := n + 1;
    }
  }

  /** Texts, each after a space. */
  function Spaced(texts: seq<Text>): Text {
    if texts == [] then [] else [SPACE] + texts[0] + Spaced(texts[1..])
  }

  /** A text more, at the end. */
  lemma {:induction false} SpacedAppend(texts: seq<Text>, t: Text)
    ensures Spaced(texts + [t]) == Spaced(texts) + [32] + t
  {
    if texts != [] {
      SpacedAppend(texts[1..], t);
      assert (texts + [t])[1..] == texts[1..] + [t];
    }
  }

  /** The lemma and its ancestors, from parent to parent up to the root. */
  method FormatPath(f: Derivations, name: Text, ghost depth: Text -> nat, ghost height: Text -> nat)
    returns (path: Text, ghost chain: seq<Text>)
    requires Finite(f, depth, height)
    ensures chain == [name] + Ancestors(f, depth, height, name)
    ensures path == name + Spaced(chain[1..])
    ensures forall k :: 0 < k < |chain| ==> f.parent(chain[k - 1]) == Some(chain[k])
    ensures f.parent(chain[|chain| - 1]).None?
  {
    chain := [name] + Ancestors(f, depth, height, name);
    assert chain[1..] == Ancestors(f, depth, height, name);
    AncestorsMean(f, depth, height, name);
    path := name;
    var current := name;
    while f.parent(current).Some?
      invariant path + Spaced(Ancestors(f, depth, height, current)) == name + Spaced(Ancestors(f, depth, height, name))
      decreases depth(current)
    {
      var parent := f.parent(current).value;
      assert Ancestors(f, depth, height, current)[1..] == Ancestors(f, depth, height, parent);
      path := path + [SPACE] + parent;
      current := parent;
    }
  }

  // ----- Trees

  datatype Tree = Tree(name: Text, children: seq<Tree>)

  /** The tree of all descendants. */
  ghost function TreeOf(f: Derivations, depth: Text -> nat, height: Text -> nat, x: Text): Tree
    requires Finite(f, depth, height)
    decreases height(x)
  {
    Tree(x, seq(|f.children(x)|, i requires 0 <= i < |f.children(x)| =>
      assert f.children(x)[i] in f.children(x);
      TreeOf(f, depth, height, f.children(x)[i])))
  }

  /** The tree of a text: its name, and the trees of the children that are answered, in that order. */
  lemma TreeMeans(f: Derivations, depth: Text -> nat, height: Text -> nat, x: Text)
    requires Finite(f, depth, height)
    ensures var t := TreeOf(f, depth, height, x);
      && t.name == x && |t.children| == |f.children(x)|
      && forall i :: 0 <= i < |t.children| ==>
           t.children[i].name == f.children(x)[i] && t.children[i] == TreeOf(f, depth, height, f.children(x)[i])
  {
    forall i | 0 <= i < |f.children(x)|
      ensures TreeOf(f, depth, height, f.children(x)[i]).name == f.children(x)[i]
    {
    }
  }

  function Print(t: Tree): Text
    decreases t, 0
  {
    [SPACE] + t.name + PrintAll(t.children) + [SPACE]
  }

  function PrintAll(ts: seq<Tree>): Text
    decreases ts, 1
  {
    if ts == [] then [] else Print(ts[0]) + PrintAll(ts[1..])
  }

  lemma {:induction false} PrintAllAppend(ts: seq<Tree>, t: Tree)
    ensures PrintAll(ts + [t]) == PrintAll(ts) + Print(t)
  {
    hide Print;
    if ts == [] {
      assert [] + [t] == [t] && [t][1..] == [];
    } else {
      PrintAllAppend(ts[1..], t);
      assert (ts + [t])[1..] == ts[1..] + [t];
    }
  }

  /** Appends the tree below a lemma to the output. */
  method FormatTree(f: Derivations, root: Text, before: Text, ghost depth: Text -> nat, ghost height: Text -> nat)
    returns (tree: Text)
    requires Finite(f, depth, height)
    ensures tree == before + Print(TreeOf(f, depth, height, root))
    decreases height(root)
  {
    hide Print;
    tree := before + [SPACE] + root;
    ghost var start := tree;
    var children := f.children(root);
    ghost var trees := TreeOf(f, depth, height, root).children;
    assert trees[..0] == [] && start + PrintAll([]) == start;
    for i := 0 to |children|
      invariant tree == start + PrintAll(trees[..i])
    {
      assert children[i] in f.children(root);
      tree := FormatTree(f, children[i], tree, depth, height);
      assert trees[..i + 1] == trees[..i] + [trees[i]];
      PrintAllAppend(trees[..i], trees[i]);
    }
    assert trees[..|children|] == trees;
    PrintIs(TreeOf(f, depth, height, root));
    tree := tree + [SPACE];
  }

  lemma PrintIs(t: Tree)
    ensures Print(t) == [SPACE] + t.name + PrintAll(t.children) + [SPACE]
  {
  }

  /** A printed tree: a space, the name, the children, and a space. */
  lemma PrintExample()
    ensures Print(Tree([97], [Tree([98], []), Tree([99], [])])) == [32, 97, 32, 98, 32, 32, 99, 32, 32]
  {
    var b, c := Tree([98], []), Tree([99], []);
    assert Print(b) == [32, 98, 32] && Print(c) == [32, 99, 32];
    assert [b, c][1..] == [c] && [c][1..] == [];
    assert PrintAll([c]) == [32, 99, 32];
    assert PrintAll([b, c]) == [32, 98, 32, 32, 99, 32];
  }

  /** The lemma followed by the tree of its root. */
  method FormatWholeTree(f: Derivations, name: Text, ghost depth: Text -> nat, ghost height: Text -> nat)
    returns (result: Text, ghost root: Text)
    requires Finite(f, depth, height)
    ensures Descends(f, name, root) && f.parent(root).None?
    ensures result == name + Print(TreeOf(f, depth, height, root))
  {
    var r := FormatRoot(f, name, depth, height);
    root := r;
    result := FormatTree(f, r, name, depth, height);
  }

  // ----- The printed tree can be read back

  ghost predicate Clean(name: Text) {
    name != [] && SPACE !in name
  }

  ghost predicate AllClean(t: Tree) {
    Clean(t.name) && forall c <- t.children :: AllClean(c)
  }

  /** What may follow a printed tree. */
  predicate EndOrSpace(s: Text) {
    s == [] || s[0] == SPACE
  }

  /** Two names followed by a space are equal if the texts are. */
  lemma NamesEqual(a: Text, x: Text, b: Text, y: Text)
    requires SPACE !in a && SPACE !in b && x != [] && y != [] && x[0] == y[0] == SPACE && a + x == b + y
    ensures a == b && x == y
  {
    var s := a + x;
    assert forall k :: 0 <= k < |a| ==> s[k] == a[k] && a[k] in a;
    assert forall k :: 0 <= k < |b| ==> s[k] == (b + y)[k] == b[k] && b[k] in b;
    assert s[|a|] == SPACE && s[|b|] == (b + y)[|b|] == SPACE;
    assert |a| == |b|;
    assert a == s[..|a|] && b == (b + y)[..|b|] && x == s[|a|..] && y == (b + y)[|b|..];
  }

  /** A printed tree determines the tree, whatever follows. */
  lemma {:induction false} PrintInjective(t: Tree, u: Tree, a: Text, b: Text)
    requires AllClean(t) && AllClean(u) && EndOrSpace(a) && EndOrSpace(b) && Print(t) + a == Print(u) + b
    ensures t == u && a == b
    decreases t, 0
  {
    hide PrintAll;
    var x, y := PrintAll(t.children) + ([SPACE] + a), PrintAll(u.children) + ([SPACE] + b);
    assert Print(t) + a == [SPACE] + (t.name + x) && Print(u) + b == [SPACE] + (u.name + y);
    assert t.name + x == ([SPACE] + (t.name + x))[1..] && u.name + y == ([SPACE] + (u.name + y))[1..];
    AllStartsWithSpace(t.children, a);
    AllStartsWithSpace(u.children, b);
    NamesEqual(t.name, x, u.name, y);
    PrintAllInjective(t.children, u.children, a, b);
  }

  lemma AllStartsWithSpace(ts: seq<Tree>, a: Text)
    ensures var x := PrintAll(ts) + ([SPACE] + a); x != [] && x[0] == SPACE
  {
    if ts != [] { assert Print(ts[0])[0] == SPACE; }
  }

  lemma {:induction false} PrintAllInjective(ts: seq<Tree>, us: seq<Tree>, a: Text, b: Text)
    requires (forall c <- ts :: AllClean(c)) && (forall c <- us :: AllClean(c)) && EndOrSpace(a) && EndOrSpace(b)
    requires PrintAll(ts) + ([SPACE] + a) == PrintAll(us) + ([SPACE] + b)
    ensures ts == us && a == b
    decreases ts, 1
  {
    hide Print;
    ListStart(ts, a);
    ListStart(us, b);
    if ts == [] {
      assert a == ([SPACE] + a)[1..] && b == ([SPACE] + b)[1..];
      assert PrintAll(ts) + ([SPACE] + a) == [SPACE] + a && PrintAll(us) + ([SPACE] + b) == [SPACE] + b;
    } else {
      var x, y := PrintAll(ts[1..]) + ([SPACE] + a), PrintAll(us[1..]) + ([SPACE] + b);
      assert Print(ts[0]) + x == PrintAll(ts) + ([SPACE] + a) && Print(us[0]) + y == PrintAll(us) + ([SPACE] + b);
      AllStartsWithSpace(ts[1..], a);
      AllStartsWithSpace(us[1..], b);
      PrintInjective(ts[0], us[0], x, y);
      PrintAllInjective(ts[1..], us[1..], a, b);
      assert ts == [ts[0]] + ts[1..] && us == [us[0]] + us[1..];
    }
  }

  /** Whether there is another child can be told from the second byte. */
  lemma ListStart(ts: seq<Tree>, a: Text)
    requires (forall c <- ts :: AllClean(c)) && EndOrSpace(a)
    ensures var x := PrintAll(ts) + ([SPACE] + a); ts != [] <==> |x| >= 2 && x[1] != SPACE
  {
    hide Print;
    if ts == [] {
      assert PrintAll(ts) + ([SPACE] + a) == [SPACE] + a;
    } else {
      SecondIsName(ts[0], PrintAll(ts[1..]) + ([SPACE] + a));
      assert PrintAll(ts) + ([SPACE] + a) == Print(ts[0]) + (PrintAll(ts[1..]) + ([SPACE] + a));
    }
  }

  lemma SecondIsName(t: Tree, rest: Text)
    requires AllClean(t)
    ensures |Print(t) + rest| >= 2 && (Print(t) + rest)[1] != SPACE
  {
    assert Print(t)[1] == t.name[0] && t.name[0] in t.name;
  }

  /** The whole output determines the lemma and the tree. */
  lemma OutputInjective(a: Text, t: Tree, b: Text, u: Tree)
    requires Clean(a) && Clean(b) && AllClean(t) && AllClean(u) && a + Print(t) == b + Print(u)
    ensures a == b && t == u
  {
    assert Print(t)[0] == SPACE && Print(u)[0] == SPACE;
    NamesEqual(a, Print(t), b, Print(u));
    assert Print(t) + [] == Print(t) && Print(u) + [] == Print(u);
    PrintInjective(t, u, [], []);
  }

  // ----- The words of the printed tree

  /** The names of a tree, each before its children. */
  function Preorder(t: Tree): seq<Text>
    decreases t, 0
  {
    [t.name] + PreorderAll(t.children)
  }

  function PreorderAll(ts: seq<Tree>): seq<Text>
    decreases ts, 1
  {
    if ts == [] then [] else Preorder(ts[0]) + PreorderAll(ts[1..])
  }

  /** The maximal runs without spaces. */
  function Words(s: Text): seq<Text> {
    if s == [] then []
    else if s[0] == SPACE then Words(s[1..])
    else
      var n := RunLength(s);
      [s[..n]] + Words(s[n..])
  }

  function RunLength(s: Text): (n: nat)
    ensures n <= |s| && SPACE !in s[..n] && (n < |s| ==> s[n] == SPACE)
    ensures s != [] && s[0] != SPACE ==> n > 0
  {
    if s == [] || s[0] == SPACE then 0
    else
      var n := RunLength(s[1..]);
      assert s[..1 + n] == [s[0]] + s[1..][..n];
      1 + n
  }

  lemma WordsOfName(name: Text, rest: Text)
    requires Clean(name) && EndOrSpace(rest)
    ensures Words(name + rest) == [name] + Words(rest)
  {
    var s := name + rest;
    var n := RunLength(s);
    assert forall k :: 0 <= k < |name| ==> s[k] == name[k] && name[k] in name;
    assert forall k :: 0 <= k < n ==> s[..n][k] == s[k] && s[..n][k] in s[..n];
    assert |name| < |s| ==> s[|name|] == rest[0];
    assert n == |name|;
    assert s[..n] == name && s[n..] == rest;
  }

  lemma WordsOfSpace(rest: Text)
    ensures Words([SPACE] + rest) == Words(rest)
  {
    assert ([SPACE] + rest)[1..] == rest;
  }

  /** The words of a printed tree are its lemmas in preorder. */
  lemma {:induction false} WordsOfTree(t: Tree, rest: Text)
    requires AllClean(t) && EndOrSpace(rest)
    ensures Words(Print(t) + rest) == Preorder(t) + Words(rest)
    decreases t, 0
  {
    hide Words, PrintAll, PreorderAll;
    var after := [SPACE] + rest;
    var x := PrintAll(t.children) + after;
    assert Print(t) + rest == [SPACE] + (t.name + x);
    AllStartsWithSpace(t.children, rest);
    WordsOfSpace(t.name + x);
    WordsOfName(t.name, x);
    WordsOfTrees(t.children, after);
    WordsOfSpace(rest);
  }

  lemma {:induction false} WordsOfTrees(ts: seq<Tree>, rest: Text)
    requires (forall c <- ts :: AllClean(c)) && EndOrSpace(rest)
    ensures Words(PrintAll(ts) + rest) == PreorderAll(ts) + Words(rest)
    decreases ts, 1
  {
    hide Words, Print, Preorder;
    if ts == [] {
      assert PrintAll(ts) + rest == rest;
    } else {
      var x := PrintAll(ts[1..]) + rest;
      assert PrintAll(ts) + rest == Print(ts[0]) + x;
      assert EndOrSpace(x) by { TreesStartWithSpace(ts[1..], rest); }
      WordsOfTree(ts[0], x);
      WordsOfTrees(ts[1..], rest);
    }
  }

  lemma TreesStartWithSpace(ts: seq<Tree>, rest: Text)
    requires EndOrSpace(rest)
    ensures EndOrSpace(PrintAll(ts) + rest)
  {
    if ts != [] { assert Print(ts[0])[0] == SPACE; }
  }

  // ----- Every lemma of the tree is printed exactly once

  function Names(t: Tree): set<Text>
    decreases t, 0
  {
    {t.name} + NamesAll(t.children)
  }

  function NamesAll(ts: seq<Tree>): set<Text>
    decreases ts, 1
  {
    if ts == [] then {} else Names(ts[0]) + NamesAll(ts[1..])
  }

  ghost predicate Distinct(names: seq<Text>) {
    forall i, j :: 0 <= i < j < |names| ==> names[i] != names[j]
  }

  lemma {:induction false} PreorderNames(t: Tree, x: Text)
    ensures x in Preorder(t) <==> x in Names(t)
    decreases t, 0
  {
    hide PreorderAll, NamesAll;
    PreorderAllNames(t.children, x);
  }

  lemma {:induction false} PreorderAllNames(ts: seq<Tree>, x: Text)
    ensures x in PreorderAll(ts) <==> x in NamesAll(ts)
    decreases ts, 1
  {
    hide Preorder, Names;
    if ts != [] {
      PreorderNames(ts[0], x);
      PreorderAllNames(ts[1..], x);
    }
  }

  lemma {:induction false} InNamesAll(ts: seq<Tree>, x: Text)
    ensures x in NamesAll(ts) <==> exists i :: 0 <= i < |ts| && x in Names(ts[i])
  {
    hide Names;
    if ts != [] {
      InNamesAll(ts[1..], x);
      if i :| 0 <= i < |ts[1..]| && x in Names(ts[1..][i]) {
        assert x in Names(ts[i + 1]);
      }
      if i :| 0 <= i < |ts| && x in Names(ts[i]) {
        if i > 0 { assert x in Names(ts[1..][i - 1]); }
      }
    }
  }

  /** The tree of a lemma holds its descendants and nothing else. */
  lemma {:induction false} TreeHoldsDescendants(f: Derivations, depth: Text -> nat, height: Text -> nat, r: Text,
                                                x: Text)
    requires Finite(f, depth, height) && Agree(f)
    ensures x in Names(TreeOf(f, depth, height, r)) <==> Descends(f, x, r)
    decreases height(r)
  {
    hide Reaches, NamesAll;
    var t := TreeOf(f, depth, height, r);
    InNamesAll(t.children, x);
    forall i | 0 <= i < |t.children|
      ensures x in Names(t.children[i]) <==> Descends(f, x, f.children(r)[i])
    {
      assert f.children(r)[i] in f.children(r);
      TreeHoldsDescendants(f, depth, height, f.children(r)[i], x);
    }
    if i :| 0 <= i < |t.children| && x in Names(t.children[i]) {
      assert f.children(r)[i] in f.children(r);
      StepDown(f, x, f.children(r)[i], r);
    }
    if Descends(f, x, r) && x != r {
      var c := LastStep(f, x, r);
      var i :| 0 <= i < |f.children(r)| && f.children(r)[i] == c;
    }
    assert Descends(f, r, r) by { assert Reaches(f, r, r, 0) by { ReachesSelf(f, r); } }
  }

  lemma ReachesSelf(f: Derivations, r: Text)
    ensures Reaches(f, r, r, 0)
  {
  }

  lemma StepDown(f: Derivations, x: Text, c: Text, r: Text)
    requires Descends(f, x, c) && f.parent(c) == Some(r)
    ensures Descends(f, x, r)
  {
    var n: nat :| Reaches(f, x, c, n);
    assert Reaches(f, c, r, 1) by { ReachesSelf(f, r); }
    ReachesPlus(f, x, c, r, n, 1);
  }

  /** A proper descendant descends from a child. */
  lemma LastStep(f: Derivations, x: Text, r: Text) returns (c: Text)
    requires Agree(f) && Descends(f, x, r) && x != r
    ensures c in f.children(r) && Descends(f, x, c)
  {
    var n: nat :| Reaches(f, x, r, n);
    c := ReachesLast(f, x, r, n);
  }

  lemma {:induction false} ReachesLast(f: Derivations, x: Text, r: Text, n: nat) returns (c: Text)
    requires n > 0 && Reaches(f, x, r, n)
    ensures f.parent(c) == Some(r) && Reaches(f, x, c, n - 1)
    decreases n
  {
    if n == 1 {
      c := x;
    } else {
      c := ReachesLast(f, f.parent(x).value, r, n - 1);
    }
  }

  /** A lemma descends from one child of another lemma only. */
  lemma OneChildOnly(f: Derivations, depth: Text -> nat, height: Text -> nat, r: Text, c: Text, e: Text, x: Text)
    requires Finite(f, depth, height) && f.parent(c) == Some(r) && f.parent(e) == Some(r)
    requires Descends(f, x, c) && Descends(f, x, e)
    ensures c == e
  {
    hide Reaches;
    var m: nat :| Reaches(f, x, c, m);
    var n: nat :| Reaches(f, x, e, n);
    if m <= n { SameSibling(f, depth, height, r, c, e, x, m, n); }
      else { SameSibling(f, depth, height, r, e, c, x, n, m); }
  }

  lemma SameSibling(f: Derivations, depth: Text -> nat, height: Text -> nat, r: Text, c: Text, e: Text, x: Text,
                    m: nat, n: nat)
    requires Finite(f, depth, height) && f.parent(c) == Some(r) && f.parent(e) == Some(r)
    requires m <= n && Reaches(f, x, c, m) && Reaches(f, x, e, n)
    ensures c == e
  {
    ReachesSplit(f, x, c, e, m, n);
    if n > m {
      ReachesDepth(f, depth, height, r, e, n - m - 1);
    }
  }

  /** No lemma occurs twice in the tree. */
  lemma {:induction false} TreeDistinct(f: Derivations, depth: Text -> nat, height: Text -> nat, r: Text)
    requires Finite(f, depth, height) && Agree(f)
    ensures Distinct(Preorder(TreeOf(f, depth, height, r)))
    decreases height(r)
  {
    hide Names, PreorderAll, Descends;
    var t, cs := TreeOf(f, depth, height, r), f.children(r);
    forall i | 0 <= i < |cs|
      ensures Distinct(Preorder(t.children[i]))
    {
      assert cs[i] in cs;
      TreeDistinct(f, depth, height, cs[i]);
    }
    forall i, j, x | 0 <= i < j < |cs| && x in Preorder(t.children[i])
      ensures x !in Preorder(t.children[j])
    {
      assert cs[i] in cs && cs[j] in cs;
      PreorderNames(t.children[i], x);
      PreorderNames(t.children[j], x);
      TreeHoldsDescendants(f, depth, height, cs[i], x);
      TreeHoldsDescendants(f, depth, height, cs[j], x);
      if x in Preorder(t.children[j]) {
        OneChildOnly(f, depth, height, r, cs[i], cs[j], x);
      }
    }
    AllDistinct(t.children);
    if r in PreorderAll(t.children) {
      PreorderAllNames(t.children, r);
      InNamesAll(t.children, r);
      var i :| 0 <= i < |cs| && r in Names(t.children[i]);
      assert cs[i] in cs;
      TreeHoldsDescendants(f, depth, height, cs[i], r);
      NotBelowChild(f, depth, height, r, cs[i]);
    }
  }

  lemma NotBelowChild(f: Derivations, depth: Text -> nat, height: Text -> nat, r: Text, c: Text)
    requires Finite(f, depth, height) && f.parent(c) == Some(r)
    ensures !Descends(f, r, c)
  {
    if Descends(f, r, c) {
      var n: nat :| Reaches(f, r, c, n);
      ReachesDepth(f, depth, height, r, c, n);
      assert false;
    }
  }

  lemma {:induction false} AllDistinct(ts: seq<Tree>)
    requires forall i :: 0 <= i < |ts| ==> Distinct(Preorder(ts[i]))
    requires forall i, j, x :: 0 <= i < j < |ts| && x in Preorder(ts[i]) ==> x !in Preorder(ts[j])
    ensures Distinct(PreorderAll(ts))
  {
    hide Preorder;
    if ts != [] {
      forall i, j, x | 0 <= i < j < |ts[1..]| && x in Preorder(ts[1..][i])
        ensures x !in Preorder(ts[1..][j])
      {
        assert ts[1..][i] == ts[i + 1] && ts[1..][j] == ts[j + 1];
      }
      AllDistinct(ts[1..]);
      forall x | x in Preorder(ts[0])
        ensures x !in PreorderAll(ts[1..])
      {
        InPreorderAll(ts[1..], x);
      }
      DistinctConcat(Preorder(ts[0]), PreorderAll(ts[1..]));
    }
  }

  lemma DistinctConcat(a: seq<Text>, b: seq<Text>)
    requires Distinct(a) && Distinct(b) && forall x :: x in a ==> x !in b
    ensures Distinct(a + b)
  {
    var all := a + b;
    forall i, j | 0 <= i < j < |all|
      ensures all[i] != all[j]
    {
      if i < |a| { assert all[i] in a; }
    }
  }

  lemma {:induction false} InPreorderAll(ts: seq<Tree>, x: Text)
    ensures x in PreorderAll(ts) <==> exists i :: 0 <= i < |ts| && x in Preorder(ts[i])
  {
    hide Preorder;
    if ts != [] {
      InPreorderAll(ts[1..], x);
      if i :| 0 <= i < |ts[1..]| && x in Preorder(ts[1..][i]) {
        assert x in Preorder(ts[i + 1]);
      }
      if i :| 0 <= i < |ts| && x in Preorder(ts[i]) {
        if i > 0 { assert x in Preorder(ts[1..][i - 1]); }
      }
    }
  }

  /** The printed tree consists of the descendants of the root, each exactly once, every one before its own
      descendants. */
  lemma PrintedOnce(f: Derivations, depth: Text -> nat, height: Text -> nat, root: Text)
    requires Finite(f, depth, height) && Agree(f) && AllClean(TreeOf(f, depth, height, root))
    ensures var words := Words(Print(TreeOf(f, depth, height, root)));
      words == Preorder(TreeOf(f, depth, height, root)) && Distinct(words)
        && forall x :: x in words <==> Descends(f, x, root)
  {
    hide Words, Print, Descends;
    var t := TreeOf(f, depth, height, root);
    WordsOfTree(t, []);
    assert Print(t) + [] == Print(t) && Words([]) == [] by { NoWords(); }
    assert Preorder(t) + [] == Preorder(t);
    TreeDistinct(f, depth, height, root);
    forall x
      ensures x in Preorder(t) <==> Descends(f, x, root)
    {
      PreorderNames(t, x);
      TreeHoldsDescendants(f, depth, height, root, x);
    }
  }

  lemma NoWords()
    ensures Words([]) == []
  {
  }
}
