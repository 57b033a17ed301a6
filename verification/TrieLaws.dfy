/** Which prefix is chosen for a class, said of the forms themselves (src/morpho/morpho_dictionary_encoder.h). */
module TrieLaws {
  import opened Bytes
  import opened Trie

  // ----- Depths

  /** A node is deeper than its children. */
  predicate DepthOk(t: Trie)
    decreases t
  {
    forall i ::
      0 <= i < |t.children| ==> t.children[i].node.depth + 1 <= t.depth && DepthOk(t.children[i].node)
  }

  lemma {:induction false} AddDepthOk(t: Trie, text: Text)
    requires DepthOk(t)
    ensures DepthOk(Add(t, text)) && Add(t, text).depth == Max(t.depth, |text|)
    decreases |text|
  {
    if text != [] {
      var i := Find(t.children, text[0]);
      AddDepthOk(if i < |t.children| then t.children[i].node else EMPTY, text[1..]);
    }
  }

  /** Adding a text changes the depths of the nodes on its way only. */
  lemma {:induction false} AddDepths(t: Trie, text: Text, path: Text)
    requires DepthOk(t) && At(Add(t, text), path).Some?
    ensures At(Add(t, text), path).value.depth
         == Max(if At(t, path).Some? then At(t, path).value.depth else 0, if path <= text then |text| - |path| else 0)
    decreases |text|
  {
    AddDepthOk(t, text);
    if path != [] && text != [] {
      AddFind(t, text, path[0]);
      if path[0] == text[0] {
        var i := Find(t.children, text[0]);
        AddDepths(if i < |t.children| then t.children[i].node else EMPTY, text[1..], path[1..]);
        PrefixTail(path, text);
        if i == |t.children| { EmptyPaths(path[1..]); }
      }
    }
  }

  /** The depth of a node is how far the longest form below it continues. */
  lemma {:induction false} AllDepths(forms: seq<Text>, path: Text)
    requires At(AddAll(forms), path).Some?
    ensures DepthOk(AddAll(forms))
    ensures var d := At(AddAll(forms), path).value.depth;
      d == 0 || exists f <- forms :: path <= f && d == |f| - |path|
  {
    hide Add, At, DepthOk;
    if forms == [] {
      NothingDeep(path);
    } else {
      var front, last := forms[..|forms| - 1], forms[|forms| - 1];
      assert forms == front + [last];
      AllDepthOk(front);
      AddDepthOk(AddAll(front), last);
      AddDepths(AddAll(front), last, path);
      if At(AddAll(front), path).Some? { AllDepths(front, path); }
    }
  }

  lemma {:induction false} AllDepthOk(forms: seq<Text>)
    ensures DepthOk(AddAll(forms))
  {
    hide Add;
    if forms != [] {
      AllDepthOk(forms[..|forms| - 1]);
      AddDepthOk(AddAll(forms[..|forms| - 1]), forms[|forms| - 1]);
    }
  }

  lemma NothingDeep(path: Text)
    requires At(EMPTY, path).Some?
    ensures At(EMPTY, path).value.depth == 0 && DepthOk(EMPTY)
  {
  }

  // ----- Branching

  lemma {:induction false} WellFormedAt(t: Trie, path: Text)
    requires WellFormed(t) && At(t, path).Some?
    ensures WellFormed(At(t, path).value)
    decreases |path|
  {
    if path != [] { WellFormedAt(t.children[Find(t.children, path[0])].node, path[1..]); }
  }

  lemma {:induction false} AtAppend(t: Trie, path: Text, x: Byte)
    ensures At(t, path + [x]).Some? <==>
      At(t, path).Some? && Find(At(t, path).value.children, x) < |At(t, path).value.children|
    decreases |path|
  {
    if path == [] {
      assert [] + [x] == [x] && [x][1..] == [];
    } else {
      assert (path + [x])[1..] == path[1..] + [x];
      var i := Find(t.children, path[0]);
      if i < |t.children| { AtAppend(t.children[i].node, path[1..], x); }
    }
  }

  /** A node has at most one child exactly if all forms that go on below it go on with the same byte. */
  lemma SingleMeans(forms: seq<Text>, path: Text)
    requires At(AddAll(forms), path).Some?
    ensures |At(AddAll(forms), path).value.children| <= 1 <==>
      forall f, g :: f in forms && g in forms && path < f && path < g ==> f[|path|] == g[|path|]
  {
    hide At, AddAll, Find, WellFormed;
    var children := At(AddAll(forms), path).value.children;
    forall f | f in forms && path < f
      ensures exists i :: 0 <= i < |children| && children[i].letter == f[|path|]
    {
      AddAllPaths(forms, path + [f[|path|]]);
      assert path + [f[|path|]] <= f;
      AtAppend(AddAll(forms), path, f[|path|]);
      FindIs(children, f[|path|]);
    }
    if |children| > 1 {
      var f := FormThrough(forms, path, 0);
      var g := FormThrough(forms, path, 1);
      LettersDiffer(forms, path);
    }
  }

  lemma FormThrough(forms: seq<Text>, path: Text, i: nat) returns (f: Text)
    requires At(AddAll(forms), path).Some? && i < |At(AddAll(forms), path).value.children|
    ensures f in forms && path < f && f[|path|] == At(AddAll(forms), path).value.children[i].letter
  {
    hide At, AddAll;
    var children := At(AddAll(forms), path).value.children;
    var x := children[i].letter;
    AtAppend(AddAll(forms), path, x);
    AddAllPaths(forms, path + [x]);
    f :| f in forms && path + [x] <= f;
    assert f[|path|] == (path + [x])[|path|] && path == (path + [x])[..|path|] == f[..|path|];
  }

  lemma LettersDiffer(forms: seq<Text>, path: Text)
    requires At(AddAll(forms), path).Some? && |At(AddAll(forms), path).value.children| > 1
    ensures var children := At(AddAll(forms), path).value.children; children[0].letter != children[1].letter
  {
    AddAllWellFormed(forms);
    WellFormedAt(AddAll(forms), path);
    var children := At(AddAll(forms), path).value.children;
    assert Find(children, children[1].letter) == 1;
  }

  // ----- Chains

  /** How long the chain without branching is that ends at a path, when it has the length `before` at the top. */
  function Chain(t: Trie, path: Text, before: nat): nat
    decreases |path|
  {
    if path == [] then before
    else
      var i := Find(t.children, path[0]);
      if i < |t.children|
        then Chain(t.children[i].node, path[1..], if |t.children| == 1 then before + 1 else 1)
        else 0
  }

  predicate Single(t: Trie, path: Text) {
    At(t, path).Some? && |At(t, path).value.children| == 1
  }

  /** The last nodes before a path, from `from` on, have one child each. */
  ghost predicate SingleFrom(t: Trie, path: Text, from: int) {
    forall j :: 0 <= j < |path| && j >= from ==> Single(t, path[..j])
  }

  lemma SingleBelow(t: Trie, path: Text, from: int)
    requires path != [] && At(t, path).Some?
    ensures var c := t.children[Find(t.children, path[0])].node;
      && At(c, path[1..]).Some?
      && (SingleFrom(t, path, from) <==> SingleFrom(c, path[1..], from - 1) && (from <= 0 ==> |t.children| == 1))
  {
    hide Find;
    var c := t.children[Find(t.children, path[0])].node;
    forall j | 0 < j < |path|
      ensures Single(t, path[..j]) <==> Single(c, path[1..][..j - 1])
    {
      assert path[..j] != [] && path[..j][0] == path[0] && path[..j][1..] == path[1..][..j - 1];
    }
    assert path[..0] == [] && (Single(t, path[..0]) <==> |t.children| == 1);
    if SingleFrom(t, path, from) {
      forall j | 0 <= j < |path[1..]| && j >= from - 1
        ensures Single(c, path[1..][..j])
      {
        assert Single(t, path[..j + 1]);
      }
    }
  }

  lemma {:induction false} ChainMeans(t: Trie, path: Text, before: nat, k: nat)
    requires k >= 1 && At(t, path).Some?
    ensures Chain(t, path, before) >= k <==>
      || (k <= |path| && SingleFrom(t, path, |path| - k + 1))
      || (k <= |path| + before && SingleFrom(t, path, 0))
    decreases |path|
  {
    hide SingleFrom, Single;
    if path == [] {
      NothingSingle(t, path);
    } else {
      SingleBelow(t, path, |path| - k + 1);
      SingleBelow(t, path, 0);
      SingleBelow(t, path, 1);
      var c := t.children[Find(t.children, path[0])].node;
      ChainMeans(c, path[1..], if |t.children| == 1 then before + 1 else 1, k);
      FromLater(c, path[1..], |path| - k);
    }
  }

  lemma NothingSingle(t: Trie, path: Text)
    requires path == []
    ensures SingleFrom(t, path, 0)
  {
  }

  lemma FromLater(t: Trie, path: Text, from: int)
    ensures SingleFrom(t, path, -1) <==> SingleFrom(t, path, 0)
    ensures from >= 0 && SingleFrom(t, path, 0) ==> SingleFrom(t, path, from)
  {
  }

  // ----- The search

  lemma {:induction false} FindCandidateMax(t: Trie, maxSuffixLen: int, current: Text, best: Best, length: nat,
                                            path: Text)
    requires WellFormed(t) && Reaches(t, maxSuffixLen, path)
    ensures FindCandidate(t, maxSuffixLen, current, best, length).length >= Chain(t, path, length)
    decreases t, 1, 0
  {
    hide WellFormed;
    var here := if t.depth < maxSuffixLen && length > best.length then Best(current, length) else best;
    if path == [] {
      FindInChildrenSound(t, |t.children|, maxSuffixLen, current, here, length);
    } else {
      FindInChildrenMax(t, |t.children|, maxSuffixLen, current, here, length, path);
    }
  }

  lemma {:induction false} FindInChildrenMax(t: Trie, n: nat, maxSuffixLen: int, current: Text, best: Best,
                                             length: nat, path: Text)
    requires WellFormed(t) && Reaches(t, maxSuffixLen, path) && path != []
    requires Find(t.children, path[0]) < n <= |t.children|
    ensures FindInChildren(t, n, maxSuffixLen, current, best, length).length >= Chain(t, path, length)
    decreases t, 0, n
  {
    hide Find;
    var before, child := FindInChildren(t, n - 1, maxSuffixLen, current, best, length), t.children[n - 1];
    var childLength := if |t.children| == 1 then length + 1 else 1;
    if Find(t.children, path[0]) < n - 1 {
      FindInChildrenMax(t, n - 1, maxSuffixLen, current, best, length, path);
      FindCandidateSound(child.node, maxSuffixLen, current + [child.letter], before, childLength);
    } else {
      FindCandidateMax(child.node, maxSuffixLen, current + [child.letter], before, childLength, path[1..]);
    }
  }

  /** The result is as good as its chain is long. */
  ghost predicate Earned(t: Trie, maxSuffixLen: int, current: Text, best: Best, length: nat, r: Best) {
    r == best || exists path ::
      Reaches(t, maxSuffixLen, path) && r.prefix == current + path && r.length == Chain(t, path, length)
  }

  lemma {:induction false} FindCandidateEarned(t: Trie, maxSuffixLen: int, current: Text, best: Best, length: nat)
    requires WellFormed(t)
    ensures Earned(t, maxSuffixLen, current, best, length, FindCandidate(t, maxSuffixLen, current, best, length))
    decreases t, 1, 0
  {
    hide WellFormed;
    var here := if t.depth < maxSuffixLen && length > best.length then Best(current, length) else best;
    FindInChildrenEarned(t, |t.children|, maxSuffixLen, current, here, length);
    if here != best {
      assert Reaches(t, maxSuffixLen, []) && current == current + [] && length == Chain(t, [], length);
    }
  }

  lemma {:induction false} FindInChildrenEarned(t: Trie, n: nat, maxSuffixLen: int, current: Text, best: Best,
                                                length: nat)
    requires WellFormed(t) && n <= |t.children|
    ensures Earned(t, maxSuffixLen, current, best, length,
                   FindInChildren(t, n, maxSuffixLen, current, best, length))
    decreases t, 0, n
  {
    hide Find;
    if n > 0 {
      FindInChildrenEarned(t, n - 1, maxSuffixLen, current, best, length);
      var before, child := FindInChildren(t, n - 1, maxSuffixLen, current, best, length), t.children[n - 1];
      var childLength := if |t.children| == 1 then length + 1 else 1;
      FindCandidateEarned(child.node, maxSuffixLen, current + [child.letter], before, childLength);
      var r := FindCandidate(child.node, maxSuffixLen, current + [child.letter], before, childLength);
      if r != before {
        var path :| && Reaches(child.node, maxSuffixLen, path) && r.prefix == current + [child.letter] + path
                    && r.length == Chain(child.node, path, childLength);
        var longer := [child.letter] + path;
        assert longer[1..] == path && r.prefix == current + longer;
        assert Reaches(t, maxSuffixLen, longer) && r.length == Chain(t, longer, length);
      }
    }
  }

  // ----- The candidate

  /** From some length on, all forms that go on below a prefix of `path` go on as it does. */
  ghost predicate Straight(forms: seq<Text>, path: Text, from: int) {
    forall j, f :: 0 <= j < |path| && j >= from && f in forms && path[..j] < f ==> f[j] == path[j]
  }

  /** Single nodes on the way to a prefix of a form, told by the forms. */
  lemma SinglesMean(forms: seq<Text>, path: Text, from: int)
    requires exists f <- forms :: path <= f
    ensures SingleFrom(AddAll(forms), path, from) <==> Straight(forms, path, from)
  {
    hide AddAll, At, Single;
    var h :| h in forms && path <= h;
    forall j | 0 <= j < |path|
      ensures Single(AddAll(forms), path[..j]) <==>
        forall f :: f in forms && path[..j] < f ==> f[j] == path[j]
    {
      OneOnTheWay(forms, path, h, j);
    }
  }

  lemma OneOnTheWay(forms: seq<Text>, path: Text, h: Text, j: nat)
    requires h in forms && path <= h && j < |path|
    ensures Single(AddAll(forms), path[..j]) <==>
      forall f :: f in forms && path[..j] < f ==> f[j] == path[j]
  {
    hide AddAll, At;
    assert path[..j] <= h && path[..j] + [path[j]] <= h;
    AddAllPaths(forms, path[..j]);
    AddAllPaths(forms, path[..j] + [path[j]]);
    AtAppend(AddAll(forms), path[..j], path[j]);
    SingleMeans(forms, path[..j]);
  }

  lemma LongestChain(forms: seq<Text>, maxSuffixLen: int, p: Text, k: nat)
    requires (exists f <- forms :: p <= f) && forall f <- forms :: p <= f ==> |f| - |p| < maxSuffixLen
    requires 1 <= k <= |p| && Straight(forms, p, |p| - k + 1)
    ensures var r := CandidatePrefix(AddAll(forms), maxSuffixLen);
      && k <= |r| && (exists f <- forms :: r <= f) && Straight(forms, r, |r| - k + 1)
      && forall f <- forms :: r <= f ==> |f| - |r| < maxSuffixLen
  {
    hide WellFormed, At, AddAll, SingleFrom, FindCandidate, Chain, Straight, Reaches;
    var t := AddAll(forms);
    var h :| h in forms && p <= h;
    CandidateIsUsable(forms, maxSuffixLen);
    AddAllWellFormed(forms);
    PrefixReaches(forms, maxSuffixLen, p);
    SinglesMean(forms, p, |p| - k + 1);
    ChainMeans(t, p, 0, k);
    FindCandidateMax(t, maxSuffixLen, [], Best([], 0), 0, p);
    ChosenChain(forms, maxSuffixLen);
    var path := CandidatePrefix(t, maxSuffixLen);
    ChainMeans(t, path, 0, k);
    FromLater(t, path, |path| - k + 1);
    SinglesMean(forms, path, |path| - k + 1);
  }

  /** The length that is found is that of the chain of the chosen prefix. */
  lemma ChosenChain(forms: seq<Text>, maxSuffixLen: int)
    ensures var t := AddAll(forms);
      var r := FindCandidate(t, maxSuffixLen, [], Best([], 0), 0);
      r.length > 0 ==>
        && (exists f <- forms :: r.prefix <= f)
        && At(t, r.prefix).Some? && Chain(t, r.prefix, 0) == r.length
  {
    hide WellFormed, At, AddAll, FindCandidate, Reaches;
    var t := AddAll(forms);
    var r := FindCandidate(t, maxSuffixLen, [], Best([], 0), 0);
    AddAllWellFormed(forms);
    FindCandidateEarned(t, maxSuffixLen, [], Best([], 0), 0);
    if r.length > 0 {
      var path :| Reaches(t, maxSuffixLen, path) && r.prefix == [] + path && r.length == Chain(t, path, 0);
      assert r.prefix == path;
      ReachedAt(t, maxSuffixLen, path);
      AddAllPaths(forms, path);
      if path == [] { NoChain(t); }
    }
  }

  lemma NoChain(t: Trie)
    ensures Chain(t, [], 0) == 0
  {
  }

  lemma ReachedAt(t: Trie, maxSuffixLen: int, path: Text)
    requires Reaches(t, maxSuffixLen, path)
    ensures At(t, path).Some?
  {
  }

  lemma PrefixReaches(forms: seq<Text>, maxSuffixLen: int, p: Text)
    requires (exists f <- forms :: p <= f) && forall f <- forms :: p <= f ==> |f| - |p| < maxSuffixLen
    ensures Reaches(AddAll(forms), maxSuffixLen, p) && At(AddAll(forms), p).Some?
  {
    hide At, AddAll, DepthOk;
    AddAllPaths(forms, p);
    AllDepths(forms, p);
  }

  /** The chosen prefix ends the longest chain. Of the prefixes of forms that all forms with them continue by less than
      the limit, take one along whose last `k` bytes the forms do not branch: what starts with all of it but `i` of
      these bytes, for some `0 < i < k`, and goes on, goes on as it does. Then this holds for the last `k` bytes of the
      chosen prefix too; and that is one of these prefixes. */
  lemma CandidateIsLongest(forms: seq<Text>, maxSuffixLen: int, p: Text, k: nat)
    requires (exists f <- forms :: p <= f) && forall f <- forms :: p <= f ==> |f| - |p| < maxSuffixLen
    requires 1 <= k <= |p|
    requires forall j, f :: |p| - k < j < |p| && f in forms && p[..j] < f ==> f[j] == p[j]
    ensures var r := CandidatePrefix(AddAll(forms), maxSuffixLen);
      && (exists f <- forms :: r <= f) && (forall f <- forms :: r <= f ==> |f| - |r| < maxSuffixLen)
      && k <= |r|
      && forall j, f :: |r| - k < j < |r| && f in forms && r[..j] < f ==> f[j] == r[j]
  {
    hide AddAll, CandidatePrefix, Straight;
    StraightWhen(forms, p, k);
    LongestChain(forms, maxSuffixLen, p, k);
    StraightThen(forms, CandidatePrefix(AddAll(forms), maxSuffixLen), k);
  }

  lemma StraightWhen(forms: seq<Text>, p: Text, k: nat)
    requires k <= |p|
    requires forall j, f :: |p| - k < j < |p| && f in forms && p[..j] < f ==> f[j] == p[j]
    ensures Straight(forms, p, |p| - k + 1)
  {
  }

  lemma StraightThen(forms: seq<Text>, r: Text, k: nat)
    requires k <= |r| && Straight(forms, r, |r| - k + 1)
    ensures forall j, f :: |r| - k < j < |r| && f in forms && r[..j] < f ==> f[j] == r[j]
  {
  }
}