/** The trie that chooses which forms of a lemma make up a class (src/morpho/morpho_dictionary_encoder.h).
    Every node is owned by its parent alone, so tries are values here. */
module Trie {
  import opened Bytes

  type Text = seq<Byte>

  datatype Trie = Trie(children: seq<Child>, depth: nat)
  datatype Child = Child(letter: Byte, node: Trie)

  const EMPTY := Trie([], 0)

  function Max(a: nat, b: nat): nat { if a < b then b else a }

  /** Position of the first child with a letter, or the number of children. */
  function Find(children: seq<Child>, letter: Byte): (i: nat)
    ensures i <= |children|
    ensures i < |children| ==> children[i].letter == letter
    ensures forall j :: 0 <= j < i ==> children[j].letter != letter
  {
    if children == [] then 0
    else if children[0].letter == letter then 0
    else
      var rest := Find(children[1..], letter);
      assert forall j :: 0 < j < |children| ==> children[j] == children[1..][j - 1];
      1 + rest
  }

  function Add(t: Trie, text: Text): Trie
    decreases |text|
  {
    if text == [] then t
    else
      var i := Find(t.children, text[0]);
      var child := Add(if i < |t.children| then t.children[i].node else EMPTY, text[1..]);
      var children := if i < |t.children| then t.children[i := Child(text[0], child)]
        else t.children + [Child(text[0], child)];
      Trie(children, Max(t.depth, 1 + child.depth))
  }

  function AddAll(forms: seq<Text>): Trie {
    if forms == [] then EMPTY else Add(AddAll(forms[..|forms| - 1]), forms[|forms| - 1])
  }

  /** The node reached by a path of letters. */
  function At(t: Trie, path: Text): Option<Trie>
    decreases |path|
  {
    if path == [] then Some(t)
    else
      var i := Find(t.children, path[0]);
      if i < |t.children| then At(t.children[i].node, path[1..]) else None
  }

  /** Adding a text adds exactly the paths to its prefixes, and keeps depths large enough. */
  lemma {:induction false} AddPaths(t: Trie, text: Text, path: Text)
    ensures At(Add(t, text), path).Some? <==> At(t, path).Some? || path <= text
    ensures At(t, path).Some? ==> At(Add(t, text), path).value.depth >= At(t, path).value.depth
    ensures path <= text ==> At(Add(t, text), path).value.depth >= |text| - |path|
    decreases |text|
  {
    if text != [] {
      var i := Find(t.children, text[0]);
      var child := if i < |t.children| then t.children[i].node else EMPTY;
      AddDepth(t, text);
      if path != [] {
        AddFind(t, text, path[0]);
        if path[0] == text[0] {
          AddPaths(child, text[1..], path[1..]);
          PrefixTail(path, text);
          if i == |t.children| { EmptyPaths(path[1..]); }
        }
      }
    }
  }

  lemma PrefixTail(path: Text, text: Text)
    requires path != [] && text != [] && path[0] == text[0]
    ensures path <= text <==> path[1..] <= text[1..]
  {
    assert path == [path[0]] + path[1..] && text == [text[0]] + text[1..];
    if path[1..] <= text[1..] { assert text[1..] == path[1..] + text[|path|..]; }
  }

  lemma EmptyPaths(path: Text)
    ensures At(EMPTY, path).Some? <==> path == []
    ensures EMPTY.depth == 0
  {
  }

  /** Where a letter is found after a text was added. */
  lemma AddFind(t: Trie, text: Text, letter: Byte)
    requires text != []
    ensures var i, k := Find(t.children, text[0]), Find(Add(t, text).children, letter);
      if letter == text[0] then
        k == i < |Add(t, text).children|
        && Add(t, text).children[k].node == Add(if i < |t.children| then t.children[i].node else EMPTY, text[1..])
      else
        (k < |Add(t, text).children| <==> Find(t.children, letter) < |t.children|)
        && (k < |Add(t, text).children| ==>
          k < |t.children| && k == Find(t.children, letter) && Add(t, text).children[k] == t.children[k])
  {
    hide Find;
    var i, added := Find(t.children, text[0]), Add(t, text);
    FindIs(t.children, text[0]);
    FindIs(t.children, letter);
    if letter == text[0] {
      FindUnique(added.children, letter, i);
    } else {
      var k := Find(t.children, letter);
      FindUnique(added.children, letter, if k < |t.children| then k else |added.children|);
    }
  }

  lemma {:induction false} FindUnique(children: seq<Child>, letter: Byte, i: nat)
    requires i <= |children| && (i < |children| ==> children[i].letter == letter)
    requires forall j :: 0 <= j < i ==> children[j].letter != letter
    ensures Find(children, letter) == i
  {
    if children != [] && children[0].letter != letter {
      FindUnique(children[1..], letter, i - 1);
    }
  }

  lemma FindIs(children: seq<Child>, letter: Byte)
    ensures var i := Find(children, letter);
      i <= |children| && (i < |children| ==> children[i].letter == letter)
        && forall j :: 0 <= j < i ==> children[j].letter != letter
  {
  }

  lemma {:induction false} AddDepth(t: Trie, text: Text)
    ensures Add(t, text).depth >= t.depth && Add(t, text).depth >= |text|
    decreases |text|
  {
    if text != [] {
      var i := Find(t.children, text[0]);
      AddDepth(if i < |t.children| then t.children[i].node else EMPTY, text[1..]);
    }
  }

  /** The trie of the forms has a path for every prefix of a form and no other, and the depth of a node
      bounds what is left of the forms below it. */
  lemma {:induction false} AddAllPaths(forms: seq<Text>, path: Text)
    ensures At(AddAll(forms), path).Some? <==> path == [] || exists f <- forms :: path <= f
    ensures forall f <- forms :: path <= f ==> At(AddAll(forms), path).value.depth >= |f| - |path|
  {
    hide Add, At;
    if forms == [] {
      EmptyPaths(path);
    } else {
      var front, last := forms[..|forms| - 1], forms[|forms| - 1];
      AddAllPaths(front, path);
      AddPaths(AddAll(front), last, path);
      assert forms == front + [last];
      if path <= last {
        assert last in forms;
      } else {
        assert forall f <- forms :: path <= f ==> f in front;
        assert forall f <- front :: f in forms;
      }
    }
  }

  /** Best prefix so far, and the length of its chain. */
  datatype Best = Best(prefix: Text, length: nat)

  /** The search for the prefix of a class: of the nodes that are not too deep, the one that ends the
      longest chain without branching. */
  function FindCandidate(t: Trie, maxSuffixLen: int, current: Text, best: Best, length: nat): Best
    decreases t, 1, 0
  {
    var here := if t.depth < maxSuffixLen && length > best.length then Best(current, length) else best;
    FindInChildren(t, |t.children|, maxSuffixLen, current, here, length)
  }

  /** The same, after the node itself and its first `n` children. */
  function FindInChildren(t: Trie, n: nat, maxSuffixLen: int, current: Text, best: Best, length: nat): Best
    requires n <= |t.children|
    decreases t, 0, n
  {
    if n == 0 then best
    else
      var before := FindInChildren(t, n - 1, maxSuffixLen, current, best, length);
      var child := t.children[n - 1];
      FindCandidate(child.node, maxSuffixLen, current + [child.letter], before, if |t.children| == 1 then length + 1
        else 1)
  }

  function CandidatePrefix(t: Trie, maxSuffixLen: int): Text {
    FindCandidate(t, maxSuffixLen, [], Best([], 0), 0).prefix
  }

  /** Children have distinct letters, and only leaves have depth 0. */
  predicate WellFormed(t: Trie)
    decreases t
  {
    && (t.children == [] ==> t.depth == 0)
    && forall i ::
      0 <= i < |t.children| ==> Find(t.children, t.children[i].letter) == i && WellFormed(t.children[i].node)
  }

  lemma {:induction false} AddWellFormed(t: Trie, text: Text)
    requires WellFormed(t)
    ensures WellFormed(Add(t, text))
    decreases |text|
  {
    hide Find;
    if text != [] {
      var i := Find(t.children, text[0]);
      var child := if i < |t.children| then t.children[i].node else EMPTY;
      AddWellFormed(child, text[1..]);
      var added := Add(t, text);
      forall k | 0 <= k < |added.children|
        ensures Find(added.children, added.children[k].letter) == k && WellFormed(added.children[k].node)
      {
        FindIs(t.children, text[0]);
        FindIs(added.children, added.children[k].letter);
        var j := Find(added.children, added.children[k].letter);
        if j < k {
          if k < |t.children| { FindIs(t.children, t.children[k].letter); }
        }
      }
    }
  }

  lemma {:induction false} AddAllWellFormed(forms: seq<Text>)
    ensures WellFormed(AddAll(forms))
  {
    if forms != [] {
      AddAllWellFormed(forms[..|forms| - 1]);
      AddWellFormed(AddAll(forms[..|forms| - 1]), forms[|forms| - 1]);
    }
  }

  /** A candidate: a path to a node that is not too deep. */
  ghost predicate Reaches(t: Trie, maxSuffixLen: int, path: Text) {
    At(t, path).Some? && At(t, path).value.depth < maxSuffixLen
  }

  /** The result is either what was known before or a longer chain that ends in this trie. */
  ghost predicate Improves(t: Trie, maxSuffixLen: int, current: Text, best: Best, r: Best) {
    r == best || (r.length > best.length && exists path :: Reaches(t, maxSuffixLen, path) && r.prefix == current + path)
  }

  lemma {:induction false} FindCandidateSound(t: Trie, maxSuffixLen: int, current: Text, best: Best, length: nat)
    requires WellFormed(t)
    ensures Improves(t, maxSuffixLen, current, best, FindCandidate(t, maxSuffixLen, current, best, length))
    decreases t, 1, 0
  {
    var here := if t.depth < maxSuffixLen && length > best.length then Best(current, length) else best;
    FindInChildrenSound(t, |t.children|, maxSuffixLen, current, here, length);
    if here != best {
      assert Reaches(t, maxSuffixLen, []) && current == current + [];
    }
  }

  lemma {:induction false} FindInChildrenSound(t: Trie, n: nat, maxSuffixLen: int, current: Text, best: Best,
                                               length: nat)
    requires WellFormed(t) && n <= |t.children|
    ensures Improves(t, maxSuffixLen, current, best, FindInChildren(t, n, maxSuffixLen, current, best, length))
    decreases t, 0, n
  {
    hide Find;
    if n > 0 {
      FindInChildrenSound(t, n - 1, maxSuffixLen, current, best, length);
      var before := FindInChildren(t, n - 1, maxSuffixLen, current, best, length);
      var child := t.children[n - 1];
      var childLength := if |t.children| == 1 then length + 1 else 1;
      FindCandidateSound(child.node, maxSuffixLen, current + [child.letter], before, childLength);
      var r := FindCandidate(child.node, maxSuffixLen, current + [child.letter], before, childLength);
      if r != before {
        var path :| Reaches(child.node, maxSuffixLen, path) && r.prefix == current + [child.letter] + path;
        assert ([child.letter] + path)[1..] == path;
        assert Reaches(t, maxSuffixLen, [child.letter] + path);
        assert r.prefix == current + ([child.letter] + path);
      }
    }
  }

  /** With a positive limit some leaf is always a candidate. */
  lemma {:induction false} FindCandidateFinds(t: Trie, maxSuffixLen: int, current: Text, best: Best, length: nat)
    requires WellFormed(t) && maxSuffixLen >= 1 && (t.children != [] || length >= 1)
    ensures FindCandidate(t, maxSuffixLen, current, best, length).length > 0
    decreases t, 1, 0
  {
    hide Find;
    var here := if t.depth < maxSuffixLen && length > best.length then Best(current, length) else best;
    if t.children != [] {
      FindInChildrenFinds(t, |t.children|, maxSuffixLen, current, here, length);
    }
  }

  lemma {:induction false} FindInChildrenFinds(t: Trie, n: nat, maxSuffixLen: int, current: Text, best: Best,
                                               length: nat)
    requires WellFormed(t) && maxSuffixLen >= 1 && 1 <= n <= |t.children|
    ensures FindInChildren(t, n, maxSuffixLen, current, best, length).length > 0
    decreases t, 0, n
  {
    hide Find;
    var before := FindInChildren(t, n - 1, maxSuffixLen, current, best, length);
    var child := t.children[n - 1];
    FindCandidateFinds(child.node, maxSuffixLen, current + [child.letter], before, if |t.children| == 1 then length + 1
      else 1);
  }

  /** The chosen prefix starts some form, and with a positive limit every form that it starts continues
      by less than the limit. */
  lemma CandidateIsUsable(forms: seq<Text>, maxSuffixLen: int)
    requires forms != []
    ensures exists f <- forms :: CandidatePrefix(AddAll(forms), maxSuffixLen) <= f
    ensures maxSuffixLen >= 1 ==> forall f <- forms :: CandidatePrefix(AddAll(forms), maxSuffixLen) <= f ==>
      |f| - |CandidatePrefix(AddAll(forms), maxSuffixLen)| < maxSuffixLen
  {
    var t := AddAll(forms);
    var r := FindCandidate(t, maxSuffixLen, [], Best([], 0), 0);
    AddAllWellFormed(forms);
    FindCandidateSound(t, maxSuffixLen, [], Best([], 0), 0);
    AddAllPaths(forms, r.prefix);
    assert forms[0] in forms && [] <= forms[0];
    if r.length > 0 {
      var path :| Reaches(t, maxSuffixLen, path) && r.prefix == [] + path;
      assert path == r.prefix;
    } else if maxSuffixLen >= 1 {
      if t.children != [] { FindCandidateFinds(t, maxSuffixLen, [], Best([], 0), 0); }
      forall f | f in forms
        ensures f == []
      {
        var path := f[..if f == [] then 0 else 1];
        AddAllPaths(forms, path);
        assert path <= f && At(t, path).Some?;
      }
    }
  }
}
