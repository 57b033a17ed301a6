/** The decoder itself (src/tagger/viterbi.h): one flat vector of nodes, no table of states. */
module Viterbi {
  import opened Bytes
  import opened Arithmetic
  import FS = FeatureSequences
  import opened TaggerLattice
  import opened ViterbiSpec
  import opened ViterbiStates
  import opened ViterbiTable
  import opened ViterbiResult

  datatype Node = Node(tag: int, prev: int, score: int, dynamic: FS.Values)

  class Cache {
    var nodes: seq<Node>
    const features: FS.Cache

    ghost predicate Valid()
      reads this, features
    {
      features.Valid()
    }

    constructor (model: FS.Model, windowSize: nat, st: FS.Sentence)
      requires windowSize >= 1 && model.Valid(windowSize) && st.Valid(model)
      ensures Valid() && fresh(features) && fresh(features.key)
      ensures features.model == model && features.windowSize == windowSize
    {
      nodes := [];
      features := new FS.Cache(model, windowSize, st);
    }
  }

  /** The path of node `k`; the empty path before the first word. */
  ghost function PathAt(paths: seq<seq<int>>, k: int): seq<int>
    requires -1 <= k < |paths|
  {
    if k == -1 then [] else paths[k]
  }

  /** The back pointer of a node leads to an earlier node, along the node's path. */
  ghost predicate Link(nodes: seq<Node>, paths: seq<seq<int>>, k: int)
    requires 0 <= k < |paths| <= |nodes|
  {
    -1 <= nodes[k].prev < k && paths[k] == PathAt(paths, nodes[k].prev) + [nodes[k].tag]
  }

  ghost predicate Chained(nodes: seq<Node>, paths: seq<seq<int>>) {
    |paths| <= |nodes| && forall k :: 0 <= k < |paths| ==> Link(nodes, paths, k)
  }

  /** A node stands for its back-pointer path: tag, score and dynamic features are those of the path. */
  ghost predicate NodeOk(t: Lattice, st: FS.Sentence, nodes: seq<Node>, paths: seq<seq<int>>, k: int)
    requires 0 <= k < |paths| <= |nodes| && t.order >= 1
    requires |st.perForm| <= |st.perTag| && t.sizes == Sizes(st)
  {
    && Link(nodes, paths, k)
    && t.IsPath(paths[k])
    && nodes[k].score == t.PathScore(paths[k])
    && nodes[k].dynamic == DynamicOf(st, paths[k])
  }

  ghost predicate NodesOk(t: Lattice, st: FS.Sentence, nodes: seq<Node>, paths: seq<seq<int>>) {
    && t.order >= 1 && |st.perForm| <= |st.perTag| && t.sizes == Sizes(st)
    && |paths| <= |nodes| && forall k :: 0 <= k < |paths| ==> NodeOk(t, st, nodes, paths, k)
  }

  /** The nodes from `from` up to `to` are the states of position `i`, one node each, in order. */
  ghost predicate Column(t: Lattice, paths: seq<seq<int>>, i: nat, from: int, to: int)
    requires t.Valid() && i <= |t.sizes|
  {
    && -1 <= from <= to <= |paths| && (from == -1 <==> i == 0) && to - from == States(t, i)
    && forall q :: 0 <= q < States(t, i) ==> PathAt(paths, from + q) == Kept(t, i, q)
  }

  /** The nodes after `now` when the pairs before (tag, q) have been processed: finished states, then
      possibly one state whose predecessors are not all processed. */
  ghost predicate Progress(t: Lattice, paths: seq<seq<int>>, i: nat, now: nat, tag: nat, q: nat)
    requires t.Valid() && i < |t.sizes|
  {
    && tag <= t.sizes[i] && q <= States(t, i) && (tag == t.sizes[i] ==> q == 0)
    && var g := Group(t, i);
    && var done := tag * Row(t, i) + q / g;
    && 0 <= done <= States(t, i + 1)
    && |paths| == now + done + (if q % g != 0 then 1 else 0)
    && (forall k :: now <= k < now + done ==> paths[k] == Kept(t, i + 1, k - now))
    && (q % g != 0 ==> q < States(t, i) && paths[|paths| - 1] == Partial(t, i, StateOf(t, i, tag, q), q % g - 1))
  }

  /** The paths after one more pair. */
  ghost function Advanced(t: Lattice, paths: seq<seq<int>>, i: nat, tag: nat, q: nat): (r: seq<seq<int>>)
    requires t.Valid() && i < |t.sizes| && tag < t.sizes[i] && q < States(t, i)
    requires q % Group(t, i) != 0 ==> paths != [] && t.IsPath(paths[|paths| - 1])
  {
    var candidate := Candidate(t, i, tag, q);
    if q % Group(t, i) == 0 then paths + [candidate]
    else if t.PathScore(candidate) <= t.PathScore(paths[|paths| - 1]) then paths
    else paths[..|paths| - 1] + [candidate]
  }

  /** One more pair keeps the table: it starts a state, is discarded, or improves the last state. */
  lemma Advance(t: Lattice, paths: seq<seq<int>>, i: nat, now: nat, tag: nat, q: nat)
    requires t.Valid() && i < |t.sizes| && tag < t.sizes[i] && q < States(t, i)
    requires Progress(t, paths, i, now, tag, q)
    ensures now <= |paths| && |paths| < now + States(t, i + 1) + (if q % Group(t, i) != 0 then 1 else 0)
    ensures q % Group(t, i) != 0 ==> now < |paths| && t.IsPath(paths[|paths| - 1])
    ensures Progress(t, Advanced(t, paths, i, tag, q), i, now, tag, q + 1)
    ensures now <= |Advanced(t, paths, i, tag, q)| && Advanced(t, paths, i, tag, q)[..now] == paths[..now]
  {
    hide Lattice.PathScore, Tuple, Lattice.Combinations, Kept, Partial, Candidate, Shared;
    var g, w, x := Group(t, i), StateOf(t, i, tag, q), q % Group(t, i);
    var advanced := Advanced(t, paths, i, tag, q);
    PartialStep(t, i, tag, q);
    assert advanced[|advanced| - 1] == Partial(t, i, w, x);
    assert RankOf(t, i, tag, q) == tag * Row(t, i) + q / g;
    assert |advanced| == now + tag * Row(t, i) + q / g + 1;
    SuccessiveQuotients(q + 1, g);
    SuccessiveRemainders(q, g);
    if (q + 1) % g == 0 {
      FinishedState(t, i, tag, q);
    } else {
      SameState(t, i, tag, q);
    }
  }

  lemma FinishedState(t: Lattice, i: nat, tag: nat, q: nat)
    requires t.Valid() && i < |t.sizes| && tag < t.sizes[i] && q < States(t, i)
    requires q % Group(t, i) == Group(t, i) - 1
    ensures Partial(t, i, StateOf(t, i, tag, q), q % Group(t, i)) == Kept(t, i + 1, RankOf(t, i, tag, q))
  {
    hide Tuple, Lattice.Combinations, Lattice.Best, Partial, StateOf, RankOf;
    PartialComplete(t, i, StateOf(t, i, tag, q));
    RankTuple(t, i, tag, q);
  }

  lemma SameState(t: Lattice, i: nat, tag: nat, q: nat)
    requires t.Valid() && i < |t.sizes| && tag < t.sizes[i] && q < States(t, i)
    requires (q + 1) % Group(t, i) != 0
    ensures q + 1 < States(t, i)
    ensures StateOf(t, i, tag, q + 1) == StateOf(t, i, tag, q)
  {
    hide Tuple, Lattice.Combinations, Shared, Group;
    Counts(t, i);
    SuccessiveQuotients(q + 1, Group(t, i));
    if q + 1 == States(t, i) { DivModUnique(q + 1, Row(t, i), 0, Group(t, i)); }
  }

  /** Number of nodes that decoding the first `i` words writes. */
  ghost function NodeCount(t: Lattice, i: nat): nat
    requires t.order >= 1 && i <= |t.sizes|
  {
    if i == 0 then 0 else NodeCount(t, i - 1) + States(t, i)
  }

  /** The recurrence by which nodes are counted in advance: the states after `i` words. */
  function CountedStates(sizes: seq<nat>, order: nat, i: nat): nat
    requires order >= 1 && i <= |sizes| && forall j :: 0 <= j < i ==> sizes[j] >= 1
  {
    if i == 0 then 1
    else (if i >= order then CountedStates(sizes, order, i - 1) / sizes[i - order]
      else CountedStates(sizes, order, i - 1)) * sizes[i - 1]
  }

  function CountedNodes(sizes: seq<nat>, order: nat, i: nat): nat
    requires order >= 1 && i <= |sizes| && forall j :: 0 <= j < i ==> sizes[j] >= 1
  {
    if i == 0 then 0 else CountedNodes(sizes, order, i - 1) + CountedStates(sizes, order, i)
  }

  /** For order 1 there is one state after each word, but the word is divided out before it is multiplied in, and
      the division is rounded down. */
  lemma {:induction false} OrderOneStates(sizes: seq<nat>, i: nat)
    requires i <= |sizes| && forall j :: 0 <= j < i ==> sizes[j] >= 1
    ensures CountedStates(sizes, 1, i) == if forall j :: 0 <= j < i ==> sizes[j] == 1 then 1 else 0
  {
    if i > 0 {
      OrderOneStates(sizes, i - 1);
      if sizes[i - 1] > 1 { DivModUnique(1, 0, 1, sizes[i - 1]); }
    }
  }

  /** So the count is right for order 1 iff every word has a single analysis. */
  lemma {:induction false} OrderOneCount(t: Lattice, i: nat)
    requires t.order == 1 && i <= |t.sizes| && forall j :: 0 <= j < i ==> t.sizes[j] >= 1
    ensures NodeCount(t, i) == i && CountedNodes(t.sizes, 1, i) <= i
    ensures CountedNodes(t.sizes, 1, i) == NodeCount(t, i) <==> forall j :: 0 <= j < i ==> t.sizes[j] == 1
  {
    if i > 0 {
      OrderOneCount(t, i - 1);
      OrderOneStates(t.sizes, i);
    }
  }

  /** With one word of two analyses no node at all is counted, where one is needed. */
  lemma OrderOneExample(step: seq<int> -> int)
    ensures var t := Lattice([2], 1, step); CountedNodes(t.sizes, 1, 1) == 0 && NodeCount(t, 1) == 1
  {
    var t := Lattice([2], 1, step);
    OrderOneStates(t.sizes, 1);
    assert CountedNodes(t.sizes, 1, 1) == CountedNodes(t.sizes, 1, 0) + CountedStates(t.sizes, 1, 1);
  }

  /** Counts the nodes to allocate; `ok` is false when a word has no analysis. From order 2 on the count is that of
      the states. */
  method CountNodes(st: FS.Sentence, order: nat, ghost t: Lattice) returns (ok: bool, nodes: nat)
    requires order >= 1 && t.order == order && |st.perForm| <= |st.perTag| && t.sizes == Sizes(st)
    ensures ok <==> forall j :: 0 <= j < |t.sizes| ==> t.sizes[j] >= 1
    ensures ok ==> nodes == CountedNodes(t.sizes, order, |t.sizes|)
    ensures ok && order >= 2 ==> nodes == NodeCount(t, |t.sizes|)
  {
    hide CountedStates, Lattice.Combinations;
    nodes := 0;
    var states, i := 1, 0;
    OneState(t.sizes, order);
    while i < |st.perForm|
      invariant i <= |st.perForm|
      invariant forall j :: 0 <= j < i ==> t.sizes[j] >= 1
      invariant states == CountedStates(t.sizes, order, i) && nodes == CountedNodes(t.sizes, order, i)
    {
      assert t.sizes[i] == |st.perTag[i]|;
      if |st.perTag[i]| == 0 {
        return false, 0;
      }
      StatesStep(t.sizes, order, i);
      if i + 1 >= order { assert t.sizes[i + 1 - order] >= 1 && t.sizes[i + 1 - order] == |st.perTag[i + 1 - order]|; }
      states := (if i + 1 >= order then states / |st.perTag[i + 1 - order]| else states) * |st.perTag[i]|;
      nodes := nodes + states;
      i := i + 1;
    }
    ok := true;
    if order >= 2 { CountedIsRight(t, |t.sizes|); }
  }

  lemma OneState(sizes: seq<nat>, order: nat)
    requires order >= 1
    ensures CountedStates(sizes, order, 0) == 1
  {
  }

  lemma StatesStep(sizes: seq<nat>, order: nat, i: nat)
    requires order >= 1 && i < |sizes| && forall j :: 0 <= j <= i ==> sizes[j] >= 1
    ensures var before := CountedStates(sizes, order, i);
      CountedStates(sizes, order, i + 1) ==
        (if i + 1 >= order then before / sizes[i + 1 - order] else before) * sizes[i]
  {
  }

  /** From order 2 on the recurrence counts the states. */
  lemma {:induction false} CountedIsRight(t: Lattice, i: nat)
    requires t.order >= 2 && i <= |t.sizes| && forall j :: 0 <= j < i ==> t.sizes[j] >= 1
    ensures CountedStates(t.sizes, t.order, i) == States(t, i) && CountedNodes(t.sizes, t.order, i) == NodeCount(t, i)
  {
    if i > 0 {
      CountedIsRight(t, i - 1);
      CountsOfPrefix(t, i - 1);
    }
  }

  /** The recurrence of the node count, whatever follows word `i`. */
  lemma CountsOfPrefix(t: Lattice, i: nat)
    requires t.order >= 2 && i < |t.sizes| && forall j :: 0 <= j <= i ==> t.sizes[j] >= 1
    ensures States(t, i + 1) ==
      (if i + 1 >= t.order then States(t, i) / t.sizes[i + 1 - t.order] else States(t, i)) * t.sizes[i]
  {
    var k := t.Context(i);
    if i + 1 >= t.order {
      CombinationsSplit(t, i, k);
      var g := t.sizes[i - k];
      assert t.Combinations(i, k - 1) * g + 0 == States(t, i);
      DivModUnique(States(t, i), t.Combinations(i, k - 1), 0, g);
    }
  }

  /** The next entry of the window is the tag of the node reached. */
  lemma ChainStep(nodes: seq<Node>, paths: seq<seq<int>>, p: int, path: seq<int>, n: nat, size: nat)
    requires Chained(nodes, paths) && 0 <= p < |paths| && n < size
    requires PathAt(paths, p) <= path && |PathAt(paths, p)| == |path| - n
    ensures n < |path| && Window(path, size)[n] == nodes[p].tag && -1 <= nodes[p].prev < p
    ensures PathAt(paths, nodes[p].prev) <= path && |PathAt(paths, nodes[p].prev)| == |path| - n - 1
  {
    assert Link(nodes, paths, p);
    assert paths[p][|paths[p]| - 1] == nodes[p].tag;
  }

  /** Where the windows stop agreeing, before entry `n`. */
  predicate AgreeUntil(before: seq<int>, after: seq<int>, n: nat, same: nat)
    requires n <= |before| == |after|
  {
    same <= n && before[..same] == after[..same] && (same < n ==> before[same] != after[same])
  }

  lemma AgreeStep(before: seq<int>, after: seq<int>, n: nat, same: nat)
    requires n < |before| == |after| && AgreeUntil(before, after, n, same)
    ensures AgreeUntil(before, after, n + 1, same + if same == n && before[n] == after[n] then 1 else 0)
  {
  }

  /** Follows the back pointers of a new node into the window and counts how many leading tags are
      the ones the window already had. */
  method SlideWindow(nodes: seq<Node>, window: array<int>, tag: int, prev: int,
                     ghost paths: seq<seq<int>>, ghost last: seq<int>)
    returns (same: nat)
    requires Chained(nodes, paths) && -1 <= prev < |paths| && window.Length >= 1
    requires window[..] == Window(last, window.Length)
    requires last == [] || |last| == |PathAt(paths, prev)| + 1
    modifies window
    ensures window[..] == Window(PathAt(paths, prev) + [tag], window.Length)
    ensures CommonPrefix(Window(last, window.Length), window[..],
                         if |PathAt(paths, prev)| + 1 < window.Length then |PathAt(paths, prev)| + 1
                           else window.Length, same)
  {
    hide Window, Link, AgreeUntil;
    ghost var path, size := PathAt(paths, prev) + [tag], window.Length;
    ghost var before, after := Window(last, size), Window(path, size);
    assert forall j :: 0 <= j < size ==> window[j] == before[j];
    same := if window[0] == tag then 1 else 0;
    window[0] := tag;
    var p, n := prev, 1;
    FirstAgreement(before, after, same);
    while p >= 0 && n < window.Length
      invariant 1 <= n <= size && -1 <= p < |paths|
      invariant PathAt(paths, p) <= path && |PathAt(paths, p)| == |path| - n
      invariant forall j :: 0 <= j < n ==> window[j] == after[j]
      invariant forall j :: n <= j < size ==> window[j] == before[j]
      invariant AgreeUntil(before, after, n, same)
      decreases p
    {
      ChainStep(nodes, paths, p, path, n, size);
      AgreeStep(before, after, n, same);
      same := same + if same == n && window[n] == nodes[p].tag then 1 else 0;
      window[n] := nodes[p].tag;
      p := nodes[p].prev;
      n := n + 1;
    }
    WindowCompletes(window[..], before, after, last, path, n, p == -1);
    AgreementIsCommonPrefix(before, after, n, same);
  }

  lemma FirstAgreement(before: seq<int>, after: seq<int>, same: nat)
    requires |before| == |after| >= 1 && same == if before[0] == after[0] then 1 else 0
    ensures AgreeUntil(before, after, 1, same)
  {
  }

  lemma AgreementIsCommonPrefix(before: seq<int>, after: seq<int>, n: nat, same: nat)
    requires n <= |before| == |after| && AgreeUntil(before, after, n, same)
    ensures CommonPrefix(before, after, n, same)
  {
  }

  /** Entries that were not written lie before the sentence in both windows. */
  lemma WindowCompletes(window: seq<int>, before: seq<int>, after: seq<int>, last: seq<int>, path: seq<int>, n: nat,
                        atStart: bool)
    requires before == Window(last, |window|) && after == Window(path, |window|)
    requires last == [] || |last| == |path|
    requires 1 <= n <= |window| && n <= |path| && if atStart then n == |path| else n == |window|
    requires forall j :: 0 <= j < n ==> window[j] == after[j]
    requires forall j :: n <= j < |window| ==> window[j] == before[j]
    ensures window == after
  {
  }

  lemma ColumnKept(t: Lattice, paths: seq<seq<int>>, advanced: seq<seq<int>>, i: nat, from: int, now: int)
    requires t.Valid() && i <= |t.sizes| && Column(t, paths, i, from, now)
    requires now <= |advanced| && advanced[..now] == paths[..now]
    ensures Column(t, advanced, i, from, now)
  {
    hide Kept;
    forall q | 0 <= q < States(t, i)
      ensures PathAt(advanced, from + q) == Kept(t, i, q)
    {
      assert PathAt(paths, from + q) == Kept(t, i, q);
      if from + q >= 0 { assert advanced[..now][from + q] == paths[..now][from + q]; }
    }
  }

  lemma NodesChained(t: Lattice, st: FS.Sentence, nodes: seq<Node>, paths: seq<seq<int>>)
    requires NodesOk(t, st, nodes, paths)
    ensures Chained(nodes, paths)
  {
    hide Link, Lattice.PathScore;
    forall k | 0 <= k < |paths|
      ensures Link(nodes, paths, k)
    {
      assert NodeOk(t, st, nodes, paths, k);
    }
  }

  /** Writing the node of a path that extends an earlier node keeps all nodes well-formed. */
  lemma NodeWritten(t: Lattice, st: FS.Sentence, nodes: seq<Node>, paths: seq<seq<int>>, kept: nat, node: Node,
                    path: seq<int>)
    requires NodesOk(t, st, nodes, paths) && kept <= |paths| && kept < |nodes|
    requires -1 <= node.prev < kept && path == PathAt(paths, node.prev) + [node.tag] && t.IsPath(path)
    requires node.score == t.PathScore(path) && node.dynamic == DynamicOf(st, path)
    ensures NodesOk(t, st, nodes[kept := node], paths[..kept] + [path])
  {
    hide Lattice.PathScore, DynamicOf;
    var nodes', paths' := nodes[kept := node], paths[..kept] + [path];
    forall k | 0 <= k < |paths'|
      ensures NodeOk(t, st, nodes', paths', k)
    {
      if k < kept {
        assert NodeOk(t, st, nodes, paths, k);
        assert PathAt(paths', nodes[k].prev) == PathAt(paths, nodes[k].prev);
      }
    }
  }

  /** The path of a pair extends the path of its predecessor. */
  lemma PairPath(t: Lattice, paths: seq<seq<int>>, i: nat, from: int, now: nat, tag: nat, q: nat, last: seq<int>,
                 windowSize: nat)
    requires t.Valid() && i < |t.sizes| && tag < t.sizes[i] && q < States(t, i)
    requires Column(t, paths, i, from, now)
    requires last == if q > 0 then Candidate(t, i, tag, q - 1)
                     else if tag > 0 then Candidate(t, i, tag - 1, States(t, i) - 1) else []
    ensures -1 <= from + q < now <= |paths|
    ensures Candidate(t, i, tag, q) == PathAt(paths, from + q) + [tag]
    ensures |PathAt(paths, from + q)| == i && (from + q == -1 <==> i == 0)
    ensures last == [] || (|last| == i + 1 && t.IsPath(last))
    ensures q == 0 ==> last == [] || last[|last| - 1] != tag
  {
    assert PathAt(paths, from + q) == Kept(t, i, q);
  }

  /** The dynamic features of a pair continue those of its predecessor. */
  lemma PairDynamic(t: Lattice, st: FS.Sentence, nodes: seq<Node>, paths: seq<seq<int>>, i: nat, tag: nat, prev: int,
                    path: seq<int>)
    requires NodesOk(t, st, nodes, paths) && -1 <= prev < |paths|
    requires t.IsPath(path) && |path| == i + 1 && path == PathAt(paths, prev) + [tag] && (prev == -1 <==> i == 0)
    ensures path[..i] == PathAt(paths, prev)
    ensures st.nextDynamic(i, tag, if prev >= 0 then Some(nodes[prev].dynamic) else None) == DynamicOf(st, path)
    ensures t.PathScore(path[..i]) == if prev >= 0 then nodes[prev].score else 0
  {
    hide Link;
    assert path[..i] == PathAt(paths, prev);
    if prev >= 0 { assert NodeOk(t, st, nodes, paths, prev); }
  }

  lemma NoTagsInCommon(path: seq<int>, windowSize: nat, limit: nat, same: nat)
    requires path != [] && path[|path| - 1] >= 0
    requires CommonPrefix(Window([], windowSize), Window(path, windowSize), limit, same)
    ensures same == 0
  {
    assert limit > 0 ==> Window([], windowSize)[0] != Window(path, windowSize)[0];
  }

  /** What the decoder does with the last node is what the table does with the last path. */
  lemma AdvancedCases(t: Lattice, st: FS.Sentence, nodes: seq<Node>, paths: seq<seq<int>>, i: nat, now: nat, tag: nat,
                      q: nat, kept: nat)
    requires t.Valid() && i < |t.sizes| && tag < t.sizes[i] && q < States(t, i)
    requires NodesOk(t, st, nodes, paths) && Progress(t, paths, i, now, tag, q)
    requires now + States(t, i + 1) <= |nodes|
    requires kept == if q % Group(t, i) != 0 then |paths| - 1 else |paths|
    ensures now <= kept <= |paths| && kept < |nodes|
    ensures kept < |paths| ==> t.IsPath(paths[kept]) && nodes[kept].score == t.PathScore(paths[kept])
    ensures Advanced(t, paths, i, tag, q) ==
      if kept < |paths| && t.PathScore(Candidate(t, i, tag, q)) <= nodes[kept].score then paths
      else paths[..kept] + [Candidate(t, i, tag, q)]
  {
    hide Lattice.PathScore, Tuple, Lattice.Combinations, Kept, Partial, Candidate, Shared, Progress, Link;
    Advance(t, paths, i, now, tag, q);
    if kept < |paths| { assert NodeOk(t, st, nodes, paths, kept); }
  }

  /** After its last predecessor a tag is complete. */
  lemma RowComplete(t: Lattice, paths: seq<seq<int>>, i: nat, now: nat, tag: nat)
    requires t.Valid() && i < |t.sizes| && tag < t.sizes[i]
    requires Progress(t, paths, i, now, tag, States(t, i))
    ensures Progress(t, paths, i, now, tag + 1, 0)
  {
    hide Lattice.Combinations, Kept, Partial, StateOf, Group, Shared;
    Counts(t, i);
    var row, g := Row(t, i), Group(t, i);
    DivModUnique(States(t, i), row, 0, g);
    assert (tag + 1) * row == tag * row + row;
    MulMonotone(tag + 1, t.sizes[i], row);
  }

  lemma NoProgressYet(t: Lattice, paths: seq<seq<int>>, i: nat)
    requires t.Valid() && i < |t.sizes|
    ensures Progress(t, paths, i, |paths|, 0, 0)
  {
    hide Lattice.Combinations, Kept, Partial, StateOf, Group, Shared;
    Counts(t, i);
  }

  /** After the last tag the nodes written form the next column. */
  lemma ColumnComplete(t: Lattice, paths: seq<seq<int>>, i: nat, now: nat)
    requires t.Valid() && i < |t.sizes| && Progress(t, paths, i, now, t.sizes[i], 0)
    ensures |paths| == now + States(t, i + 1) && Column(t, paths, i + 1, now, |paths|)
  {
    hide Lattice.Combinations, Kept, Partial, StateOf, Group, Shared;
    Counts(t, i);
  }

  lemma {:induction false} NodeCountMonotone(t: Lattice, i: nat, j: nat)
    requires t.order >= 1 && i <= j <= |t.sizes|
    ensures NodeCount(t, i) <= NodeCount(t, j)
  {
    hide States;
    if i < j { NodeCountMonotone(t, i, j - 1); }
  }

  lemma BackPointer(nodes: seq<Node>, paths: seq<seq<int>>, best: nat, path: seq<int>, i: nat)
    requires Chained(nodes, paths) && best < |paths| && i < |path| && paths[best] == path[..i + 1]
    ensures nodes[best].tag == path[i]
    ensures -1 <= nodes[best].prev < best && PathAt(paths, nodes[best].prev) == path[..i]
    ensures i > 0 ==> nodes[best].prev >= 0
  {
    assert Link(nodes, paths, best);
    var front := PathAt(paths, nodes[best].prev);
    assert paths[best][..|front|] == front;
    assert |front| == i && path[..i + 1][..i] == path[..i];
    assert paths[best][i] == path[i];
  }

  lemma StepIsScore(model: FS.Model, st: FS.Sentence, order: nat, windowSize: nat, t: Lattice, path: seq<int>)
    requires model.Valid(windowSize) && st.Valid(model) && t == LatticeOf(model, st, order, windowSize)
    requires order >= 1 && t.IsPath(path) && |path| >= 1
    ensures var i := |path| - 1; t.PathScore(path) == t.PathScore(path[..i]) + if t.Skipped(i) then 0 else t.step(path)
    ensures st.WindowOk(|path| - 1, Window(path, windowSize)) && |DynamicOf(st, path)| == model.dynamicWidth
    ensures t.step(path) == FS.Score(model, st, windowSize, |path| - 1, Window(path, windowSize), DynamicOf(st, path))
  {
    hide FS.Score, Lattice.Combinations;
    WindowInside(st, path, windowSize);
    assert TagPath(st, path);
  }

  /** Decoding with a fixed order and window size. */
  class Decoder {
    const order: nat
    const windowSize: nat

    constructor (order: nat, windowSize: nat)
      ensures this.order == order && this.windowSize == windowSize
    {
      this.order, this.windowSize := order, windowSize;
    }

    /** Sentence, cache and lattice belong together. */
    ghost predicate Ready(c: Cache, t: Lattice)
      reads c, c.features
    {
      && 2 <= order <= windowSize && c.Valid() && c.features.windowSize == windowSize
      && |c.features.sentence.perForm| <= |c.features.sentence.perTag|
      && t == LatticeOf(c.features.model, c.features.sentence, order, windowSize) && t.Valid()
    }

    /** The score of the path that ends with the window, all but the new position being known. */
    method ScoreCandidate(c: Cache, i: nat, window: seq<int>, same: nat, dynamic: FS.Values, single: bool,
                          previous: int, ghost t: Lattice, ghost last: seq<int>, ghost path: seq<int>)
                            returns (score: int)
      requires Ready(c, t) && t.IsPath(path) && |path| == i + 1
      requires window == Window(path, windowSize) && same <= windowSize
      requires dynamic == DynamicOf(c.features.sentence, path)
      requires single == t.Skipped(i) && previous == t.PathScore(path[..i])
      requires !single && same > 0 ==>
        TagPath(c.features.sentence, last) && |last| >= 1 && Window(last, windowSize)[..same] == window[..same] &&
        c.features.Reflects(i, Window(last, windowSize), DynamicOf(c.features.sentence, last))
      modifies c.features, c.features.key
      ensures Ready(c, t) && c.features.sentence == old(c.features.sentence)
      ensures score == t.PathScore(path)
      ensures !single ==> c.features.Reflects(i, window, dynamic)
    {
      hide Lattice.PathScore, Lattice.Combinations, StepScore, DynamicOf, FS.Score, Window;
      score := previous;
      WindowInside(c.features.sentence, path, windowSize);
      StepIsScore(c.features.model, c.features.sentence, order, windowSize, t, path);
      if !single {
        ghost var lastDynamic := if same > 0 then DynamicOf(c.features.sentence, last) else dynamic;
        var local := c.features.ScoreWindow(i, window, same, dynamic, Window(last, windowSize), lastDynamic);
        score := score + local;
      }
    }

    /** The state of the double loop before pair (tag, q) of position `i`. */
    ghost predicate Working(c: Cache, t: Lattice, paths: seq<seq<int>>, i: nat, from: int, now: nat,
                            tag: nat, q: nat, window: seq<int>, last: seq<int>)
      reads c, c.features
    {
      && Ready(c, t) && i < |t.sizes|
      && NodesOk(t, c.features.sentence, c.nodes, paths)
      && Column(t, paths, i, from, now) && Progress(t, paths, i, now, tag, q)
      && now + States(t, i + 1) <= |c.nodes|
      && window == Window(last, windowSize)
      && States(t, i) >= 1
      && last == (if q > 0 then (if tag < t.sizes[i] then Candidate(t, i, tag, q - 1) else [])
                  else if tag > 0 then Candidate(t, i, tag - 1, States(t, i) - 1) else [])
      && (!t.Skipped(i) && last != [] ==> c.features.Reflects(i, window, DynamicOf(c.features.sentence, last)))
    }

    /** The first half of a pair: window, dynamic features and score of the new path. */
    method ScorePair(c: Cache, window: array<int>, i: nat, tag: nat, prev: int, single: bool,
                     ghost t: Lattice, ghost paths: seq<seq<int>>, ghost from: int, ghost now: nat, ghost q: nat,
                     ghost last: seq<int>)
      returns (merge: bool, node: Node)
      requires window as object != c.features.key && window.Length == windowSize
      requires Working(c, t, paths, i, from, now, tag, q, window[..], last)
      requires tag < t.sizes[i] && q < States(t, i) && prev == from + q && single == t.Skipped(i)
      modifies c.features, c.features.key, window
      ensures Ready(c, t) && c.features.sentence == old(c.features.sentence)
      ensures merge <==> q % Group(t, i) != 0
      ensures node.tag == tag && node.prev == prev
      ensures node.score == t.PathScore(Candidate(t, i, tag, q))
      ensures node.dynamic == DynamicOf(c.features.sentence, Candidate(t, i, tag, q))
      ensures window[..] == Window(Candidate(t, i, tag, q), windowSize)
      ensures !single ==> c.features.Reflects(i, window[..], node.dynamic)
    {
      hide Lattice.PathScore, Tuple, Lattice.Combinations, Kept, Partial, Candidate, Shared, Window, DynamicOf,
        StepScore, Column, Progress, NodeOk, Group, FS.Score, Chained, NodesOk, FS.Cache.Reflects, FS.Cache.Valid;
      ghost var st, path := c.features.sentence, Candidate(t, i, tag, q);
      PairPath(t, paths, i, from, now, tag, q, last, windowSize);
      NodesChained(t, st, c.nodes, paths);
      var same := SlideWindow(c.nodes, window, tag, prev, paths, last);
      SameTagsMeansSameState(t, i, tag, q, windowSize, last, same);
      if last == [] { NoTagsInCommon(path, windowSize, if i + 1 < windowSize then i + 1 else windowSize, same); }
      var dynamic := c.features.sentence.nextDynamic(i, tag, if prev >= 0 then Some(c.nodes[prev].dynamic) else None);
      PairDynamic(t, st, c.nodes, paths, i, tag, prev, path);
      var previous := if prev >= 0 then c.nodes[prev].score else 0;
      var score := ScoreCandidate(c, i, window[..], same, dynamic, single, previous, t, last, path);
      merge, node := same >= order - 1, Node(tag, prev, score, dynamic);
    }

    /** The second half: start a new node, or compare with the last one and keep the better. */
    method UpdateNode(c: Cache, merge: bool, node: Node, next: nat, i: nat, ghost t: Lattice, ghost st: FS.Sentence,
                      ghost paths: seq<seq<int>>, ghost from: int, ghost now: nat, ghost tag: nat, ghost q: nat)
      returns (after: nat, ghost advanced: seq<seq<int>>)
      requires t.Valid() && i < |t.sizes| && tag < t.sizes[i] && q < States(t, i)
      requires NodesOk(t, st, c.nodes, paths) && Column(t, paths, i, from, now) && Progress(t, paths, i, now, tag, q)
      requires now + States(t, i + 1) <= |c.nodes| && next == |paths| && (merge <==> q % Group(t, i) != 0)
      requires node.tag == tag && node.prev == from + q
      requires node.score == t.PathScore(Candidate(t, i, tag, q))
      requires node.dynamic == DynamicOf(st, Candidate(t, i, tag, q))
      modifies c`nodes
      ensures NodesOk(t, st, c.nodes, advanced) && Column(t, advanced, i, from, now)
      ensures Progress(t, advanced, i, now, tag, q + 1)
      ensures |c.nodes| == old(|c.nodes|) && after == |advanced|
    {
      hide Lattice.PathScore, Tuple, Lattice.Combinations, Kept, Partial, Candidate, Shared, DynamicOf, Column,
        Progress, NodeOk, Group, Advanced;
      ghost var path := Candidate(t, i, tag, q);
      PairPath(t, paths, i, from, now, tag, q, if q > 0 then Candidate(t, i, tag, q - 1)
                     else if tag > 0 then Candidate(t, i, tag - 1, States(t, i) - 1) else [], 1);
      Advance(t, paths, i, now, tag, q);
      advanced := Advanced(t, paths, i, tag, q);
      ghost var kept := if merge then next - 1 else next;
      AdvancedCases(t, st, c.nodes, paths, i, now, tag, q, kept);
      ColumnKept(t, paths, advanced, i, from, now);
      after := next;
      if merge {
        if node.score <= c.nodes[after - 1].score {
          return;
        }
        after := after - 1;
      }
      NodeWritten(t, st, c.nodes, paths, kept, node, path);
      c.nodes := c.nodes[after := node];
      after := after + 1;
    }

    /** One pair of a tag and a predecessor. */
    method ProcessPair(c: Cache, window: array<int>, i: nat, tag: nat, prev: int, single: bool, next: nat,
                       ghost t: Lattice, ghost paths: seq<seq<int>>, ghost from: int, ghost now: nat, ghost q: nat,
                       ghost last: seq<int>)
      returns (after: nat, ghost advanced: seq<seq<int>>)
      requires window as object != c.features.key && window.Length == windowSize
      requires Working(c, t, paths, i, from, now, tag, q, window[..], last)
      requires tag < t.sizes[i] && q < States(t, i) && prev == from + q && next == |paths| && single == t.Skipped(i)
      modifies c, c.features, c.features.key, window
      ensures Working(c, t, advanced, i, from, now, tag, q + 1, window[..], Candidate(t, i, tag, q))
      ensures after == |advanced| && c.features.sentence == old(c.features.sentence) && |c.nodes| == old(|c.nodes|)
    {
      hide Lattice.PathScore, Tuple, Lattice.Combinations, Kept, Partial, Candidate, Shared, Window, DynamicOf,
        StepScore, Column, Progress, NodesOk, Group, FS.Score;
      var merge, node := ScorePair(c, window, i, tag, prev, single, t, paths, from, now, q, last);
      after, advanced := UpdateNode(c, merge, node, next, i, t, c.features.sentence, paths, from, now, tag, q);
    }

    /** All pairs of one position, tags outermost. */
    method FillColumn(c: Cache, window: array<int>, i: nat, nodesPrev: int, nodesNow: nat,
                      ghost t: Lattice, ghost before: seq<seq<int>>)
      returns (nodesNext: nat, ghost paths: seq<seq<int>>)
      requires window as object != c.features.key && window.Length == windowSize
      requires Ready(c, t) && i < |t.sizes| && NodesOk(t, c.features.sentence, c.nodes, before)
      requires |before| == nodesNow && Column(t, before, i, nodesPrev, nodesNow)
      requires nodesNow + States(t, i + 1) <= |c.nodes|
      modifies c, c.features, c.features.key, window
      ensures Ready(c, t) && c.features.sentence == old(c.features.sentence) && |c.nodes| == old(|c.nodes|)
      ensures NodesOk(t, c.features.sentence, c.nodes, paths)
      ensures nodesNext == |paths| == nodesNow + States(t, i + 1) && Column(t, paths, i + 1, nodesNow, nodesNext)
    {
      hide Lattice.PathScore, Tuple, Lattice.Combinations, Kept, Partial, Candidate, Shared, DynamicOf, StepScore,
        Progress, NodesOk, Group, FS.Score;
      nodesNext, paths := nodesNow, before;
      for j := 0 to windowSize
        invariant forall k :: 0 <= k < j ==> window[k] == -1
        invariant Ready(c, t) && c.nodes == old(c.nodes) && c.features.sentence == old(c.features.sentence)
      {
        window[j] := -1;
      }
      assert window[..] == Window([], windowSize);
      Counts(t, i);
      NoProgressYet(t, paths, i);
      var single := nodesPrev + 1 == nodesNow && |c.features.sentence.perTag[i]| == 1;
      ghost var last: seq<int> := [];
      var tag := 0;
      while tag < |c.features.sentence.perTag[i]|
        invariant c.features.sentence == old(c.features.sentence) && |c.nodes| == old(|c.nodes|)
        invariant Working(c, t, paths, i, nodesPrev, nodesNow, tag, 0, window[..], last)
        invariant nodesNext == |paths| && tag <= t.sizes[i]
      {
        var prev := nodesPrev;
        while prev < nodesNow
          invariant c.features.sentence == old(c.features.sentence) && |c.nodes| == old(|c.nodes|)
          invariant nodesPrev <= prev <= nodesNow
          invariant Working(c, t, paths, i, nodesPrev, nodesNow, tag, prev - nodesPrev, window[..], last)
          invariant nodesNext == |paths|
        {
          nodesNext, paths :=
            ProcessPair(c, window, i, tag, prev, single, nodesNext, t, paths, nodesPrev, nodesNow, prev - nodesPrev,
            last);
          last := Candidate(t, i, tag, prev - nodesPrev);
          prev := prev + 1;
        }
        RowComplete(t, paths, i, nodesNow, tag);
        tag := tag + 1;
      }
      ColumnComplete(t, paths, i, nodesNow);
    }

    /** The first of the best nodes of the last column. */
    method BestNode(nodes: seq<Node>, nodesPrev: nat, nodesNow: nat,
                    ghost t: Lattice, ghost st: FS.Sentence, ghost paths: seq<seq<int>>)
      returns (best: nat)
      requires t.Valid() && |t.sizes| >= 1 && NodesOk(t, st, nodes, paths)
      requires Column(t, paths, |t.sizes|, nodesPrev, nodesNow)
      ensures best < |paths| && paths[best] == Decoded(t)
    {
      hide Lattice.PathScore, Lattice.Combinations, Kept, Link, Column, DynamicOf;
      var node := nodesPrev + 1;
      best := nodesPrev;
      LastColumn(t, st, nodes, paths, nodesPrev, nodesNow, nodesPrev);
      while node < nodesNow
        invariant nodesPrev < node <= nodesNow && best < node
        invariant paths[best] == FirstBest(t, |t.sizes|, node - nodesPrev)
      {
        LastColumn(t, st, nodes, paths, nodesPrev, nodesNow, node);
        assert NodeOk(t, st, nodes, paths, best);
        if nodes[node].score > nodes[best].score {
          best := node;
        }
        node := node + 1;
      }
    }

    lemma LastColumn(t: Lattice, st: FS.Sentence, nodes: seq<Node>, paths: seq<seq<int>>, nodesPrev: nat,
                     nodesNow: nat, node: nat)
      requires t.Valid() && |t.sizes| >= 1 && NodesOk(t, st, nodes, paths)
      requires Column(t, paths, |t.sizes|, nodesPrev, nodesNow)
      requires nodesPrev <= node && (node < nodesNow || node == nodesPrev)
      ensures nodesPrev < nodesNow <= |paths| && nodesNow - nodesPrev == t.Combinations(|t.sizes|, t.Context(|t.sizes|))
      ensures paths[node] == Kept(t, |t.sizes|, node - nodesPrev)
      ensures nodes[node].score == t.PathScore(paths[node])
    {
      hide Lattice.PathScore, Kept, Link;
      CombinationsPositive(t, |t.sizes|, t.Context(|t.sizes|));
      assert PathAt(paths, nodesPrev + (node - nodesPrev)) == Kept(t, |t.sizes|, node - nodesPrev);
      assert NodeOk(t, st, nodes, paths, node);
    }

    /** Reads the tags off the back pointers, last word first. */
    method TraceBack(nodes: seq<Node>, last: nat, words: nat, tags: array<int>, ghost paths: seq<seq<int>>)
      requires Chained(nodes, paths) && last < |paths| && words == |paths[last]| <= tags.Length
      modifies tags
      ensures tags[..] == paths[last] + old(tags[words..])
    {
      hide Link;
      ghost var path := paths[last];
      assert path[..words] == path;
      var best: int, i: int := last, words - 1;
      while i >= 0
        invariant -1 <= i < words && -1 <= best < |paths| && (i >= 0 ==> best >= 0)
        invariant PathAt(paths, best) == path[..i + 1]
        invariant forall j :: i < j < words ==> tags[j] == path[j]
        invariant forall j :: words <= j < tags.Length ==> tags[j] == old(tags[j])
        decreases i
      {
        BackPointer(nodes, paths, best, path, i);
        tags[i] := nodes[best].tag;
        best := nodes[best].prev;
        i := i - 1;
      }
    }

    /** Decodes a sentence. Without words, or when a word has no analysis, nothing is written;
        otherwise the first entries of `tags` become the decoded path. */
    method Tag(st: FS.Sentence, c: Cache, tags: array<int>)
      requires 2 <= order <= windowSize && c.Valid() && c.features.windowSize == windowSize
      requires st.Valid(c.features.model) && |st.perForm| <= tags.Length
      requires tags as object != c.features.key
      modifies c, c.features, c.features.key, tags
      ensures c.Valid()
      ensures var t := LatticeOf(c.features.model, st, order, windowSize);
        if |st.perForm| == 0 || !t.Valid() then tags[..] == old(tags[..])
        else tags[..] == Decoded(t) + old(tags[|st.perForm|..])
    {
      hide Lattice.PathScore, Tuple, Lattice.Combinations, Kept, Shared, DynamicOf, StepScore, NodesOk, FS.Score,
        FirstBest, CountedStates, CountedNodes, Decoded;
      if |st.perForm| == 0 {
        return;
      }
      ghost var t := LatticeOf(c.features.model, st, order, windowSize);
      var ok, nodes := CountNodes(st, order, t);
      if !ok {
        return;
      }
      if nodes > |c.nodes| {
        c.nodes := c.nodes + seq(nodes - |c.nodes|, _ => Node(0, 0, 0, []));
      }
      c.features.InitializeSentence(st);
      var window := new int[windowSize];
      var nodesPrev: int, nodesNow: nat := -1, 0;
      ghost var paths: seq<seq<int>> := [];
      FirstColumn(t, st, c.nodes);
      var i := 0;
      while i < |st.perForm|
        invariant i <= |st.perForm| && Ready(c, t) && c.features.sentence == st
        invariant NodesOk(t, st, c.nodes, paths) && nodesNow == |paths| == NodeCount(t, i)
        invariant Column(t, paths, i, nodesPrev, nodesNow) && nodes <= |c.nodes|
        invariant tags[..] == old(tags[..])
      {
        NodeCountMonotone(t, i + 1, |t.sizes|);
        var nodesNext, filled := FillColumn(c, window, i, nodesPrev, nodesNow, t, paths);
        nodesPrev, nodesNow, paths := nodesNow, nodesNext, filled;
        i := i + 1;
      }
      var best := BestNode(c.nodes, nodesPrev, nodesNow, t, st, paths);
      NodesChained(t, st, c.nodes, paths);
      TraceBack(c.nodes, best, |st.perForm|, tags, paths);
    }

    lemma FirstColumn(t: Lattice, st: FS.Sentence, nodes: seq<Node>)
      requires t.Valid() && |st.perForm| <= |st.perTag| && t.sizes == Sizes(st)
      ensures NodesOk(t, st, nodes, []) && Column(t, [], 0, -1, 0)
    {
      assert States(t, 0) == 1;
    }
  }
}
