/** How one pass over (tag, predecessor) pairs fills the next column of the decoder's table. */
module ViterbiTable {
  import opened Arithmetic
  import opened ViterbiSpec
  import opened ViterbiStates

  /** Number of tags that a state of position `i` shares with the states of position `i + 1`. */
  function Shared(t: Lattice, i: nat): (e: nat)
    requires t.order >= 2
    ensures e <= t.Context(i) && e + 1 == t.Context(i + 1)
  {
    t.Context(i + 1) - 1
  }

  /** Number of consecutive predecessors that lead to one state. */
  function Group(t: Lattice, i: nat): (g: nat)
    requires t.Valid() && i < |t.sizes|
    ensures g >= 1
  {
    if i + 1 < t.order then 1 else t.sizes[i + 1 - t.order]
  }

  /** Number of states of position `i`. */
  function States(t: Lattice, i: nat): nat
    requires t.order >= 1 && i <= |t.sizes|
  {
    t.Combinations(i, t.Context(i))
  }

  /** Number of states of position `i + 1` for one tag. */
  function Row(t: Lattice, i: nat): nat
    requires t.order >= 2 && i <= |t.sizes|
  {
    t.Combinations(i, Shared(t, i))
  }

  lemma Counts(t: Lattice, i: nat)
    requires t.Valid() && i < |t.sizes|
    ensures States(t, i) == Row(t, i) * Group(t, i)
    ensures States(t, i + 1) == t.sizes[i] * Row(t, i)
    ensures Row(t, i) >= 1 && States(t, i) >= 1
  {
    CombinationsPositive(t, i, Shared(t, i));
    CombinationsPositive(t, i, t.Context(i));
    if i + 1 >= t.order { CombinationsSplit(t, i, t.Context(i)); }
  }

  lemma QuotientInRow(t: Lattice, i: nat, q: nat)
    requires t.Valid() && i < |t.sizes| && q < States(t, i)
    ensures 0 <= q / Group(t, i) < Row(t, i) == t.Combinations(i, Shared(t, i))
  {
    Counts(t, i);
    DivBound(q, Row(t, i), Group(t, i));
  }

  /** The state that a tag and the `q`-th predecessor lead to. */
  function StateOf(t: Lattice, i: nat, tag: nat, q: nat): (w: seq<int>)
    requires t.Valid() && i < |t.sizes| && tag < t.sizes[i] && q < States(t, i)
    ensures t.IsState(i + 1, w)
  {
    QuotientInRow(t, i, q);
    var shared := Tuple(t, i, Shared(t, i), q / Group(t, i));
    RecentPrepend(t, i, tag, shared);
    [tag] + shared
  }

  /** Its number among the states of position `i + 1`. */
  function RankOf(t: Lattice, i: nat, tag: nat, q: nat): (r: nat)
    requires t.Valid() && i < |t.sizes| && tag < t.sizes[i] && q < States(t, i)
    ensures r < States(t, i + 1)
  {
    QuotientInRow(t, i, q);
    Counts(t, i);
    ProductBound(tag, t.sizes[i], q / Group(t, i), Row(t, i));
    tag * Row(t, i) + q / Group(t, i)
  }

  lemma RankTuple(t: Lattice, i: nat, tag: nat, q: nat)
    requires t.Valid() && i < |t.sizes| && tag < t.sizes[i] && q < States(t, i)
    ensures Tuple(t, i + 1, t.Context(i + 1), RankOf(t, i, tag, q)) == StateOf(t, i, tag, q)
  {
    QuotientInRow(t, i, q);
    TuplePrepend(t, i, Shared(t, i), tag, q / Group(t, i));
  }

  lemma PredecessorTuple(t: Lattice, i: nat, q: nat)
    requires t.Valid() && i < |t.sizes| && q < States(t, i)
    ensures q / Group(t, i) < Row(t, i)
    ensures var shared := Tuple(t, i, Shared(t, i), q / Group(t, i));
      Tuple(t, i, t.Context(i), q) == if i + 1 < t.order then shared else shared + [q % Group(t, i)]
    ensures Tuple(t, i, t.Context(i), q)[..Shared(t, i)] == Tuple(t, i, Shared(t, i), q / Group(t, i))
  {
    hide Tuple, Lattice.Combinations;
    QuotientInRow(t, i, q);
    var shared := Tuple(t, i, Shared(t, i), q / Group(t, i));
    if i + 1 >= t.order {
      TupleSplit(t, i, t.Context(i), q);
      assert (shared + [q % Group(t, i)])[..|shared|] == shared;
    } else {
      assert Shared(t, i) == t.Context(i) && q / Group(t, i) == q;
      assert shared[..|shared|] == shared;
    }
  }

  /** The kept path of the `q`-th predecessor, with a tag appended. */
  function Candidate(t: Lattice, i: nat, tag: nat, q: nat): (p: seq<int>)
    requires t.Valid() && i < |t.sizes| && tag < t.sizes[i] && q < States(t, i)
    ensures t.IsPath(p) && |p| == i + 1
  {
    t.Best(i, Tuple(t, i, t.Context(i), q)) + [tag]
  }

  /** The path kept for a state after its first `x + 1` predecessors. */
  function Partial(t: Lattice, i: nat, w: seq<int>, x: nat): (p: seq<int>)
    requires t.Valid() && i < |t.sizes| && t.IsState(i + 1, w) && x < Group(t, i)
    ensures t.IsPath(p) && |p| == i + 1
  {
    if i + 1 < t.order then t.Best(i + 1, w) else t.BestOf(i + 1, w, x + 1)
  }

  /** Processing one more predecessor of a state. */
  lemma PartialStep(t: Lattice, i: nat, tag: nat, q: nat)
    requires t.Valid() && i < |t.sizes| && tag < t.sizes[i] && q < States(t, i)
    ensures var w, x, candidate := StateOf(t, i, tag, q), q % Group(t, i), Candidate(t, i, tag, q);
      Partial(t, i, w, x) ==
        if x > 0 && t.PathScore(candidate) <= t.PathScore(Partial(t, i, w, x - 1)) then Partial(t, i, w, x - 1)
          else candidate
  {
    hide Lattice.PathScore;
    var w, x := StateOf(t, i, tag, q), q % Group(t, i);
    PredecessorTuple(t, i, q);
    assert w[1..] == Tuple(t, i, Shared(t, i), q / Group(t, i));
    if i + 1 >= t.order {
      assert t.Extension(i + 1, w, x) == Candidate(t, i, tag, q);
    }
  }

  lemma PartialComplete(t: Lattice, i: nat, w: seq<int>)
    requires t.Valid() && i < |t.sizes| && t.IsState(i + 1, w)
    ensures Partial(t, i, w, Group(t, i) - 1) == t.Best(i + 1, w)
  {
  }

  /** The common prefix of two windows that the decoder counts. */
  predicate CommonPrefix(v: seq<int>, w: seq<int>, limit: nat, same: nat) {
    && same <= limit <= |v| && limit <= |w|
    && v[..same] == w[..same] && (same < limit ==> v[same] != w[same])
  }

  /** Comparing the windows of successive pairs tells exactly whether they lead to the same state. */
  lemma SameTagsMeansSameState(t: Lattice, i: nat, tag: nat, q: nat, windowSize: nat, last: seq<int>, same: nat)
    requires t.Valid() && i < |t.sizes| && tag < t.sizes[i] && q < States(t, i) && windowSize >= t.order
    requires if q > 0 then last == Candidate(t, i, tag, q - 1) else last == [] || last[|last| - 1] != tag
    requires CommonPrefix(Window(last, windowSize), Window(Candidate(t, i, tag, q), windowSize),
                          if i + 1 < windowSize then i + 1 else windowSize, same)
    ensures same >= t.order - 1 <==> q % Group(t, i) != 0
  {
    hide Tuple, Lattice.Combinations, Lattice.Best;
    var candidate := Candidate(t, i, tag, q);
    var v, w := Window(last, windowSize), Window(candidate, windowSize);
    if q == 0 {
      assert w[0] == tag && v[0] != tag;
      assert same == 0;
    } else {
      SuccessivePredecessors(t, i, q);
      var k := t.Context(i);
      WindowExtend(t.Best(i, Tuple(t, i, k, q - 1)), tag, windowSize);
      WindowExtend(t.Best(i, Tuple(t, i, k, q)), tag, windowSize);
      WindowPrefix(t.Best(i, Tuple(t, i, k, q - 1)), k, windowSize - 1);
      WindowPrefix(t.Best(i, Tuple(t, i, k, q)), k, windowSize - 1);
      assert v[1..][..k] == Tuple(t, i, k, q - 1) && w[1..][..k] == Tuple(t, i, k, q);
      WindowsOfPair(v, w, Tuple(t, i, k, q - 1), Tuple(t, i, k, q), Shared(t, i), if i + 1 < windowSize then i + 1
        else windowSize, same);
    }
  }

  /** Two successive predecessors share all but the oldest tag iff they are in one group. */
  lemma SuccessivePredecessors(t: Lattice, i: nat, q: nat)
    requires t.Valid() && i < |t.sizes| && 0 < q < States(t, i)
    ensures var a, b, e := Tuple(t, i, t.Context(i), q - 1), Tuple(t, i, t.Context(i), q), Shared(t, i);
      a != b && (a[..e] == b[..e] <==> q % Group(t, i) != 0)
  {
    hide Tuple, Lattice.Combinations, LexBefore;
    PredecessorTuple(t, i, q - 1);
    PredecessorTuple(t, i, q);
    TupleOrder(t, i, t.Context(i), q - 1, q);
    LexBeforeDistinct(Tuple(t, i, t.Context(i), q - 1), Tuple(t, i, t.Context(i), q));
    QuotientTuples(t, i, Shared(t, i), Group(t, i), q);
  }

  lemma QuotientTuples(t: Lattice, i: nat, e: nat, g: nat, q: nat)
    requires t.Valid() && e <= i <= |t.sizes| && g > 0 && q > 0 && q / g < t.Combinations(i, e)
    ensures 0 <= (q - 1) / g < t.Combinations(i, e)
    ensures Tuple(t, i, e, (q - 1) / g) == Tuple(t, i, e, q / g) <==> q % g != 0
  {
    hide Tuple, Lattice.Combinations, LexBefore;
    SuccessiveQuotients(q, g);
    Division(q, g);
    DivMonotone(0, q - 1, g);
    if q % g == 0 {
      TupleOrder(t, i, e, (q - 1) / g, q / g);
      LexBeforeDistinct(Tuple(t, i, e, (q - 1) / g), Tuple(t, i, e, q / g));
    }
  }

  lemma WindowsOfPair(v: seq<int>, w: seq<int>, a: seq<int>, b: seq<int>, e: nat, limit: nat, same: nat)
    requires |a| == |b| && e <= |a| < |v| && |v| == |w| && v[0] == w[0]
    requires v[1..][..|a|] == a && w[1..][..|a|] == b && a != b
    requires CommonPrefix(v, w, limit, same) && limit >= |a| + 1
    ensures same >= e + 1 <==> a[..e] == b[..e]
  {
    forall j | 0 <= j < |a|
      ensures v[j + 1] == a[j] && w[j + 1] == b[j]
    {
      assert v[1..][..|a|][j] == v[1..][j] == v[j + 1];
      assert w[1..][..|a|][j] == w[1..][j] == w[j + 1];
    }
    if same >= e + 1 {
      forall j | 0 <= j < e
        ensures a[j] == b[j]
      {
        assert v[j + 1] == v[..same][j + 1] == w[..same][j + 1] == w[j + 1];
      }
    } else {
      assert same > 0 by { assert v[0] == w[0]; }
      assert a[same - 1] != b[same - 1];
      assert a[..e][same - 1] == a[same - 1] && b[..e][same - 1] == b[same - 1];
    }
  }
}
