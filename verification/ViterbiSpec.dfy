/** What k-th order Viterbi decoding (src/tagger/viterbi.h) means: tag paths over a lattice of
    analyses, their scores, and a table of best paths indexed by the most recent tags. */
module ViterbiSpec {

  /** The `k` most recent tags of a path, latest first, with -1 before the sentence. */
  function Window(p: seq<int>, k: nat): (w: seq<int>)
    ensures |w| == k
    ensures forall j :: 0 <= j < k ==> w[j] == if j < |p| then p[|p| - 1 - j] else -1
  {
    seq(k, j requires 0 <= j < k => if j < |p| then p[|p| - 1 - j] else -1)
  }

  lemma WindowPrefix(p: seq<int>, j: nat, k: nat)
    requires j <= k
    ensures Window(p, k)[..j] == Window(p, j)
  {
  }

  lemma WindowExtend(p: seq<int>, tag: int, k: nat)
    requires k >= 1
    ensures Window(p + [tag], k) == [tag] + Window(p, k - 1)
  {
  }

  /** The sentence as the decoder sees it: `sizes[i]` analyses of word `i`, a decoding order, and
      the score that the last position of a path contributes. */
  datatype Lattice = Lattice(sizes: seq<nat>, order: nat, step: seq<int> -> int) {

    predicate Valid() {
      order >= 2 && forall i :: 0 <= i < |sizes| ==> sizes[i] >= 1
    }

    /** A choice of one analysis for each of the first `|p|` words. */
    predicate IsPath(p: seq<int>) {
      |p| <= |sizes| && forall j :: 0 <= j < |p| ==> 0 <= p[j] < sizes[j]
    }

    /** A list of tags, latest first, for the last words before position `len`. */
    predicate IsRecent(len: nat, w: seq<int>) {
      |w| <= len <= |sizes| && forall j :: 0 <= j < |w| ==> 0 <= w[j] < sizes[len - 1 - j]
    }

    /** Number of tags that distinguish the states at position `len`. */
    function Context(len: nat): (k: nat)
      requires order >= 1
      ensures k <= len
    {
      if len < order - 1 then len else order - 1
    }

    /** A state: the recent tags that the decoder distinguishes. */
    predicate IsState(len: nat, w: seq<int>)
      requires order >= 1
    {
      IsRecent(len, w) && |w| == Context(len)
    }

    /** Number of combinations of the last `k` tags before position `len`. */
    function Combinations(len: nat, k: nat): nat
      requires k <= len <= |sizes|
    {
      if k == 0 then 1 else sizes[len - 1] * Combinations(len - 1, k - 1)
    }

    /** The decoder does not score a position that has a single combination. */
    predicate Skipped(i: nat)
      requires order >= 1 && i < |sizes|
    {
      Combinations(i, Context(i)) == 1 && sizes[i] == 1
    }

    /** Score of a path, all positions being scored. */
    function TotalScore(p: seq<int>): int {
      if p == [] then 0 else TotalScore(p[..|p| - 1]) + step(p)
    }

    /** Score of a path as the decoder counts it. */
    function PathScore(p: seq<int>): int
      requires order >= 1 && IsPath(p)
    {
      if p == [] then 0 else PathScore(p[..|p| - 1]) + if Skipped(|p| - 1) then 0 else step(p)
    }

    /** The table of the decoder: the path kept for the state of the recent tags `w`. */
    function Best(len: nat, w: seq<int>): (p: seq<int>)
      requires Valid() && IsState(len, w)
      ensures IsPath(p) && |p| == len && Window(p, |w|) == w
      decreases len, 1, 0
    {
      if len == 0 then []
      else if len < order then
        var rest := Best(len - 1, w[1..]);
        WindowExtend(rest, w[0], |w|);
        rest + [w[0]]
      else BestOf(len, w, sizes[len - order])
    }

    /** The best extension among the first `m` predecessors of a state, the first one winning ties. */
    function BestOf(len: nat, w: seq<int>, m: nat): (p: seq<int>)
      requires Valid() && IsState(len, w) && len >= order && 1 <= m <= sizes[len - order]
      ensures IsPath(p) && |p| == len && Window(p, |w|) == w
      decreases len, 0, m
    {
      var candidate := Extension(len, w, m - 1);
      if m == 1 then candidate
      else
        var best := BestOf(len, w, m - 1);
        if PathScore(candidate) <= PathScore(best) then best else candidate
    }

    /** The kept path of the predecessor whose oldest tag is `x`, extended to the state `w`. */
    function Extension(len: nat, w: seq<int>, x: nat): (p: seq<int>)
      requires Valid() && IsState(len, w) && len >= order && x < sizes[len - order]
      ensures IsPath(p) && |p| == len && Window(p, |w|) == w
      decreases len, 0, 0
    {
      var rest := Best(len - 1, w[1..] + [x]);
      WindowPrefix(rest, |w| - 1, |w|);
      WindowExtend(rest, w[0], |w|);
      rest + [w[0]]
    }
  }
}
