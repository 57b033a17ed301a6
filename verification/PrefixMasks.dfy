/** Which filters allow the part of a word between an initial prefix and a position to be split into stored
    middle prefixes (src/morpho/morpho_prefix_guesser.h). */
module PrefixMasks {
  import opened Bytes

  type Text = seq<Byte>

  /** Filters as bits, and their numbers. */
  type Mask = bv32
  type Filter = bv5

  predicate Bit(m: Mask, f: Filter) {
    (m >> f) & 1 == 1
  }

  function Or(a: Mask, b: Mask): Mask {
    a | b
  }

  function And(a: Mask, b: Mask): Mask {
    a & b
  }

  lemma BitOr(a: Mask, b: Mask, f: Filter)
    ensures Bit(Or(a, b), f) <==> Bit(a, f) || Bit(b, f)
  {
  }

  lemma BitAnd(a: Mask, b: Mask, f: Filter)
    ensures Bit(And(a, b), f) <==> Bit(a, f) && Bit(b, f)
  {
  }

  lemma NoBits(f: Filter)
    ensures !Bit(0, f)
  {
  }

  /** The masks stored with prefixes; with a prefix, all its non-empty prefixes are stored. */
  type Prefixes = map<Text, Mask>

  ghost predicate Closed(prefixes: Prefixes) {
    forall p <- prefixes :: forall i :: 0 < i < |p| ==> p[..i] in prefixes
  }

  /** The text between two positions is a stored prefix that allows the filter. */
  predicate Allows(form: Text, prefixes: Prefixes, from: nat, to: nat, f: Filter) {
    from < to <= |form| && form[from..to] in prefixes && Bit(prefixes[form[from..to]], f)
  }

  /** The part of the form from the initial prefix up to `m` splits into prefixes that allow the filter. */
  ghost predicate Reach(form: Text, prefixes: Prefixes, initial: nat, mask: Mask, m: nat, f: Filter)
    decreases m
  {
    if m == initial then Bit(mask, f)
    else exists k :: initial <= k < m && Reach(form, prefixes, initial, mask, k, f) && Allows(form, prefixes, k, m, f)
  }

  /** Where the parts of a split end. */
  ghost predicate Split(form: Text, prefixes: Prefixes, cuts: seq<nat>, f: Filter) {
    forall i :: 0 < i < |cuts| ==> Allows(form, prefixes, cuts[i - 1], cuts[i], f)
  }

  /** Reaching a position means that there is a split. */
  lemma {:induction false} ReachIsSplit(form: Text, prefixes: Prefixes, initial: nat, mask: Mask, m: nat, f: Filter)
    ensures Reach(form, prefixes, initial, mask, m, f) ==> exists cuts: seq<nat> ::
      cuts != [] && cuts[0] == initial && cuts[|cuts| - 1] == m && Bit(mask, f) && Split(form, prefixes, cuts, f)
    decreases m
  {
    hide Bit, Allows;
    if Reach(form, prefixes, initial, mask, m, f) {
      if m == initial {
        var cuts := [m];
        assert cuts[0] == initial && cuts[|cuts| - 1] == m && Split(form, prefixes, cuts, f);
      } else {
        var k :| initial <= k < m && Reach(form, prefixes, initial, mask, k, f) && Allows(form, prefixes, k, m, f);
        ReachIsSplit(form, prefixes, initial, mask, k, f);
        var cuts: seq<nat> :| cuts != [] && cuts[0] == initial && cuts[|cuts| - 1] == k && Bit(mask, f)
          && Split(form, prefixes, cuts, f);
        var longer := cuts + [m];
        assert longer[0] == initial && longer[|longer| - 1] == m && Split(form, prefixes, longer, f);
      }
    }
  }

  lemma {:induction false} SplitReaches(form: Text, prefixes: Prefixes, cuts: seq<nat>, mask: Mask, f: Filter)
    requires cuts != [] && Bit(mask, f) && Split(form, prefixes, cuts, f)
    ensures cuts[0] <= cuts[|cuts| - 1] && Reach(form, prefixes, cuts[0], mask, cuts[|cuts| - 1], f)
  {
    hide Bit;
    if |cuts| > 1 {
      var front, n := cuts[..|cuts| - 1], |cuts| - 1;
      SplitReaches(form, prefixes, front, mask, f);
      assert Allows(form, prefixes, cuts[n - 1], cuts[n], f);
    }
  }

  function At(masks: seq<Mask>, j: nat): Mask {
    if j < |masks| then masks[j] else 0
  }

  function Resized(masks: seq<Mask>, n: nat): (r: seq<Mask>)
    ensures |r| == n && forall j :: 0 <= j < n ==> r[j] == At(masks, j)
  {
    if |masks| >= n then masks[..n] else masks + seq(n - |masks|, _ => 0)
  }

  /** What is known about position `j` when the positions before `bound` have been extended. */
  ghost predicate ReachVia(form: Text, prefixes: Prefixes, initial: nat, mask: Mask, bound: nat, j: nat, f: Filter) {
    if j == initial then Bit(mask, f)
    else exists k ::
      initial <= k < j && k < bound && Reach(form, prefixes, initial, mask, k, f) && Allows(form, prefixes, k, j, f)
  }

  ghost predicate Partial(form: Text, prefixes: Prefixes, initial: nat, mask: Mask, bound: nat, masks: seq<Mask>,
                          j: nat) {
    forall f :: Bit(At(masks, j), f) <==> ReachVia(form, prefixes, initial, mask, bound, j, f)
  }

  /** All positions before the bound are final. */
  lemma PartialFinal(form: Text, prefixes: Prefixes, initial: nat, mask: Mask, bound: nat, masks: seq<Mask>, j: nat)
    requires Partial(form, prefixes, initial, mask, bound, masks, j) && initial <= j <= bound
    ensures forall f :: Bit(At(masks, j), f) <==> Reach(form, prefixes, initial, mask, j, f)
  {
    hide Bit, Allows;
    forall f
      ensures ReachVia(form, prefixes, initial, mask, bound, j, f) <==> Reach(form, prefixes, initial, mask, j, f)
    {
    }
  }

  lemma PartialStart(form: Text, prefixes: Prefixes, initial: nat, mask: Mask, masks: seq<Mask>, j: nat)
    requires |masks| == initial + 1 && masks[initial] == mask && initial <= j
    ensures Partial(form, prefixes, initial, mask, initial, masks, j)
  {
    hide Bit, Allows, Reach;
    forall f
      ensures Bit(At(masks, j), f) <==> ReachVia(form, prefixes, initial, mask, initial, j, f)
    {
      NoBits(f);
    }
  }

  lemma ReachViaStep(form: Text, prefixes: Prefixes, initial: nat, mask: Mask, bound: nat, j: nat, f: Filter)
    requires initial <= bound < j
    ensures ReachVia(form, prefixes, initial, mask, bound + 1, j, f) <==>
            ReachVia(form, prefixes, initial, mask, bound, j, f)
            || (Reach(form, prefixes, initial, mask, bound, f) && Allows(form, prefixes, bound, j, f))
  {
    hide Bit, Reach, Allows;
  }

  function Extended(form: Text, prefixes: Prefixes, from: nat, to: nat, reached: Mask, mask: Mask): Mask
    requires from <= to <= |form|
  {
    if form[from..to] in prefixes then Or(mask, And(reached, prefixes[form[from..to]])) else mask
  }

  lemma ExtendedBit(form: Text, prefixes: Prefixes, from: nat, to: nat, reached: Mask, mask: Mask, f: Filter)
    requires from < to <= |form|
    ensures Bit(Extended(form, prefixes, from, to, reached, mask), f) <==>
      Bit(mask, f) || (Bit(reached, f) && Allows(form, prefixes, from, to, f))
  {
    hide Bit, Or, And;
    if form[from..to] in prefixes {
      BitOr(mask, And(reached, prefixes[form[from..to]]), f);
      BitAnd(reached, prefixes[form[from..to]], f);
    }
  }

  /** Extending position `bound` to `j`. */
  lemma PartialExtended(form: Text, prefixes: Prefixes, initial: nat, mask: Mask, bound: nat, next: nat,
                        before: seq<Mask>, after: seq<Mask>, j: nat)
    requires Partial(form, prefixes, initial, mask, bound, before, j) && initial <= bound < j <= |form|
    requires next == bound + 1
    requires forall f :: Bit(At(before, bound), f) <==> Reach(form, prefixes, initial, mask, bound, f)
    requires At(after, j) == Extended(form, prefixes, bound, j, At(before, bound), At(before, j))
    ensures Partial(form, prefixes, initial, mask, next, after, j)
  {
    hide Bit, Reach, Allows, ReachVia, Extended, At;
    forall f
      ensures Bit(At(after, j), f) <==> ReachVia(form, prefixes, initial, mask, next, j, f)
    {
      ExtendedBit(form, prefixes, bound, j, At(before, bound), At(before, j), f);
      ReachViaStep(form, prefixes, initial, mask, bound, j, f);
      assert Bit(At(before, bound), f) <==> Reach(form, prefixes, initial, mask, bound, f);
      assert Bit(At(before, j), f) <==> ReachVia(form, prefixes, initial, mask, bound, j, f);
    }
  }

  lemma PartialKept(form: Text, prefixes: Prefixes, initial: nat, mask: Mask, bound: nat, before: seq<Mask>,
                    after: seq<Mask>, j: nat)
    requires Partial(form, prefixes, initial, mask, bound, before, j) && At(after, j) == At(before, j)
    ensures Partial(form, prefixes, initial, mask, bound, after, j)
  {
    hide Bit, Reach;
  }

  lemma PartialPast(form: Text, prefixes: Prefixes, initial: nat, mask: Mask, bound: nat, next: nat, masks: seq<Mask>,
                    j: nat)
    requires Partial(form, prefixes, initial, mask, bound, masks, j) && j <= bound && next == bound + 1
    ensures Partial(form, prefixes, initial, mask, next, masks, j)
  {
    hide Bit, Reach, Allows;
    forall f
      ensures ReachVia(form, prefixes, initial, mask, bound, j, f) <==>
        ReachVia(form, prefixes, initial, mask, next, j, f)
    {
    }
  }

  ghost predicate AllPartial(form: Text, prefixes: Prefixes, initial: nat, mask: Mask, bound: nat, masks: seq<Mask>) {
    forall j :: initial <= j < |form| ==> Partial(form, prefixes, initial, mask, bound, masks, j)
  }

  /** Extends one position by all stored prefixes that start there; the vector of masks may grow. */
  method Extend(form: Text, prefixes: Prefixes, middle: nat, before: seq<Mask>, ghost initial: nat, ghost mask: Mask)
    returns (masks: seq<Mask>)
    requires Closed(prefixes) && initial <= middle < |before| <= |form|
    requires AllPartial(form, prefixes, initial, mask, middle, before)
    ensures |before| <= |masks| <= |form| && AllPartial(form, prefixes, initial, mask, middle + 1, masks)
    ensures forall j :: 0 <= j <= middle ==> masks[j] == before[j]
  {
    hide Partial, Bit, Reach, Extended, Or, And;
    masks := before;
    ghost var next := middle + 1;
    PartialFinal(form, prefixes, initial, mask, middle, before, middle);
    forall j | initial <= j <= middle
      ensures Partial(form, prefixes, initial, mask, next, masks, j)
    {
      PartialPast(form, prefixes, initial, mask, middle, next, masks, j);
    }
    var i := middle + 1;
    while i < |form| && form[middle..i] in prefixes
      invariant middle < i <= |form| && |before| <= |masks| <= |form|
      invariant forall j :: 0 <= j <= middle ==> masks[j] == before[j]
      invariant forall j :: initial <= j < i ==> Partial(form, prefixes, initial, mask, next, masks, j)
      invariant forall j :: i <= j < |form| ==> Partial(form, prefixes, initial, mask, middle, masks, j)
    {
      ghost var previous := masks;
      var found := prefixes[form[middle..i]];
      if found != 0 {
        if i + 1 > |masks| {
          masks := Resized(masks, i + 1);
        }
        masks := masks[i := Or(masks[i], And(masks[middle], found))];
      } else {
        NothingAdded(At(masks, i), At(masks, middle));
      }
      ExtendedIs(form, prefixes, middle, i, At(previous, middle), At(previous, i));
      OthersKept(form, prefixes, initial, mask, middle, next, previous, masks, i);
      PartialExtended(form, prefixes, initial, mask, middle, next, previous, masks, i);
      i := i + 1;
    }
    forall j | i <= j < |form|
      ensures Partial(form, prefixes, initial, mask, next, masks, j)
    {
      NoLongerPrefix(form, prefixes, middle, i, j);
      NotExtended(form, prefixes, middle, j, At(masks, middle), At(masks, j));
      PartialExtended(form, prefixes, initial, mask, middle, next, masks, masks, j);
    }
  }

  lemma OthersKept(form: Text, prefixes: Prefixes, initial: nat, mask: Mask, middle: nat, next: nat, before: seq<Mask>,
                   after: seq<Mask>, i: nat)
    requires forall j :: initial <= j < i ==> Partial(form, prefixes, initial, mask, next, before, j)
    requires forall j :: i <= j < |form| ==> Partial(form, prefixes, initial, mask, middle, before, j)
    requires forall j: nat :: j != i ==> At(after, j) == At(before, j)
    ensures forall j :: initial <= j < i ==> Partial(form, prefixes, initial, mask, next, after, j)
    ensures forall j :: i < j < |form| ==> Partial(form, prefixes, initial, mask, middle, after, j)
  {
    hide Partial, At;
    forall j | initial <= j < i
      ensures Partial(form, prefixes, initial, mask, next, after, j)
    {
      PartialKept(form, prefixes, initial, mask, next, before, after, j);
    }
    forall j | i < j < |form|
      ensures Partial(form, prefixes, initial, mask, middle, after, j)
    {
      PartialKept(form, prefixes, initial, mask, middle, before, after, j);
    }
  }

  lemma ExtendedIs(form: Text, prefixes: Prefixes, from: nat, to: nat, reached: Mask, mask: Mask)
    requires from <= to <= |form| && form[from..to] in prefixes
    ensures Extended(form, prefixes, from, to, reached, mask) == Or(mask, And(reached, prefixes[form[from..to]]))
  {
  }

  lemma NotExtended(form: Text, prefixes: Prefixes, from: nat, to: nat, reached: Mask, mask: Mask)
    requires from <= to <= |form| && (form[from..to] !in prefixes || reached == 0)
    ensures Extended(form, prefixes, from, to, reached, mask) == mask
  {
    if form[from..to] in prefixes && reached == 0 { ZeroAdds(mask, prefixes[form[from..to]]); }
  }

  lemma NothingAdded(a: Mask, b: Mask)
    ensures Or(a, And(b, 0)) == a
  {
  }

  /** Where a prefix is not stored, no longer one is. */
  lemma NoLongerPrefix(form: Text, prefixes: Prefixes, from: nat, i: nat, j: nat)
    requires Closed(prefixes) && from < i <= j < |form| && form[from..i] !in prefixes
    ensures form[from..j] !in prefixes
  {
    if i < j {
      assert form[from..j][..i - from] == form[from..i];
    }
  }

  /** The masks of all positions after one initial prefix. What the vector held before does not matter. */
  method MiddleMasks(form: Text, prefixes: Prefixes, initial: nat, mask: Mask, before: seq<Mask>)
    returns (masks: seq<Mask>)
    requires Closed(prefixes) && initial < |form|
    ensures initial < |masks| <= |form|
    ensures forall m, f ::
      initial <= m < |form| ==> (Bit(At(masks, m), f) <==> Reach(form, prefixes, initial, mask, m, f))
  {
    hide Partial, Bit, Reach;
    masks := Resized(before, initial);
    masks := masks + [mask];
    forall j | initial <= j < |form|
      ensures Partial(form, prefixes, initial, mask, initial, masks, j)
    {
      PartialStart(form, prefixes, initial, mask, masks, j);
    }
    var middle := initial;
    while middle < |masks|
      invariant initial <= middle <= |masks| <= |form| && initial < |masks|
      invariant AllPartial(form, prefixes, initial, mask, middle, masks)
      decreases |form| - middle
    {
      if masks[middle] == 0 {
        SkipZero(form, prefixes, initial, mask, middle, masks);
      } else {
        masks := Extend(form, prefixes, middle, masks, initial, mask);
      }
      middle := middle + 1;
    }
    forall m | initial <= m < |form|
      ensures forall f :: Bit(At(masks, m), f) <==> Reach(form, prefixes, initial, mask, m, f)
    {
      BeyondEnd(form, prefixes, initial, mask, masks, m);
    }
  }

  /** A position that no filter reaches adds nothing. */
  lemma SkipZero(form: Text, prefixes: Prefixes, initial: nat, mask: Mask, middle: nat, masks: seq<Mask>)
    requires initial <= middle < |masks| <= |form| && masks[middle] == 0
    requires AllPartial(form, prefixes, initial, mask, middle, masks)
    ensures AllPartial(form, prefixes, initial, mask, middle + 1, masks)
  {
    hide Partial, Bit, Reach, Extended, Or, And;
    var next := middle + 1;
    PartialFinal(form, prefixes, initial, mask, middle, masks, middle);
    forall j | initial <= j < |form|
      ensures Partial(form, prefixes, initial, mask, next, masks, j)
    {
      if j <= middle {
        PartialPast(form, prefixes, initial, mask, middle, next, masks, j);
      } else {
        NotExtended(form, prefixes, middle, j, At(masks, middle), At(masks, j));
        PartialExtended(form, prefixes, initial, mask, middle, next, masks, masks, j);
      }
    }
  }

  lemma ZeroAdds(a: Mask, b: Mask)
    ensures Or(a, And(0, b)) == a
  {
  }

  /** Beyond the end of the vector nothing is reached, since every position within has been extended. */
  lemma {:induction false} BeyondEnd(form: Text, prefixes: Prefixes, initial: nat, mask: Mask, masks: seq<Mask>, m: nat)
    requires initial < |masks| <= |form| && AllPartial(form, prefixes, initial, mask, |masks|, masks)
    requires initial <= m < |form|
    ensures forall f :: Bit(At(masks, m), f) <==> Reach(form, prefixes, initial, mask, m, f)
    decreases m
  {
    hide Partial, Bit, Allows;
    if m <= |masks| {
      PartialFinal(form, prefixes, initial, mask, |masks|, masks, m);
    } else {
      forall k | |masks| <= k < m
        ensures Unreached(form, prefixes, initial, mask, k)
      {
        BeyondEnd(form, prefixes, initial, mask, masks, k);
        NoneAt(masks, k);
      }
      assert Partial(form, prefixes, initial, mask, |masks|, masks, m);
      PartialBeyond(form, prefixes, initial, mask, masks, m);
    }
  }

  ghost predicate Unreached(form: Text, prefixes: Prefixes, initial: nat, mask: Mask, k: nat) {
    forall f :: !Reach(form, prefixes, initial, mask, k, f)
  }

  lemma NoneAt(masks: seq<Mask>, k: nat)
    requires k >= |masks|
    ensures forall f :: !Bit(At(masks, k), f)
  {
    forall f: Filter
      ensures !Bit(At(masks, k), f)
    {
      NoBits(f);
    }
  }

  lemma PartialBeyond(form: Text, prefixes: Prefixes, initial: nat, mask: Mask, masks: seq<Mask>, m: nat)
    requires Partial(form, prefixes, initial, mask, |masks|, masks, m) && initial < |masks| < m
    requires forall k :: |masks| <= k < m ==> Unreached(form, prefixes, initial, mask, k)
    ensures forall f :: Bit(At(masks, m), f) <==> Reach(form, prefixes, initial, mask, m, f)
  {
    hide Bit, Allows;
    forall f
      ensures ReachVia(form, prefixes, initial, mask, |masks|, m, f) <==> Reach(form, prefixes, initial, mask, m, f)
    {
      if Reach(form, prefixes, initial, mask, m, f) {
        var k :| initial <= k < m && Reach(form, prefixes, initial, mask, k, f) && Allows(form, prefixes, k, m, f);
        assert |masks| <= k ==> Unreached(form, prefixes, initial, mask, k);
      }
    }
  }

  /** A way to split a form: an initial prefix, middle prefixes up to a position, and the filters that allow
      it. The rest of the form, after the initial prefix, is looked up in the dictionary. */
  datatype Candidate = Candidate(initial: nat, middle: nat, mask: Mask)

  /** The mask of the initial prefix of a given length, zero if it is not stored. */
  function InitialMask(form: Text, initials: Prefixes, full: Mask, initial: nat): Mask
    requires initial <= |form|
  {
    if initial == 0 then full else if form[..initial] in initials then initials[form[..initial]] else 0
  }

  /** The candidates say which filters allow which splits. */
  ghost predicate CandidateOk(form: Text, initials: Prefixes, middles: Prefixes, full: Mask, c: Candidate) {
    && c.initial < c.middle < |form| && c.mask != 0
    && forall f ::
      Bit(c.mask, f) <==> Reach(form, middles, c.initial, InitialMask(form, initials, full, c.initial), c.middle, f)
  }

  /** Some filter allows a split with this initial prefix and these middle prefixes. */
  ghost predicate Reachable(form: Text, initials: Prefixes, middles: Prefixes, full: Mask, initial: nat, middle: nat)
    requires initial <= |form|
  {
    exists f :: Reach(form, middles, initial, InitialMask(form, initials, full, initial), middle, f)
  }

  /** By initial prefix, then by position: no split is listed twice. */
  ghost predicate InOrder(candidates: seq<Candidate>) {
    forall i, j :: 0 <= i < j < |candidates| ==> Before(candidates[i], candidates[j].initial, candidates[j].middle)
  }

  ghost predicate Before(c: Candidate, initial: nat, middle: nat) {
    c.initial < initial || (c.initial == initial && c.middle < middle)
  }

  ghost predicate Listed(candidates: seq<Candidate>, initial: nat, middle: nat) {
    exists c <- candidates :: c.initial == initial && c.middle == middle
  }

  /** Goes through all initial prefixes and, after each, through all middle positions. The vector of masks is
      used again for each initial prefix. */
  method FindCandidates(form: Text, initials: Prefixes, middles: Prefixes, full: Mask)
    returns (candidates: seq<Candidate>)
    requires Closed(initials) && Closed(middles)
    ensures forall c <- candidates :: CandidateOk(form, initials, middles, full, c)
    ensures forall initial, middle ::
      0 <= initial < middle < |form| && Reachable(form, initials, middles, full, initial, middle) ==>
      Listed(candidates, initial, middle)
    ensures InOrder(candidates)
  {
    hide Bit, Reach, Allows;
    candidates := [];
    var masks: seq<Mask> := [];
    var initial := 0;
    while initial < |form| && (initial == 0 || form[..initial] in initials)
      invariant 0 <= initial <= |form|
      invariant forall c <- candidates :: CandidateOk(form, initials, middles, full, c)
      invariant forall i :: 0 <= i < initial ==> ListedAll(form, initials, middles, full, candidates, i)
      invariant InOrder(candidates) && forall c <- candidates :: c.initial < initial
    {
      var mask := if initial == 0 then full else initials[form[..initial]];
      ghost var before := candidates;
      if mask != 0 {
        masks := MiddleMasks(form, middles, initial, mask, masks);
        candidates := Collect(form, initials, middles, full, initial, masks, candidates);
      } else {
        NothingReached(form, initials, middles, full, candidates, initial);
      }
      forall i | 0 <= i < initial
        ensures ListedAll(form, initials, middles, full, candidates, i)
      {
        ListedMore(form, initials, middles, full, before, candidates, i);
      }
      initial := initial + 1;
    }
    forall i | initial <= i < |form|
      ensures ListedAll(form, initials, middles, full, candidates, i)
    {
      assert form[..i] !in initials by { NoLongerInitial(form, initials, initial, i); }
      NothingReached(form, initials, middles, full, candidates, i);
    }
    forall i, middle | 0 <= i < middle < |form| && Reachable(form, initials, middles, full, i, middle)
      ensures Listed(candidates, i, middle)
    {
      assert ListedAll(form, initials, middles, full, candidates, i);
    }
  }

  ghost predicate ListedAll(form: Text, initials: Prefixes, middles: Prefixes, full: Mask, candidates: seq<Candidate>,
                            initial: nat)
    requires initial <= |form|
  {
    forall middle ::
      initial < middle < |form| && Reachable(form, initials, middles, full, initial, middle) ==>
      Listed(candidates, initial, middle)
  }

  lemma ListedMore(form: Text, initials: Prefixes, middles: Prefixes, full: Mask, before: seq<Candidate>,
                   after: seq<Candidate>, i: nat)
    requires i <= |form| && ListedAll(form, initials, middles, full, before, i) && before <= after
    ensures ListedAll(form, initials, middles, full, after, i)
  {
    hide Reach;
    forall middle | i < middle < |form| && Reachable(form, initials, middles, full, i, middle)
      ensures Listed(after, i, middle)
    {
      assert Listed(before, i, middle);
      var c :| c in before && c.initial == i && c.middle == middle;
      assert c in after;
    }
  }

  lemma NoLongerInitial(form: Text, initials: Prefixes, initial: nat, i: nat)
    requires Closed(initials) && 0 < initial <= i < |form| && form[..initial] !in initials
    ensures form[..i] !in initials
  {
    if initial < i { assert form[..i][..initial] == form[..initial]; }
  }

  /** Without an initial mask nothing is reached. */
  lemma NothingReached(form: Text, initials: Prefixes, middles: Prefixes, full: Mask, candidates: seq<Candidate>,
                       initial: nat)
    requires initial <= |form| && InitialMask(form, initials, full, initial) == 0
    ensures ListedAll(form, initials, middles, full, candidates, initial)
  {
    hide Bit, Allows;
    forall middle: nat, f
      ensures !Reach(form, middles, initial, 0, middle, f)
    {
      ReachNeedsBit(form, middles, initial, 0, middle, f);
      NoBits(f);
    }
  }

  lemma {:induction false} ReachNeedsBit(form: Text, prefixes: Prefixes, initial: nat, mask: Mask, m: nat, f: Filter)
    ensures Reach(form, prefixes, initial, mask, m, f) ==> Bit(mask, f)
    decreases m
  {
    hide Bit, Allows;
    if m != initial && Reach(form, prefixes, initial, mask, m, f) {
      var k :| initial <= k < m && Reach(form, prefixes, initial, mask, k, f) && Allows(form, prefixes, k, m, f);
      ReachNeedsBit(form, prefixes, initial, mask, k, f);
    }
  }

  /** The candidates after one initial prefix. */
  method Collect(form: Text, initials: Prefixes, middles: Prefixes, full: Mask, initial: nat, masks: seq<Mask>,
                 before: seq<Candidate>)
    returns (candidates: seq<Candidate>)
    requires initial < |masks| <= |form|
    requires forall m, f :: initial <= m < |form| ==>
      (Bit(At(masks, m), f) <==> Reach(form, middles, initial, InitialMask(form, initials, full, initial), m, f))
    requires InOrder(before)
    requires forall c <- before :: CandidateOk(form, initials, middles, full, c) && c.initial < initial
    ensures InOrder(candidates) && forall c <- candidates :: c.initial <= initial
    ensures before <= candidates && forall c <- candidates :: CandidateOk(form, initials, middles, full, c)
    ensures ListedAll(form, initials, middles, full, candidates, initial)
  {
    hide Bit, Reach, InitialMask;
    candidates := before;
    for middle := initial + 1 to |masks|
      invariant before <= candidates && forall c <- candidates :: CandidateOk(form, initials, middles, full, c)
      invariant forall m :: initial < m < middle && masks[m] != 0 ==> Listed(candidates, initial, m)
      invariant InOrder(candidates) && forall c <- candidates :: Before(c, initial, middle)
    {
      ghost var previous := candidates;
      if masks[middle] != 0 {
        var c := Candidate(initial, middle, masks[middle]);
        assert At(masks, middle) == c.mask;
        assert CandidateOk(form, initials, middles, full, c);
        candidates := candidates + [c];
        assert c in candidates && Listed(candidates, initial, middle);
      }
      forall m | initial < m < middle && masks[m] != 0
        ensures Listed(candidates, initial, m)
      {
        var c :| c in previous && c.initial == initial && c.middle == m;
        assert c in candidates;
      }
    }
    forall middle | initial < middle < |form| && Reachable(form, initials, middles, full, initial, middle)
      ensures Listed(candidates, initial, middle)
    {
      var f :| Reach(form, middles, initial, InitialMask(form, initials, full, initial), middle, f);
      assert Bit(At(masks, middle), f);
      NoBits(f);
      assert At(masks, middle) != 0;
    }
  }

  // ----- In so many words

  /** The filter with the number `f` has the bit `1 << f`. */
  lemma BitOfOne(f: Filter, g: Filter)
    ensures Bit(1 << f, g) <==> f == g
  {
  }

  /** What a candidate allows: exactly the filters whose bit is set in the full mask, or with the initial prefix if that
      is not empty, and with each part of some way to split the text up to the middle into stored prefixes. */
  lemma CandidateMeans(form: Text, initials: Prefixes, middles: Prefixes, full: Mask, c: Candidate, f: Filter)
    requires CandidateOk(form, initials, middles, full, c)
    ensures c.initial < c.middle < |form| && c.mask != 0
    ensures Bit(c.mask, f) <==>
      && (if c.initial == 0 then Bit(full, f)
          else form[..c.initial] in initials && Bit(initials[form[..c.initial]], f))
      && exists cuts: seq<nat> ::
           && cuts != [] && cuts[0] == c.initial && cuts[|cuts| - 1] == c.middle
           && forall i :: 0 < i < |cuts| ==> Allows(form, middles, cuts[i - 1], cuts[i], f)
  {
    hide Allows, Reach, Bit;
    var mask := InitialMask(form, initials, full, c.initial);
    NoBits(f);
    ReachIsSplit(form, middles, c.initial, mask, c.middle, f);
    ReachNeedsBit(form, middles, c.initial, mask, c.middle, f);
    if cuts: seq<nat> :|
      && cuts != [] && cuts[0] == c.initial && cuts[|cuts| - 1] == c.middle
      && forall i :: 0 < i < |cuts| ==> Allows(form, middles, cuts[i - 1], cuts[i], f)
    {
      if Bit(mask, f) { SplitReaches(form, middles, cuts, mask, f); }
    }
  }

  /** A part of a split: not empty, stored, and its mask has the bit of the filter. */
  lemma AllowsMeans(form: Text, prefixes: Prefixes, from: nat, to: nat, f: Filter)
    ensures Allows(form, prefixes, from, to, f) <==>
      from < to <= |form| && form[from..to] in prefixes && Bit(prefixes[form[from..to]], f)
  {
  }

  /** Whatever way to split there is, it is among the candidates that are found. */
  lemma SplitIsListed(form: Text, initials: Prefixes, middles: Prefixes, full: Mask, candidates: seq<Candidate>,
                      cuts: seq<nat>, f: Filter)
    requires forall c <- candidates :: CandidateOk(form, initials, middles, full, c)
    requires forall initial, middle ::
      0 <= initial < middle < |form| && Reachable(form, initials, middles, full, initial, middle) ==>
      Listed(candidates, initial, middle)
    requires cuts != [] && cuts[0] < cuts[|cuts| - 1] < |form|
    requires if cuts[0] == 0 then Bit(full, f) else form[..cuts[0]] in initials && Bit(initials[form[..cuts[0]]], f)
    requires forall i :: 0 < i < |cuts| ==>
      && cuts[i - 1] < cuts[i] <= |form| && form[cuts[i - 1]..cuts[i]] in middles
      && Bit(middles[form[cuts[i - 1]..cuts[i]]], f)
    ensures exists c <- candidates :: c.initial == cuts[0] && c.middle == cuts[|cuts| - 1] && Bit(c.mask, f)
  {
    hide Reach, Bit;
    var mask := InitialMask(form, initials, full, cuts[0]);
    SplitReaches(form, middles, cuts, mask, f);
    assert Reachable(form, initials, middles, full, cuts[0], cuts[|cuts| - 1]);
    var c :| c in candidates && c.initial == cuts[0] && c.middle == cuts[|cuts| - 1];
    assert CandidateOk(form, initials, middles, full, c);
  }
}
