/** Choices of parents, cycles and limits, said of the possible parents, senses and comments themselves
    (src/derivator/derivator_dictionary_encoder.cpp, src/derivator/derivator_dictionary.cpp). */
module DerivationLaws {
  import opened ClassFactoring
  import opened DerivationForest
  import opened DerivatorEncoder
  import opened DerivationEndToEnd

  /** What the choice leaves of what is known, and the parent it gives a lemma. */
  lemma ChosenMeans(before: Derinet, x: Text)
    requires ParentsOk(before) && x in before
    ensures Chosen(before).Keys == before.Keys
    ensures Chosen(before)[x].sense == before[x].sense && Chosen(before)[x].comment == before[x].comment
    ensures var p := Chosen(before)[x].parent;
      && (if before[x].parents == {} then p == [] else p in before[x].parents && p in before)
      && ((exists q <- before[x].parents :: before[q].sense == before[x].sense) ==>
            && before[p].sense == before[x].sense
            && forall q <- before[x].parents :: before[q].sense == before[x].sense ==> TextLeq(p, q))
      && ((forall q <- before[x].parents :: before[q].sense != before[x].sense) ==>
            forall q <- before[x].parents :: TextLeq(p, q))
    ensures Chosen(before)[x].children == |set y | y in before && Chosen(before)[y].parent == x|
  {
    hide TextLeq, Choice, ParentsOk, ChosenParent, SameSense;
    ChoiceExists(before, x);
    ChoiceMeans(before, x, ChosenParent(before, x));
    ChildrenCounted(before, x);
  }

  lemma ChildrenCounted(before: Derinet, x: Text)
    requires x in before
    ensures Chosen(before).Keys == before.Keys
    ensures Chosen(before)[x].children == |set y | y in before && Chosen(before)[y].parent == x|
  {
    hide ChosenParent;
    assert (set y | y in before && Chosen(before)[y].parent == x) == ChoosersOf(before, x);
  }

  /** There is a cycle exactly if some lemmas are each the child of the next, and the last of the first. */
  lemma CycleMeans(d: Derinet)
    requires [] !in d
    ensures HasCycle(d) <==> exists c: seq<Text> ::
      && c != [] && (forall i :: 0 <= i < |c| ==> c[i] in d)
      && (forall i :: 0 < i < |c| ==> d[c[i - 1]].parent == c[i]) && d[c[|c| - 1]].parent == c[0]
  {
    hide Up;
    if HasCycle(d) {
      var x :| OnCycle(d, x);
      var n: nat :| n > 0 && Up(d, x, n) == x;
      var c := CycleAround(d, x, n);
    }
    if c: seq<Text> :|
      && c != [] && (forall i :: 0 <= i < |c| ==> c[i] in d)
      && (forall i :: 0 < i < |c| ==> d[c[i - 1]].parent == c[i]) && d[c[|c| - 1]].parent == c[0]
    {
      PathUp(d, c, 0, |c| - 1);
      UpPlus(d, c[0], |c| - 1, 1);
      UpSteps(d, c[|c| - 1]);
      assert OnCycle(d, c[0]);
    }
  }

  lemma CycleAround(d: Derinet, x: Text, n: nat) returns (c: seq<Text>)
    requires [] !in d && x in d && n > 0 && Up(d, x, n) == x
    ensures c != [] && forall i :: 0 <= i < |c| ==> c[i] in d
    ensures (forall i :: 0 < i < |c| ==> d[c[i - 1]].parent == c[i]) && d[c[|c| - 1]].parent == c[0]
  {
    c := seq(n, i requires 0 <= i < n => Up(d, x, i));
    forall i | 0 <= i < n
      ensures Up(d, x, i) in d && d[Up(d, x, i)].parent == Up(d, x, i + 1)
    {
      UpPlus(d, x, i + 1, n - i - 1);
      StaysEmpty(d, n - i - 1);
    }
  }

  /** What encoding accepts, number by number. */
  lemma AcceptableMeans(before: Derinet)
    requires ParentsOk(before)
    ensures Acceptable(before) <==>
      && !HasCycle(Chosen(before)) && |before| < 0x1_0000_0000
      && (forall x <- before :: |x| < 0xFF && |before[x].comment| < 0x100)
      && forall x <- before :: |set y | y in before && Chosen(before)[y].parent == x| < 0x1_0000
  {
    hide HasCycle, Chosen, TextLeq, ParentsOk, ChosenParent;
    var d := Chosen(before);
    forall x | x in before
      ensures d.Keys == before.Keys && d[x].comment == before[x].comment
      ensures d[x].parent == [] || d[x].parent in before
      ensures d[x].children == |set y | y in before && Chosen(before)[y].parent == x|
    {
      ChosenMeans(before, x);
    }
    ChosenKeys(before);
    assert |d| == |d.Keys| == |before.Keys| == |before|;
  }

  /** A lemma is below another exactly if some chain of parents leads from the one to the other. */
  lemma UnderMeans(d: Derinet, y: Text, x: Text)
    requires [] !in d && x in d
    ensures Under(d, y, x) <==> exists c: seq<Text> ::
      && c != [] && c[0] == y && c[|c| - 1] == x && (forall i :: 0 <= i < |c| ==> c[i] in d)
      && forall i :: 0 < i < |c| ==> d[c[i - 1]].parent == c[i]
  {
    hide Up;
    if n: nat :| Up(d, y, n) == x { var _ := ChainUpTo(d, y, x, n); }
    if c: seq<Text> :|
      && c != [] && c[0] == y && c[|c| - 1] == x && (forall i :: 0 <= i < |c| ==> c[i] in d)
      && forall i :: 0 < i < |c| ==> d[c[i - 1]].parent == c[i]
    {
      PathUp(d, c, 0, |c| - 1);
    }
  }

  lemma {:induction false} ChainUpTo(d: Derinet, y: Text, x: Text, n: nat) returns (c: seq<Text>)
    requires [] !in d && x in d && Up(d, y, n) == x
    ensures c != [] && c[0] == y && c[|c| - 1] == x && forall i :: 0 <= i < |c| ==> c[i] in d
    ensures forall i :: 0 < i < |c| ==> d[c[i - 1]].parent == c[i]
    decreases n
  {
    if n == 0 {
      c := [x];
    } else {
      var z := Up(d, y, n - 1);
      c := ChainUpTo(d, y, z, n - 1);
      c := c + [x];
    }
  }
}
