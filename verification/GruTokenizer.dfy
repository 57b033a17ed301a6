/** Splitting text into tokens and sentences by the outcomes of a network, which looks at a window of the
    text at a time (src/tokenizer/gru_tokenizer.cpp). The outcomes are arbitrary, and so are the addresses
    recognised, except that they contain no space. */
module GruTokenizer {
  import opened Bytes

  /** A character with those of its categories that matter. */
  datatype Char = Char(chr: nat, zs: bool, p: bool, po: bool)

  datatype Outcome = NoSplit | EndOfToken | EndOfSentence

  datatype Token = Token(start: nat, length: nat) {
    function End(): nat { start + length }
  }

  /** What the network said of a part of the text: where its steps start, how they end, and how many are used. */
  datatype Window = Window(offsets: seq<nat>, outcomes: seq<Outcome>, length: nat)

  /** A step taken through the text, how it ended, and which step of which window it was. */
  datatype Taken = Taken(from: nat, to: nat, outcome: Outcome, window: Window, k: nat)

  function StepOf(w: Window, k: nat): Taken
    requires k + 1 < |w.offsets| && k < |w.outcomes|
  {
    Taken(w.offsets[k], w.offsets[k + 1], w.outcomes[k], w, k)
  }

  /** The steps of each window are taken in order, and a new window is begun only when one is used up. */
  ghost predicate InTurn(steps: seq<Taken>) {
    steps != [] ==> steps[0].k == 0 && forall i :: 0 <= i < |steps| - 1 ==> Follows(steps[i], steps[i + 1])
  }

  ghost predicate Follows(s: Taken, next: Taken) {
    || (next.window == s.window && next.k == s.k + 1)
    || (s.k + 1 == s.window.length && next.k == 0)
  }

  lemma InTurnNext(steps: seq<Taken>, s: Taken)
    requires InTurn(steps) && if steps == [] then s.k == 0 else Follows(steps[|steps| - 1], s)
    ensures InTurn(steps + [s])
  {
  }

  const SPACE := Char(32, true, false, false)

  predicate IsSpaceChar(c: Char) {
    c.zs || c.chr == 13 || c.chr == 10 || c.chr == 9
  }

  /** The text ends with a character that is not a space and belongs to no token. */
  predicate TextOk(chars: seq<Char>) {
    |chars| > 0 && !IsSpaceChar(chars[|chars| - 1])
  }

  /** Positions between two others are all spaces. */
  ghost predicate AllSpaces(chars: seq<Char>, from: nat, to: nat) {
    to <= |chars| && forall k :: from <= k < to ==> IsSpaceChar(chars[k])
  }

  ghost predicate NoSpaces(chars: seq<Char>, from: nat, to: nat) {
    to <= |chars| && forall k :: from <= k < to ==> !IsSpaceChar(chars[k])
  }

  /** A recogniser of addresses returns the end of the one that starts at a position, or that position. */
  ghost predicate RecogniserOk(url: (seq<Char>, nat) -> nat) {
    forall chars, i: nat :: i < |chars| - 1 ==> i <= url(chars, i) <= |chars| - 1 && NoSpaces(chars, i, url(chars, i))
  }

  ghost predicate NetworkOk(network: seq<Char> -> seq<Outcome>) {
    forall chars :: |network(chars)| == |chars|
  }

  lemma NetworkAnswers(network: seq<Char> -> seq<Outcome>, chars: seq<Char>)
    requires NetworkOk(network)
    ensures |network(chars)| == |chars|
  {
  }

  /** One step through the text: a character that is not a space, or all spaces up to the next such. */
  ghost predicate Step(chars: seq<Char>, from: nat, to: nat) {
    && from < to < |chars|
    && if IsSpaceChar(chars[from]) then AllSpaces(chars, from, to) && (to == |chars| - 1 || !IsSpaceChar(chars[to]))
       else to == from + 1
  }

  /** The window: consecutive steps. */
  ghost predicate Steps(chars: seq<Char>, offsets: seq<nat>) {
    offsets != [] && offsets[|offsets| - 1] < |chars|
      && forall k :: 0 <= k < |offsets| - 1 ==> Step(chars, offsets[k], offsets[k + 1])
  }

  /** What the network sees of the steps: each run of spaces as one. */
  ghost function Shown(chars: seq<Char>, offsets: seq<nat>): (r: seq<Char>)
    requires Steps(chars, offsets)
    ensures |r| == |offsets| - 1
  {
    seq(|offsets| - 1, k requires 0 <= k < |offsets| - 1 =>
      StepBounds(chars, offsets, k);
      if IsSpaceChar(chars[offsets[k]]) then SPACE else chars[offsets[k]])
  }

  /** The outcome of a step after spaces have been looked at. Before spaces a sentence ends if the network says
      so of the spaces, if they hold an empty line, or if the window ends with them; a token ends if it may
      hold no spaces or the network says so of them. */
  ghost function Adjusted(chars: seq<Char>, offsets: seq<nat>, outcomes: seq<Outcome>, length: nat, allowSpaces: bool,
                          k: nat): Outcome
    requires k + 1 < length <= |outcomes| && |offsets| == length + 1 && Steps(chars, offsets)
  {
    var from, to := offsets[k + 1], offsets[k + 2];
    if !IsSpaceChar(chars[from]) then outcomes[k]
    else if k + 2 == length || outcomes[k + 1] == EndOfSentence || HasBlankLine(chars, from, to) then EndOfSentence
    else if outcomes[k] == NoSplit && (!allowSpaces || outcomes[k + 1] == EndOfToken) then EndOfToken
    else outcomes[k]
  }

  ghost predicate HasBlankLine(chars: seq<Char>, from: nat, to: nat)
    requires to < |chars|
  {
    exists j :: from <= j < to - 1 && BlankLineAt(chars, j, to)
  }

  /** Unless tokens may contain spaces, one ends before each space. */
  ghost predicate SplitBeforeSpaces(chars: seq<Char>, offsets: seq<nat>, outcomes: seq<Outcome>, length: nat) {
    length <= |outcomes| && length < |offsets| && forall k :: 0 <= k < length ==>
      SplitBefore(chars, offsets, outcomes, k)
  }

  ghost predicate SplitBefore(chars: seq<Char>, offsets: seq<nat>, outcomes: seq<Outcome>, k: nat)
    requires k < |outcomes| && k + 1 < |offsets|
  {
    offsets[k] < |chars| && offsets[k + 1] < |chars| &&
    (!IsSpaceChar(chars[offsets[k]]) && offsets[k + 1] < |chars| - 1 && IsSpaceChar(chars[offsets[k + 1]]) ==>
      outcomes[k] != NoSplit)
  }

  /** The tokens so far: in order and apart, each starting with a character that is not a space, and together
      covering all such characters before `upto`. */
  ghost predicate Covered(chars: seq<Char>, tokens: seq<Token>, upto: nat, allowSpaces: bool) {
    && upto <= |chars|
    && (forall i, j :: 0 <= i < j < |tokens| ==> tokens[i].End() <= tokens[j].start)
    && (forall i :: 0 <= i < |tokens| ==> TokenOk(chars, tokens[i], upto, allowSpaces))
    && forall k :: 0 <= k < upto && !IsSpaceChar(chars[k]) ==> Inside(tokens, k)
  }

  /** A position belongs to a token. */
  ghost predicate Inside(tokens: seq<Token>, k: nat) {
    exists i :: 0 <= i < |tokens| && tokens[i].start <= k < tokens[i].End()
  }

  ghost predicate TokenOk(chars: seq<Char>, t: Token, upto: nat, allowSpaces: bool)
    requires upto <= |chars|
  {
    t.length > 0 && t.End() <= upto && !IsSpaceChar(chars[t.start])
      && (!allowSpaces ==> NoSpaces(chars, t.start, t.End()))
  }

  lemma CoveredSpaces(chars: seq<Char>, tokens: seq<Token>, upto: nat, next: nat, allowSpaces: bool)
    requires Covered(chars, tokens, upto, allowSpaces) && upto <= next && AllSpaces(chars, upto, next)
    ensures Covered(chars, tokens, next, allowSpaces)
  {
  }

  lemma CoveredToken(chars: seq<Char>, tokens: seq<Token>, start: nat, end: nat, allowSpaces: bool)
    requires Covered(chars, tokens, start, allowSpaces) && start < end <= |chars| && !IsSpaceChar(chars[start])
    requires !allowSpaces ==> NoSpaces(chars, start, end)
    ensures Covered(chars, tokens + [Token(start, end - start)], end, allowSpaces)
  {
    hide NoSpaces, Inside;
    var t := Token(start, end - start);
    var all := tokens + [t];
    forall i | 0 <= i < |all|
      ensures TokenOk(chars, all[i], end, allowSpaces)
    {
      assert i < |tokens| ==> TokenOk(chars, tokens[i], start, allowSpaces) && all[i] == tokens[i];
    }
    forall i, j | 0 <= i < j < |all|
      ensures all[i].End() <= all[j].start
    {
      assert TokenOk(chars, tokens[i], start, allowSpaces) && all[i] == tokens[i];
    }
    forall k | 0 <= k < end && !IsSpaceChar(chars[k])
      ensures Inside(all, k)
    {
      if k < start { assert Inside(tokens, k); }
      StillInside(tokens, t, k);
    }
  }

  lemma StillInside(tokens: seq<Token>, t: Token, k: nat)
    requires Inside(tokens, k) || t.start <= k < t.End()
    ensures Inside(tokens + [t], k)
  {
    var all := tokens + [t];
    if Inside(tokens, k) {
      var i :| 0 <= i < |tokens| && tokens[i].start <= k < tokens[i].End();
      assert all[i] == tokens[i];
    } else {
      assert all[|tokens|] == t;
    }
  }

  /** No character belongs to two tokens. */
  lemma CoveredOnce(chars: seq<Char>, tokens: seq<Token>, upto: nat, allowSpaces: bool, k: nat, i: nat, j: nat)
    requires Covered(chars, tokens, upto, allowSpaces) && i < |tokens| && j < |tokens|
    requires tokens[i].start <= k < tokens[i].End() && tokens[j].start <= k < tokens[j].End()
    ensures i == j
  {
  }

  /** Consecutive steps lead from one position to another. */
  ghost predicate Path(path: seq<Taken>, from: nat, to: nat) {
    if path == [] then from == to
    else
      var last := path[|path| - 1];
      last.to == to && last.from < to && Path(path[..|path| - 1], from, last.from)
  }

  /** Steps that lead from one position to another start and end there, each where the one before ended. */
  lemma {:induction false} PathSteps(path: seq<Taken>, from: nat, to: nat)
    requires Path(path, from, to) && path != []
    ensures path[0].from == from && path[|path| - 1].to == to
    ensures forall i :: 0 <= i < |path| - 1 ==> path[i].to == path[i + 1].from
  {
    if |path| > 1 { PathSteps(path[..|path| - 1], from, path[|path| - 1].from); }
  }

  lemma PathAppend(path: seq<Taken>, from: nat, s: Taken)
    requires Path(path, from, s.from) && s.from < s.to
    ensures Path(path + [s], from, s.to)
  {
    assert (path + [s])[..|path|] == path;
  }

  lemma NoPath(at: nat)
    ensures Path([], at, at)
  {
  }

  lemma {:induction false} PathInside(path: seq<Taken>, from: nat, to: nat)
    requires Path(path, from, to)
    ensures from <= to && forall s <- path :: from <= s.from < to
  {
    if path != [] { PathInside(path[..|path| - 1], from, path[|path| - 1].from); }
  }

  /** The steps of a token: only the last one splits, or none if the text ends. */
  ghost predicate TokenPath(path: seq<Taken>, t: Token, end: nat) {
    && path != [] && Path(path, t.start, t.End())
    && (forall i :: 0 <= i < |path| - 1 ==> path[i].outcome == NoSplit)
    && (t.End() < end ==> path[|path| - 1].outcome != NoSplit)
  }

  /** A step taken inside a token says that the sentence ends. */
  ghost predicate EndsSentence(steps: seq<Taken>, t: Token) {
    exists s <- steps :: t.start <= s.from < t.End() && s.outcome == EndOfSentence
  }

  /** Steps that start behind a token do not matter for it. */
  lemma EndsSentenceLater(steps: seq<Taken>, more: seq<Taken>, t: Token)
    requires steps <= more && forall s <- more[|steps|..] :: s.from >= t.End()
    ensures EndsSentence(more, t) <==> EndsSentence(steps, t)
  {
    assert more == steps + more[|steps|..];
  }

  /** Two line ends in a row. */
  predicate BlankLineAt(chars: seq<Char>, j: nat, to: nat)
    requires j + 1 < to < |chars|
  {
    || (chars[j].chr == 10 && chars[j + 1].chr == 10)
    || (j + 3 < to && chars[j].chr == 13 && chars[j + 1].chr == 10 && chars[j + 2].chr == 13 && chars[j + 3].chr == 10)
  }

  /** The greatest of the steps from `low` to `n` that splits, or `low`. */
  function LastSplit(outcomes: seq<Outcome>, low: nat, n: nat): (k: nat)
    requires low <= n <= |outcomes|
    ensures low <= k <= n && (k == low || (k < n && outcomes[k] != NoSplit))
    ensures forall j :: k < j < n ==> outcomes[j] == NoSplit
  {
    if n == low then low else if outcomes[n - 1] != NoSplit then n - 1 else LastSplit(outcomes, low, n - 1)
  }

  /** How much of a full window is left. */
  function CutLength(outcomes: seq<Outcome>, segment: nat): (length: nat)
    requires 10 <= segment <= |outcomes|
    ensures segment / 2 <= length <= segment - 5
  {
    LastSplit(outcomes, segment / 2, segment - 5)
  }

  ghost predicate NoneSplits(outcomes: seq<Outcome>, from: nat, to: nat)
    requires to <= |outcomes|
  {
    forall j :: from <= j < to ==> outcomes[j] == NoSplit
  }

  /** What is left of a full window ends with a step that splits iff, of the steps that may be cut off, the last
      one that splits follows another one, or none splits and the one before them does. */
  lemma CutAfterSplit(outcomes: seq<Outcome>, segment: nat)
    requires 10 <= segment <= |outcomes|
    ensures outcomes[CutLength(outcomes, segment) - 1] != NoSplit <==>
      || (exists k :: segment / 2 <= k < segment - 5 && outcomes[k] != NoSplit && outcomes[k - 1] != NoSplit
            && NoneSplits(outcomes, k + 1, segment - 5))
      || (NoneSplits(outcomes, segment / 2, segment - 5) && outcomes[segment / 2 - 1] != NoSplit)
  {
    hide CutLength;
    var length := CutLength(outcomes, segment);
    CutLengthIs(outcomes, segment);
    forall k | segment / 2 <= k < segment - 5 && outcomes[k] != NoSplit && NoneSplits(outcomes, k + 1, segment - 5)
      ensures k == length
    {
    }
  }

  lemma CutLengthIs(outcomes: seq<Outcome>, segment: nat)
    requires 10 <= segment <= |outcomes|
    ensures var k := CutLength(outcomes, segment);
      NoneSplits(outcomes, k + 1, segment - 5) && (k == segment / 2 || (k < segment - 5 && outcomes[k] != NoSplit))
  {
  }

  /** A window whose only split at step 6 is cut off: what is left ends inside a token. */
  lemma CutInsideToken(outcomes: seq<Outcome>)
    requires |outcomes| == 12 && forall k :: 0 <= k < 12 ==> outcomes[k] == if k == 6 then EndOfToken else NoSplit
    ensures CutLength(outcomes, 12) == 6 && outcomes[CutLength(outcomes, 12)] != NoSplit
    ensures outcomes[CutLength(outcomes, 12) - 1] == NoSplit
  {
    assert LastSplit(outcomes, 6, 7) == 6;
  }

  class Tokenizer {
    const segment: nat
    const allowSpaces: bool
    const network: seq<Char> -> seq<Outcome>
    const url: (seq<Char>, nat) -> nat
    var chars: seq<Char>
    var current: nat
    var networkIndex: nat
    var networkLength: nat
    var networkChars: seq<Char>
    var networkOutcomes: seq<Outcome>
    var networkOffsets: seq<nat>
    ghost var steps: seq<Taken>

    ghost predicate Valid()
      reads this
    {
      TextOk(chars) && current < |chars| && segment >= 10 && RecogniserOk(url) && NetworkOk(network)
      && Logged(steps, current)
    }

    /** What the network is shown of the text. */
    ghost function Seen(offsets: seq<nat>): seq<Char>
      requires Steps(chars, offsets)
      reads `chars
    {
      var shown := Shown(chars, offsets);
      shown + if 0 < |shown| < segment && shown[|shown| - 1].chr != 32 then [SPACE] else []
    }

    /** The window holds what the network said of a part of the text, adjusted at spaces, and cut back if it is
        full. */
    ghost predicate IsWindow(w: Window)
      reads `chars
    {
      Steps(chars, w.offsets) && var full, said := |w.offsets| - 1, network(Seen(w.offsets));
      && 0 < full <= segment && (full < segment ==> w.offsets[full] == |chars| - 1)
      && full <= |said| && 10 <= segment && Told(w.offsets, said, w.outcomes)
      && w.length == if full == segment then CutLength(w.outcomes, segment) else full
    }

    ghost predicate Told(offsets: seq<nat>, said: seq<Outcome>, outcomes: seq<Outcome>)
      requires Steps(chars, offsets) && |offsets| - 1 <= |said|
      reads `chars
    {
      && |outcomes| == |said|
      && (forall k ::
        0 <= k < |offsets| - 2 ==> outcomes[k] == Adjusted(chars, offsets, said, |offsets| - 1, allowSpaces, k))
      && forall k :: |offsets| - 2 <= k < |said| && k >= 0 ==> outcomes[k] == said[k]
    }

    /** A step is one of a window. */
    ghost predicate Explained(s: Taken)
      reads `chars
    {
      && IsWindow(s.window) && s.k < s.window.length && s.k + 1 < |s.window.offsets| && s.k < |s.window.outcomes|
      && s == StepOf(s.window, s.k)
    }

    lemma StepExplained(w: Window, k: nat)
      requires IsWindow(w) && k < w.length
      ensures k + 1 < |w.offsets| && k < |w.outcomes| && Step(chars, w.offsets[k], w.offsets[k + 1])
      ensures w.offsets[k] < w.offsets[k + 1] < |chars| && Explained(StepOf(w, k))
    {
      hide Tokenizer.Seen, AllSpaces, Adjusted;
      StepBounds(chars, w.offsets, k);
    }

    /** The steps taken so far are before the current position, each is one of a window, and they are taken in
        turn. */
    ghost predicate Logged(log: seq<Taken>, position: nat)
      reads `chars
    {
      InTurn(log) && (position == 0 ==> log == []) && forall s <- log :: s.from < position && Explained(s)
    }

    lemma LoggedBefore(log: seq<Taken>, position: nat)
      requires Logged(log, position)
      ensures (position == 0 ==> log == []) && forall s <- log :: s.from < position
    {
    }

    lemma LoggedNext(log: seq<Taken>, position: nat, s: Taken, next: nat)
      requires Logged(log, position) && position <= next && s.from < next && Explained(s)
      requires if log == [] then s.k == 0 else Follows(log[|log| - 1], s)
      ensures Logged(log + [s], next)
    {
      InTurnNext(log, s);
    }

    ghost function Current(): Window
      reads `networkLength, `networkOutcomes, `networkOffsets
    {
      Window(networkOffsets, networkOutcomes, networkLength)
    }

    /** What is left in the window continues at a position. */
    ghost predicate WindowHolds(position: nat)
      reads `chars, `networkIndex, `networkLength, `networkOutcomes, `networkOffsets
    {
      networkIndex <= networkLength && (networkIndex < networkLength ==>
        && networkLength < |networkOffsets| && networkLength <= |networkOutcomes|
        && Steps(chars, networkOffsets) && networkOffsets[networkIndex] == position && IsWindow(Current())
        && (!allowSpaces ==> SplitBeforeSpaces(chars, networkOffsets, networkOutcomes, networkLength)))
    }

    /** So it does, and the step taken last is the one before in the window. */
    ghost predicate WindowAt(position: nat)
      reads `chars, `networkIndex, `networkLength, `networkOutcomes, `networkOffsets, `steps
    {
      && WindowHolds(position)
      && if steps == [] then networkIndex == networkLength
         else steps[|steps| - 1].window == Current() && steps[|steps| - 1].k + 1 == networkIndex
    }

    constructor (segment: nat, allowSpaces: bool, network: seq<Char> -> seq<Outcome>, url: (seq<Char>, nat) -> nat)
      requires segment >= 10 && RecogniserOk(url) && NetworkOk(network)
      ensures Valid() && current == 0 && |chars| == 1 && steps == []
    {
      this.segment, this.allowSpaces, this.network, this.url := segment, allowSpaces, network, url;
      chars, current := [Char(0, false, false, false)], 0;
      networkIndex, networkLength := 0, 0;
      networkChars, networkOutcomes, networkOffsets := [], [], [];
      steps := [];
    }

    /** Starts a new text. What the window held is forgotten by the next call for a sentence. */
    method SetText(text: seq<Char>)
      requires Valid()
      modifies this
      ensures Valid() && chars == text + [Char(0, false, false, false)] && current == 0 && steps == []
    {
      chars, current := text + [Char(0, false, false, false)], 0;
      steps := [];
    }

    predicate IsSpace(index: nat)
      requires index < |chars|
      reads this
    {
      IsSpaceChar(chars[index])
    }

    /** The last of the spaces that start here. */
    method LastSpace(from: nat) returns (last: nat)
      requires Valid() && from < |chars| - 1 && IsSpace(from)
      ensures from <= last < |chars| - 1 && Step(chars, from, last + 1)
    {
      last := from;
      while last + 1 < |chars| - 1 && IsSpace(last + 1)
        invariant from <= last < |chars| - 1 && AllSpaces(chars, from, last + 1)
      {
        last := last + 1;
      }
    }

    /** Fills the window from the current position. */
    method FillWindow()
      requires Valid() && current < |chars| - 1
      modifies `networkIndex, `networkLength, `networkChars, `networkOutcomes, `networkOffsets
      ensures Valid() && networkIndex == 0 && 0 < networkLength <= segment
      ensures |networkOffsets| == networkLength + 1 && Steps(chars, networkOffsets) && networkOffsets[0] == current
      ensures networkLength < segment ==> networkOffsets[networkLength] == |chars| - 1
      ensures networkOutcomes == network(Seen(networkOffsets)) && networkLength <= |networkOutcomes|
    {
      hide Shown, Steps, AllSpaces, Step, Tokenizer.Logged, Tokenizer.Seen, RecogniserOk, NetworkOk, TextOk,
        IsSpaceChar;
      networkIndex, networkLength := 0, 0;
      networkChars, networkOutcomes, networkOffsets := [], [], [];
      var offset := current;
      networkOffsets := [offset];
      NoSteps(chars, current);
      while offset < |chars| - 1 && networkLength < segment
        invariant networkIndex == 0 && networkLength <= segment && |networkChars| == networkLength
        invariant networkOutcomes == []
        invariant current <= offset <= |chars| - 1 && (networkLength == 0 ==> offset == current)
        invariant |networkOffsets| == networkLength + 1 && networkOffsets[0] == current
        invariant networkOffsets[networkLength] == offset
        invariant Steps(chars, networkOffsets) && networkChars == Shown(chars, networkOffsets)
      {
        if IsSpace(offset) {
          networkChars := networkChars + [SPACE];
          offset := LastSpace(offset);
        } else {
          networkChars := networkChars + [chars[offset]];
          StepOne(chars, offset);
        }
        networkLength, offset := networkLength + 1, offset + 1;
        ShownAppended(chars, networkOffsets, offset);
        networkOffsets := networkOffsets + [offset];
      }
      if networkLength < segment && networkChars[|networkChars| - 1].chr != 32 {
        networkChars := networkChars + [SPACE];
      }
      SeenIs(networkOffsets);
      NetworkAnswers(network, networkChars);
      networkOutcomes := network(networkChars);
    }

    lemma SeenIs(offsets: seq<nat>)
      requires Steps(chars, offsets)
      ensures var shown := Shown(chars, offsets);
        Seen(offsets) == if 0 < |shown| < segment && shown[|shown| - 1].chr != 32 then shown + [SPACE] else shown
    {
    }

    /** Whether the spaces between two positions contain an empty line. */
    method EmptyLine(from: nat, to: nat) returns (found: bool)
      requires Valid() && to < |chars|
      ensures found <==> HasBlankLine(chars, from, to)
    {
      var j := from;
      found := false;
      while j + 1 < to && !found
        invariant from <= j
        invariant found <==> exists i :: from <= i < j && i < to - 1 && BlankLineAt(chars, i, to)
      {
        found := (chars[j].chr == 10 && chars[j + 1].chr == 10)
              || (j + 3 < to && chars[j].chr == 13 && chars[j + 1].chr == 10 && chars[j + 2].chr == 13
                && chars[j + 3].chr == 10);
        assert found <==> BlankLineAt(chars, j, to);
        j := j + 1;
      }
    }

    /** Ends tokens and sentences before spaces. */
    method SplitAtSpaces()
      requires Valid() && 0 < networkLength <= |networkOutcomes| && |networkOffsets| == networkLength + 1
      requires Steps(chars, networkOffsets)
      modifies `networkOutcomes
      ensures Valid() && |networkOutcomes| == |old(networkOutcomes)|
      ensures Told(networkOffsets, old(networkOutcomes), networkOutcomes)
      ensures !allowSpaces ==> SplitBeforeSpaces(chars, networkOffsets, networkOutcomes, networkLength - 1)
    {
      hide Tokenizer.Logged, RecogniserOk, NetworkOk, TextOk, Steps;
      for i := 0 to networkLength - 1
        invariant |networkOutcomes| == |old(networkOutcomes)|
        invariant forall k ::
          0 <= k < i ==>
          networkOutcomes[k] == Adjusted(chars, networkOffsets, old(networkOutcomes), networkLength, allowSpaces, k)
        invariant forall k :: i <= k < |networkOutcomes| ==> networkOutcomes[k] == old(networkOutcomes)[k]
        invariant !allowSpaces ==> SplitBeforeSpaces(chars, networkOffsets, networkOutcomes, i)
      {
        StepBounds(chars, networkOffsets, i);
        StepBounds(chars, networkOffsets, i + 1);
        ghost var before := networkOutcomes;
        if IsSpace(networkOffsets[i + 1]) {
          var eos := networkOutcomes[i + 1] == EndOfSentence;
          if i + 2 == networkLength {
            eos := true;
          }
          if !eos {
            eos := EmptyLine(networkOffsets[i + 1], networkOffsets[i + 2]);
          }
          if eos {
            networkOutcomes := networkOutcomes[i := EndOfSentence];
          }
          if networkOutcomes[i] == NoSplit {
            if !allowSpaces || networkOutcomes[i + 1] == EndOfToken {
              networkOutcomes := networkOutcomes[i := EndOfToken];
            }
          }
        }
        if !allowSpaces {
          assert SplitBefore(chars, networkOffsets, networkOutcomes, i);
          SplitExtended(chars, networkOffsets, before, networkOutcomes, i);
        }
      }
    }

    /** Shortens a full window. What is left ends before the last step that splits, among those past the middle
        and not among the last five; if none does, half of the window is left. */
    method CutBack()
      requires Valid() && 0 < networkLength <= segment && networkLength <= |networkOutcomes|
      modifies `networkLength
      ensures Valid() && 0 < networkLength <= old(networkLength)
      ensures networkLength == old(networkLength) <==> old(networkLength) < segment
      ensures old(networkLength) == segment ==> networkLength == CutLength(networkOutcomes, segment)
    {
      if networkLength == segment && networkLength >= 10 {
        networkLength := networkLength - 5;
        while networkLength > segment / 2
          invariant segment / 2 <= networkLength <= segment - 5
          invariant LastSplit(networkOutcomes, segment / 2, networkLength) == CutLength(networkOutcomes, segment)
        {
          networkLength := networkLength - 1;
          if networkOutcomes[networkLength] != NoSplit {
            break;
          }
        }
      }
    }

    lemma WindowFilled(said: seq<Outcome>, full: nat)
      requires segment >= 10 && Steps(chars, networkOffsets) && |networkOffsets| == full + 1 && 0 < full <= segment
      requires (full < segment ==> networkOffsets[full] == |chars| - 1) && said == network(Seen(networkOffsets))
      requires full <= |said|
      requires Told(networkOffsets, said, networkOutcomes)
      requires networkLength == if full == segment then CutLength(networkOutcomes, segment) else full
      ensures IsWindow(Window(networkOffsets, networkOutcomes, networkLength))
    {
    }

    /** Gets a new window, which starts at the current position. */
    method NextWindow()
      requires Valid() && current < |chars| - 1
      modifies `networkIndex, `networkLength, `networkChars, `networkOutcomes, `networkOffsets
      ensures Valid() && WindowHolds(current) && networkIndex == 0 < networkLength
    {
      hide Tokenizer.IsWindow, Tokenizer.Logged, SplitBeforeSpaces, Steps, Tokenizer.Told, Tokenizer.Seen,
        RecogniserOk, NetworkOk, CutLength;
      FillWindow();
      ghost var said, full := networkOutcomes, networkLength;
      SplitAtSpaces();
      CutBack();
      WindowFilled(said, full);
      WindowSplit(chars, networkOffsets, networkOutcomes, full, networkLength, allowSpaces);
    }

    lemma LastStep()
      requires Logged(steps, current) && steps != []
      ensures var s := steps[|steps| - 1]; s.k < s.window.length
    {
      assert steps[|steps| - 1] in steps;
    }

    /** Takes one step through the text and says how it ends. */
    method NextOutcome() returns (outcome: Outcome)
      requires Valid() && WindowAt(current) && current < |chars| - 1
      modifies `current, `networkIndex, `networkLength, `networkChars, `networkOutcomes, `networkOffsets, `steps
      ensures Valid() && WindowAt(current) && Step(chars, old(current), current)
      ensures 0 < networkIndex < |networkOffsets| && networkIndex <= |networkOutcomes|
      ensures steps == old(steps) + [StepOf(Current(), networkIndex - 1)]
      ensures var s := steps[|steps| - 1]; s.from == old(current) && s.to == current && s.outcome == outcome
      ensures !allowSpaces && !IsSpaceChar(chars[old(current)]) ==>
        current < |chars| - 1 && IsSpaceChar(chars[current]) ==> outcome != NoSplit
    {
      hide Tokenizer.IsWindow, Tokenizer.Explained, Tokenizer.Logged, Step, SplitBeforeSpaces, Steps, RecogniserOk,
        NetworkOk;
      if steps != [] { LastStep(); }
      if networkIndex >= networkLength {
        NextWindow();
      }
      StepExplained(Current(), networkIndex);
      ghost var s := StepOf(Current(), networkIndex);
      LoggedNext(steps, current, s, s.to);
      if !allowSpaces { SplitThere(chars, networkOffsets, networkOutcomes, networkLength, networkIndex); }
      current, outcome := networkOffsets[networkIndex + 1], networkOutcomes[networkIndex];
      networkIndex := networkIndex + 1;
      steps := steps + [s];
    }

    predicate InText(tokens: seq<Token>)
      reads `chars
    {
      forall t <- tokens :: t.start < |chars|
    }

    /** Long sentences are split, preferably after punctuation. */
    predicate EmergencySentenceSplit(tokens: seq<Token>)
      requires InText(tokens)
      reads `chars
    {
      || |tokens| >= 500
      || (|tokens| >= 450 && chars[tokens[|tokens| - 1].start].p)
      || (|tokens| >= 400 && chars[tokens[|tokens| - 1].start].po)
    }

    /** Steps over the window up to the current position, which an address has been moved to. */
    method CatchUp(ghost start: nat, nonEmpty: bool, ghost before: seq<Taken>)
      returns (eos: bool, ghost path: seq<Taken>)
      requires Valid() && WindowAt(start) && start <= current && NoSpaces(chars, start, current) && before == steps
      modifies `networkIndex, `steps
      ensures Valid() && WindowAt(current) && steps == before + path
      ensures exists at: nat ::
        Path(path, start, at) && at <= current && (at == current || networkIndex == networkLength)
      ensures eos <==> nonEmpty && exists s <- path :: s.outcome == EndOfSentence
    {
      hide Tokenizer.IsWindow, Tokenizer.Explained, Tokenizer.Logged, Path, SplitBeforeSpaces, RecogniserOk, NetworkOk,
        Steps;
      eos, path := false, [];
      NoPath(start);
      ghost var at := start;
      assert steps + path == steps;
      while networkIndex < networkLength && networkOffsets[networkIndex] < current
        invariant networkIndex <= networkLength && Valid() && steps == before + path
        invariant start <= at <= current && WindowAt(at) && Path(path, start, at)
        invariant eos <==> nonEmpty && exists s <- path :: s.outcome == EndOfSentence
        decreases networkLength - networkIndex
      {
        StepExplained(Current(), networkIndex);
        ghost var s := StepOf(Current(), networkIndex);
        LoggedNext(steps, current, s, current);
        PathAppend(path, start, s);
        at, path, steps := at + 1, path + [s], steps + [s];
        if networkOutcomes[networkIndex] == EndOfSentence && nonEmpty {
          eos := true;
        }
        networkIndex := networkIndex + 1;
      }
    }

    /** Skips spaces. */
    method SkipSpaces(nonEmpty: bool, ghost tokens: seq<Token>)
      requires Valid() && WindowAt(current) && Covered(chars, tokens, current, allowSpaces)
      modifies `current, `networkIndex, `networkLength, `networkChars, `networkOutcomes, `networkOffsets, `steps
      ensures Valid() && WindowAt(current) && Covered(chars, tokens, current, allowSpaces) && current >= old(current)
      ensures current < |chars| - 1 ==> !IsSpaceChar(chars[current])
      ensures old(steps) <= steps && forall s <- steps[|old(steps)|..] :: s.from >= old(current)
    {
      hide Covered, RecogniserOk, NetworkOk, Tokenizer.WindowAt, Tokenizer.Logged;
      while current < |chars| - 1 && IsSpace(current)
        invariant Valid() && WindowAt(current) && Covered(chars, tokens, current, allowSpaces)
        invariant current >= old(current)
        invariant old(steps) <= steps && forall s <- steps[|old(steps)|..] :: s.from >= old(current)
        decreases |chars| - current
      {
        ghost var from := current;
        var outcome := NextOutcome();
        CoveredSpaces(chars, tokens, from, current, allowSpaces);
        if outcome == EndOfSentence && nonEmpty {
          break;
        }
      }
    }

    /** Takes one token, which starts here. */
    method TakeToken(ghost tokens: seq<Token>) returns (token: Token, eos: bool)
      requires Valid() && WindowAt(current) && Covered(chars, tokens, current, allowSpaces)
      requires current < |chars| - 1 && !IsSpaceChar(chars[current])
      modifies `current, `networkIndex, `networkLength, `networkChars, `networkOutcomes, `networkOffsets, `steps
      ensures Valid() && WindowAt(current) && Covered(chars, tokens + [token], current, allowSpaces)
      ensures current > old(current)
      ensures token == Token(old(current), current - old(current))
      ensures old(steps) <= steps && TokenPath(steps[|old(steps)|..], token, |chars| - 1)
      ensures eos <==> steps[|steps| - 1].outcome == EndOfSentence
    {
      hide Covered, RecogniserOk, NetworkOk, Tokenizer.WindowAt, Tokenizer.Logged, Tokenizer.Current, Path, InTurn;
      var tokenStart := current;
      var outcome := NextOutcome();
      eos := outcome == EndOfSentence;
      ghost var path := [steps[|steps| - 1]];
      NoPath(tokenStart);
      PathAppend([], tokenStart, path[0]);
      assert [] + path == path;
      while outcome == NoSplit && current < |chars| - 1
        invariant Valid() && WindowAt(current) && tokenStart < current && (eos <==> outcome == EndOfSentence)
        invariant steps == old(steps) + path && path != [] && path[|path| - 1].outcome == outcome
        invariant Path(path, tokenStart, current) && forall i :: 0 <= i < |path| - 1 ==> path[i].outcome == NoSplit
        invariant !allowSpaces ==> NoSpaces(chars, tokenStart, current)
        invariant !allowSpaces && outcome == NoSplit && current < |chars| - 1 ==> !IsSpaceChar(chars[current])
        decreases |chars| - current
      {
        ghost var from := current;
        outcome := NextOutcome();
        eos := outcome == EndOfSentence;
        PathAppend(path, tokenStart, steps[|steps| - 1]);
        path := path + [steps[|steps| - 1]];
      }
      token := Token(tokenStart, current - tokenStart);
      assert steps[|old(steps)|..] == path;
      CoveredToken(chars, tokens, tokenStart, current, allowSpaces);
    }

    /** Takes an address, if one starts here. */
    method TokenizeUrl() returns (token: Option<Token>)
      requires Valid() && current < |chars| - 1
      modifies `current
      ensures Valid() && NoSpaces(chars, old(current), current)
      ensures token.None? <==> url(chars, old(current)) == old(current)
      ensures current == url(chars, old(current))
      ensures token.Some? ==> current > old(current) && token.value == Token(old(current), current - old(current))
    {
      var end := url(chars, current);
      assert NoSpaces(chars, current, end);
      if end > current {
        token := Some(Token(current, end - current));
        current := end;
      } else {
        token := None;
      }
    }

    /** An address is taken as it is recognised; any other token ends with the first of its steps that splits, or
        where the text ends. */
    ghost predicate TokenSplit(log: seq<Taken>, t: Token)
      reads `chars
    {
      t.start < |chars| &&
      if url(chars, t.start) > t.start then t.End() == url(chars, t.start)
      else exists from, to :: 0 <= from <= to <= |log| && TokenPath(log[from..to], t, |chars| - 1)
    }

    /** How a token is split, in so many words: one that is no address consists of some steps taken one after the
        other, of which only the last splits; and that does, unless the text ends. */
    lemma TokenMeans(log: seq<Taken>, t: Token)
      requires TokenSplit(log, t)
      ensures t.start < |chars|
      ensures if url(chars, t.start) > t.start then t.End() == url(chars, t.start)
        else exists from, to ::
          && 0 <= from < to <= |log|
          && var path := log[from..to];
             && path[0].from == t.start && path[|path| - 1].to == t.End()
             && (forall i :: 0 <= i < |path| - 1 ==> path[i].to == path[i + 1].from && path[i].outcome == NoSplit)
             && (t.End() < |chars| - 1 ==> path[|path| - 1].outcome != NoSplit)
    {
      hide Path;
      if url(chars, t.start) <= t.start {
        var from, to :| 0 <= from <= to <= |log| && TokenPath(log[from..to], t, |chars| - 1);
        PathSteps(log[from..to], t.start, t.End());
      }
    }

    lemma TokenSplitNow(log: seq<Taken>, from: nat, t: Token)
      requires from <= |log| && t.start < |chars| && url(chars, t.start) <= t.start
      requires TokenPath(log[from..], t, |chars| - 1)
      ensures TokenSplit(log, t)
    {
      assert log[from..|log|] == log[from..];
    }

    lemma TokenSplitLater(log: seq<Taken>, more: seq<Taken>, t: Token)
      requires TokenSplit(log, t) && log <= more
      ensures TokenSplit(more, t)
    {
      if url(chars, t.start) <= t.start {
        var from, to :| 0 <= from <= to <= |log| && TokenPath(log[from..to], t, |chars| - 1);
        assert more[from..to] == log[from..to];
      }
    }

    /** The next token, an address or one split by the network, and whether the sentence ends after it: whether
        some step taken inside it says so. There is none if only spaces are left. */
    method NextToken(nonEmpty: bool, ghost tokens: seq<Token>) returns (token: Option<Token>, eos: bool)
      requires Valid() && WindowAt(current) && Covered(chars, tokens, current, allowSpaces)
      modifies `current, `networkIndex, `networkLength, `networkChars, `networkOutcomes, `networkOffsets, `steps
      ensures Valid() && WindowAt(current) && current >= old(current)
      ensures old(steps) <= steps && forall s <- steps[|old(steps)|..] :: s.from >= old(current)
      ensures token.None? ==> current == |chars| - 1 && !eos && Covered(chars, tokens, current, allowSpaces)
      ensures token.Some? ==> current > old(current) && token.value.start < |chars| && token.value.End() == current
      ensures token.Some? ==> TokenSplit(steps, token.value) && (eos <==> EndsSentence(steps, token.value))
      ensures token.Some? ==> Covered(chars, tokens + [token.value], current, allowSpaces)
    {
      hide Covered, RecogniserOk, NetworkOk, Tokenizer.WindowAt, Tokenizer.Logged, TokenPath, Path, EndsSentence;
      SkipSpaces(nonEmpty, tokens);
      if current >= |chars| - 1 {
        return None, false;
      }
      ghost var start, before := current, steps;
      ghost var path;
      LoggedBefore(steps, current);
      token := TokenizeUrl();
      if token.Some? {
        CoveredAddress(chars, tokens, start, current, allowSpaces);
        eos, path := CatchUp(start, true, before);
        ghost var at: nat :| Path(path, start, at) && at <= current;
        PathInside(path, start, at);
      } else {
        var split;
        split, eos := TakeToken(tokens);
        token, path := Some(split), steps[|before|..];
        TokenSplitNow(steps, |before|, split);
        TokenPathEnds(path, split, |chars| - 1);
      }
      assert steps == before + path;
      EndsInPath(before, path, token.value);
      StepsFrom(old(steps), before, path, old(current));
    }

    /** The log shows how the tokens of a sentence were split, that none but the last ends the sentence, and that
        the last one does, or the sentence is long, or the text ends. */
    ghost predicate SentenceOk(log: seq<Taken>, tokens: seq<Token>, textEnds: bool)
      reads `chars
    {
      && InText(tokens) && (forall t <- tokens :: TokenSplit(log, t))
      && (forall n :: 0 <= n < |tokens| ==> !EmergencySentenceSplit(tokens[..n]))
      && (forall i :: 0 <= i < |tokens| - 1 ==> !EndsSentence(log, tokens[i]))
      && (tokens != [] ==> textEnds || EndsSentence(log, tokens[|tokens| - 1]) || EmergencySentenceSplit(tokens))
    }

    /** Later steps do not matter for a sentence. */
    lemma SentenceLater(log: seq<Taken>, more: seq<Taken>, tokens: seq<Token>, textEnds: bool, at: nat)
      requires SentenceOk(log, tokens, textEnds) && forall t <- tokens :: t.End() <= at
      requires log <= more && forall s <- more[|log|..] :: s.from >= at
      ensures SentenceOk(more, tokens, textEnds)
    {
      hide EndsSentence, Tokenizer.TokenSplit, Tokenizer.EmergencySentenceSplit;
      forall t | t in tokens
        ensures TokenSplit(more, t) && (EndsSentence(more, t) <==> EndsSentence(log, t))
      {
        TokenSplitLater(log, more, t);
        EndsSentenceLater(log, more, t);
      }
    }

    /** One more token. */
    lemma SentenceNext(log: seq<Taken>, tokens: seq<Token>, t: Token)
      requires SentenceOk(log, tokens, true) && InText(tokens) && TokenSplit(log, t) && t.start < |chars|
      requires !EmergencySentenceSplit(tokens)
      requires tokens != [] ==> !EndsSentence(log, tokens[|tokens| - 1])
      ensures SentenceOk(log, tokens + [t], true)
    {
      hide EndsSentence, Tokenizer.TokenSplit, Tokenizer.EmergencySentenceSplit;
      var all := tokens + [t];
      forall n | 0 <= n < |all|
        ensures !EmergencySentenceSplit(all[..n])
      {
        assert all[..n] == if n < |tokens| then tokens[..n] else tokens;
      }
    }

    /** The next sentence. Together with those before, its tokens cover the text up to the new position;
        there is none exactly when the rest of the text holds nothing but spaces. It ends with the first token
        inside which the network says so, unless it gets too long before. */
    method NextSentence(ghost before: seq<Token>) returns (tokens: seq<Token>)
      requires Valid() && (current == 0 || WindowAt(current)) && Covered(chars, before, current, allowSpaces)
      modifies `current, `networkIndex, `networkLength, `networkChars, `networkOutcomes, `networkOffsets, `steps
      ensures Valid() && WindowAt(current) && Covered(chars, before + tokens, current, allowSpaces)
      ensures tokens != [] ==> current > old(current)
      ensures tokens == [] ==> current == |chars| - 1
      ensures |tokens| <= 500 && forall t <- tokens :: t.start < |chars| && t.End() <= current
      ensures old(steps) <= steps && forall s <- steps[|old(steps)|..] :: s.from >= old(current)
      ensures SentenceOk(steps, tokens, current == |chars| - 1)
      ensures tokens != [] && |tokens| < 500 && current < |chars| - 1 ==>
        var last := tokens[|tokens| - 1];
        || (exists s <- steps :: last.start <= s.from < last.End() && s.outcome == EndOfSentence)
        || (|tokens| >= 400 && chars[last.start].po) || (|tokens| >= 450 && chars[last.start].p)
      ensures forall j, s :: 0 <= j < |tokens| - 1 && s in steps && tokens[j].start <= s.from < tokens[j].End() ==>
        s.outcome != EndOfSentence
      ensures forall j :: 0 <= j < |tokens| - 1 ==>
        (j + 1 >= 400 ==> !chars[tokens[j].start].po) && (j + 1 >= 450 ==> !chars[tokens[j].start].p)
    {
      hide Covered, RecogniserOk, NetworkOk, Tokenizer.WindowAt, Tokenizer.Logged, EndsSentence,
        Tokenizer.TokenSplit, Tokenizer.SentenceOk, Tokenizer.EmergencySentenceSplit;
      tokens := [];
      if current == 0 {
        networkIndex, networkLength := 0, 0;
        NothingInWindow();
      }
      var eos := false;
      assert before + tokens == before;
      NoTokensYet();
      while !eos && !EmergencySentenceSplit(tokens)
        invariant Valid() && WindowAt(current) && Covered(chars, before + tokens, current, allowSpaces)
        invariant |tokens| <= 500 && InText(tokens) && forall t <- tokens :: t.End() <= current
        invariant old(steps) <= steps && forall s <- steps[|old(steps)|..] :: s.from >= old(current)
        invariant SentenceOk(steps, tokens, true)
        invariant (tokens != [] ==> (eos <==> EndsSentence(steps, tokens[|tokens| - 1])))
        invariant tokens == [] ==> !eos && current >= old(current)
        invariant tokens != [] ==> current > old(current)
        decreases |chars| - current, !eos
      {
        ghost var previous, from, log := tokens, current, steps;
        var token;
        token, eos := NextToken(tokens != [], before + tokens);
        LaterSteps(old(steps), log, steps, old(current), from);
        SentenceLater(log, steps, tokens, true, from);
        if tokens != [] { EndsSentenceLater(log, steps, tokens[|tokens| - 1]); }
        if token.None? {
          break;
        }
        SentenceNext(steps, tokens, token.value);
        ShortSentence(tokens);
        tokens := tokens + [token.value];
        assert before + tokens == before + previous + [token.value];
      }
      SentenceDone(steps, tokens, eos, current == |chars| - 1);
      SentenceEnds(steps, tokens, current == |chars| - 1);
    }

    /** Where a sentence ends, in so many words: where the text ends, or inside its last token the network says
        so, or, from 400 tokens on, with other punctuation, from 450 on with any punctuation, or at 500. */
    lemma SentenceEnds(log: seq<Taken>, tokens: seq<Token>, textEnds: bool)
      requires SentenceOk(log, tokens, textEnds) && InText(tokens)
      ensures |tokens| <= 500 && forall t <- tokens :: t.start < |chars|
      ensures tokens != [] && |tokens| < 500 && !textEnds ==>
        var last := tokens[|tokens| - 1];
        || (exists s <- log :: last.start <= s.from < last.End() && s.outcome == EndOfSentence)
        || (|tokens| >= 400 && chars[last.start].po) || (|tokens| >= 450 && chars[last.start].p)
      ensures forall j, s :: 0 <= j < |tokens| - 1 && s in log && tokens[j].start <= s.from < tokens[j].End() ==>
        s.outcome != EndOfSentence
      ensures forall j :: 0 <= j < |tokens| - 1 ==>
        (j + 1 >= 400 ==> !chars[tokens[j].start].po) && (j + 1 >= 450 ==> !chars[tokens[j].start].p)
    {
      hide Tokenizer.TokenSplit;
      if tokens != [] { ShortSentence(tokens[..|tokens| - 1]); }
      forall j | 0 <= j < |tokens| - 1
        ensures (j + 1 >= 400 ==> !chars[tokens[j].start].po) && (j + 1 >= 450 ==> !chars[tokens[j].start].p)
      {
        assert !EmergencySentenceSplit(tokens[..j + 1]);
      }
      forall j, s | 0 <= j < |tokens| - 1 && s in log && tokens[j].start <= s.from < tokens[j].End()
        ensures s.outcome != EndOfSentence
      {
        assert !EndsSentence(log, tokens[j]);
      }
    }

    lemma NoTokensYet()
      ensures SentenceOk(steps, [], true) && !EmergencySentenceSplit([])
    {
    }

    lemma ShortSentence(tokens: seq<Token>)
      requires InText(tokens) && !EmergencySentenceSplit(tokens)
      ensures |tokens| < 500
    {
    }

    lemma SentenceDone(log: seq<Taken>, tokens: seq<Token>, eos: bool, textEnds: bool)
      requires InText(tokens) && SentenceOk(log, tokens, true)
      requires (tokens != [] ==> (eos <==> EndsSentence(log, tokens[|tokens| - 1])))
      requires eos || EmergencySentenceSplit(tokens) || textEnds
      ensures SentenceOk(log, tokens, textEnds)
    {
      hide EndsSentence, Tokenizer.TokenSplit, Tokenizer.EmergencySentenceSplit;
    }

    lemma NothingInWindow()
      requires networkIndex == networkLength && Logged(steps, current) && current == 0
      ensures WindowAt(current)
    {
    }

    /** A sentence that ends may also be the last one. */
    lemma LastSentence(sentences: seq<seq<Token>>)
      requires forall j :: 0 <= j < |sentences| ==> SentenceOk(steps, sentences[j], false)
      ensures forall j :: 0 <= j < |sentences| ==> SentenceOk(steps, sentences[j], j == |sentences| - 1)
    {
      forall j | 0 <= j < |sentences|
        ensures SentenceOk(steps, sentences[j], j == |sentences| - 1)
      {
        hide EndsSentence, Tokenizer.TokenSplit, Tokenizer.EmergencySentenceSplit;
        assert SentenceOk(steps, sentences[j], false);
      }
    }

    /** All sentences of the text, one after the other. */
    method CollectSentences() returns (sentences: seq<seq<Token>>, ghost all: seq<Token>)
      requires Valid() && current == 0
      modifies `current, `networkIndex, `networkLength, `networkChars, `networkOutcomes, `networkOffsets, `steps
      ensures Valid() && all == Flatten(sentences) && Covered(chars, all, |chars| - 1, allowSpaces)
      ensures forall j ::
        0 <= j < |sentences| ==> sentences[j] != [] && SentenceOk(steps, sentences[j], j == |sentences| - 1)
    {
      hide Covered, RecogniserOk, NetworkOk, Tokenizer.WindowAt, Tokenizer.SentenceOk, Tokenizer.Logged;
      sentences, all := [], [];
      NothingCovered(chars, allowSpaces);
      while current < |chars| - 1
        invariant Valid() && (current == 0 || WindowAt(current)) && Covered(chars, all, current, allowSpaces)
        invariant all == Flatten(sentences)
        invariant forall j ::
          0 <= j < |sentences| ==> sentences[j] != [] && forall t <- sentences[j] :: t.End() <= current
        invariant forall j ::
          0 <= j < |sentences| ==> SentenceOk(steps, sentences[j], j == |sentences| - 1 && current == |chars| - 1)
        decreases |chars| - current
      {
        ghost var from, log := current, steps;
        var tokens := NextSentence(all);
        forall j | 0 <= j < |sentences|
          ensures SentenceOk(steps, sentences[j], false)
        {
          SentenceLater(log, steps, sentences[j], false, from);
        }
        if tokens == [] {
          LastSentence(sentences);
          assert all + tokens == all;
          break;
        }
        FlattenAppend(sentences, tokens);
        sentences, all := sentences + [tokens], all + tokens;
      }
    }

    /** All sentences of the text: their tokens cover every character but spaces exactly once, each is split where
        the network says first, and each sentence ends where the network says first, or is too long, or is the
        last one. */
    method TokenizeAll() returns (sentences: seq<seq<Token>>, ghost all: seq<Token>)
      requires Valid() && current == 0
      modifies `current, `networkIndex, `networkLength, `networkChars, `networkOutcomes, `networkOffsets, `steps
      ensures Valid() && all == Flatten(sentences) && Covered(chars, all, |chars| - 1, allowSpaces)
      ensures forall j ::
        0 <= j < |sentences| ==> sentences[j] != [] && SentenceOk(steps, sentences[j], j == |sentences| - 1)
      ensures forall tokens <- sentences ::
        0 < |tokens| <= 500 && forall t <- tokens :: t.start < |chars|
      ensures forall i :: 0 <= i < |sentences| - 1 && |sentences[i]| < 500 ==>
        var tokens := sentences[i];
        var last := tokens[|tokens| - 1];
        || (exists s <- steps :: last.start <= s.from < last.End() && s.outcome == EndOfSentence)
        || (|tokens| >= 400 && chars[last.start].po) || (|tokens| >= 450 && chars[last.start].p)
      ensures forall tokens: seq<Token>, j, s :: tokens in sentences && 0 <= j < |tokens| - 1 && s in steps ==>
        tokens[j].start <= s.from < tokens[j].End() ==> s.outcome != EndOfSentence
      ensures forall tokens: seq<Token>, j :: tokens in sentences && 0 <= j < |tokens| - 1 ==>
        (j + 1 >= 400 ==> !chars[tokens[j].start].po) && (j + 1 >= 450 ==> !chars[tokens[j].start].p)
      ensures forall k ::
        0 <= k < |chars| - 1 && !chars[k].zs && chars[k].chr != 9 && chars[k].chr != 10 && chars[k].chr != 13 ==>
        exists i :: 0 <= i < |all| && all[i].start <= k < all[i].End()
      ensures !allowSpaces ==> forall i, k :: 0 <= i < |all| && all[i].start <= k < all[i].End() ==>
        k < |chars| - 1 && !chars[k].zs && chars[k].chr != 9 && chars[k].chr != 10 && chars[k].chr != 13
    {
      hide Covered, RecogniserOk, NetworkOk, Tokenizer.Logged, Tokenizer.SentenceOk, Flatten;
      sentences, all := CollectSentences();
      SentencesEnd(sentences);
      CoveredMeans(chars, all, |chars| - 1, allowSpaces);
    }

    lemma SentencesEnd(sentences: seq<seq<Token>>)
      requires forall j ::
        0 <= j < |sentences| ==> sentences[j] != [] && SentenceOk(steps, sentences[j], j == |sentences| - 1)
      ensures forall tokens <- sentences ::
        0 < |tokens| <= 500 && forall t <- tokens :: t.start < |chars|
      ensures forall i :: 0 <= i < |sentences| - 1 && |sentences[i]| < 500 ==>
        var tokens := sentences[i];
        var last := tokens[|tokens| - 1];
        || (exists s <- steps :: last.start <= s.from < last.End() && s.outcome == EndOfSentence)
        || (|tokens| >= 400 && chars[last.start].po) || (|tokens| >= 450 && chars[last.start].p)
      ensures forall tokens: seq<Token>, j, s :: tokens in sentences && 0 <= j < |tokens| - 1 && s in steps ==>
        tokens[j].start <= s.from < tokens[j].End() ==> s.outcome != EndOfSentence
      ensures forall tokens: seq<Token>, j :: tokens in sentences && 0 <= j < |tokens| - 1 ==>
        (j + 1 >= 400 ==> !chars[tokens[j].start].po) && (j + 1 >= 450 ==> !chars[tokens[j].start].p)
    {
      hide Tokenizer.SentenceOk;
      forall i | 0 <= i < |sentences|
        ensures 0 < |sentences[i]| <= 500 && forall t <- sentences[i] :: t.start < |chars|
      {
        InTextOf(steps, sentences[i], i == |sentences| - 1);
        SentenceEnds(steps, sentences[i], i == |sentences| - 1);
      }
      forall i | 0 <= i < |sentences| - 1 && |sentences[i]| < 500
        ensures var tokens := sentences[i];
          var last := tokens[|tokens| - 1];
          || (exists s <- steps :: last.start <= s.from < last.End() && s.outcome == EndOfSentence)
          || (|tokens| >= 400 && chars[last.start].po) || (|tokens| >= 450 && chars[last.start].p)
      {
        InTextOf(steps, sentences[i], false);
        SentenceEnds(steps, sentences[i], false);
      }
      forall tokens: seq<Token>, j | tokens in sentences && 0 <= j < |tokens| - 1
        ensures (j + 1 >= 400 ==> !chars[tokens[j].start].po) && (j + 1 >= 450 ==> !chars[tokens[j].start].p)
        ensures forall s <- steps :: tokens[j].start <= s.from < tokens[j].End() ==> s.outcome != EndOfSentence
      {
        var i :| 0 <= i < |sentences| && sentences[i] == tokens;
        InTextOf(steps, tokens, i == |sentences| - 1);
        SentenceEnds(steps, tokens, i == |sentences| - 1);
      }
    }

    lemma InTextOf(log: seq<Taken>, tokens: seq<Token>, textEnds: bool)
      requires SentenceOk(log, tokens, textEnds)
      ensures InText(tokens)
    {
    }
  }

  /** Which characters the tokens cover, in so many words: all but separators, tabs, and line ends. */
  lemma CoveredMeans(chars: seq<Char>, tokens: seq<Token>, upto: nat, allowSpaces: bool)
    requires Covered(chars, tokens, upto, allowSpaces)
    ensures forall k ::
      0 <= k < upto && !chars[k].zs && chars[k].chr != 9 && chars[k].chr != 10 && chars[k].chr != 13 ==>
      exists i :: 0 <= i < |tokens| && tokens[i].start <= k < tokens[i].End()
    ensures !allowSpaces ==> forall i, k :: 0 <= i < |tokens| && tokens[i].start <= k < tokens[i].End() ==>
      k < upto && !chars[k].zs && chars[k].chr != 9 && chars[k].chr != 10 && chars[k].chr != 13
    ensures forall t <- tokens ::
      && t.start < upto && !chars[t.start].zs
      && chars[t.start].chr != 9 && chars[t.start].chr != 10 && chars[t.start].chr != 13
  {
    forall i, k | 0 <= i < |tokens| && tokens[i].start <= k < tokens[i].End()
      ensures k < upto
      ensures !allowSpaces ==>
        !chars[k].zs && chars[k].chr != 9 && chars[k].chr != 10 && chars[k].chr != 13
    {
      assert TokenOk(chars, tokens[i], upto, allowSpaces);
    }
    forall t | t in tokens
      ensures t.start < upto && !IsSpaceChar(chars[t.start])
    {
      var i :| 0 <= i < |tokens| && tokens[i] == t;
      assert TokenOk(chars, tokens[i], upto, allowSpaces);
    }
    forall k | 0 <= k < upto && !IsSpaceChar(chars[k])
      ensures exists i :: 0 <= i < |tokens| && tokens[i].start <= k < tokens[i].End()
    {
      assert Inside(tokens, k);
    }
  }

  /** What becomes of an outcome, result by result. A sentence ends after a step if the network says so, or if
      spaces follow that end the window, hold an empty line, or end a sentence themselves. Otherwise nothing is
      split exactly if the network does not split, and no spaces follow, or spaces may be inside tokens and do not
      end one. */
  lemma AdjustedMeans(chars: seq<Char>, offsets: seq<nat>, outcomes: seq<Outcome>, length: nat, allowSpaces: bool,
                      k: nat)
    requires k + 1 < length <= |outcomes| && |offsets| == length + 1 && Steps(chars, offsets)
    ensures offsets[k + 1] < offsets[k + 2] < |chars|
    ensures var c := chars[offsets[k + 1]];
      var spaces := c.zs || c.chr == 9 || c.chr == 10 || c.chr == 13;
      var emptyLine := HasBlankLine(chars, offsets[k + 1], offsets[k + 2]);
      var result := Adjusted(chars, offsets, outcomes, length, allowSpaces, k);
      && (result == EndOfSentence <==>
            outcomes[k] == EndOfSentence
            || (spaces && (k + 2 == length || outcomes[k + 1] == EndOfSentence || emptyLine)))
      && (result == NoSplit <==>
            outcomes[k] == NoSplit
            && (spaces ==> allowSpaces && outcomes[k + 1] == NoSplit && k + 2 != length && !emptyLine))
  {
    hide HasBlankLine, AllSpaces;
    StepBounds(chars, offsets, k + 1);
  }

  /** An empty line: two line feeds, or two pairs of carriage return and line feed. */
  lemma BlankLineMeans(chars: seq<Char>, from: nat, to: nat)
    requires to < |chars|
    ensures HasBlankLine(chars, from, to) <==>
      || (exists j {:trigger chars[j]} :: from <= j < to - 1 && chars[j].chr == 10 && chars[j + 1].chr == 10)
      || (exists j {:trigger chars[j]} ::
            && from <= j < to - 3 && chars[j].chr == 13 && chars[j + 1].chr == 10
            && chars[j + 2].chr == 13 && chars[j + 3].chr == 10)
  {
    if HasBlankLine(chars, from, to) {
      var j :| from <= j < to - 1 && BlankLineAt(chars, j, to);
      assert chars[j].chr == 10 || chars[j].chr == 13;
    }
    if j {:trigger chars[j]} :| from <= j < to - 1 && chars[j].chr == 10 && chars[j + 1].chr == 10 {
      assert BlankLineAt(chars, j, to);
    }
    if j {:trigger chars[j]} :|
      && from <= j < to - 3 && chars[j].chr == 13 && chars[j + 1].chr == 10
      && chars[j + 2].chr == 13 && chars[j + 3].chr == 10
    {
      assert BlankLineAt(chars, j, to);
    }
  }

  /** What the network sees, in so many words: a character as it is, a run of separators, tabs and line ends as one
      space, and a space more after the end of the text if there is room. */
  lemma ShownMeans(chars: seq<Char>, offsets: seq<nat>, k: nat)
    requires Steps(chars, offsets) && k + 1 < |offsets|
    ensures offsets[k] < |chars|
    ensures var c, shown := chars[offsets[k]], Shown(chars, offsets)[k];
      if c.zs || c.chr == 9 || c.chr == 10 || c.chr == 13 then shown.chr == 32 && shown.zs else shown == c
  {
    StepBounds(chars, offsets, k);
  }

  /** Whether a sentence ends is told by the steps taken since its last token began. */
  lemma EndsInPath(before: seq<Taken>, path: seq<Taken>, t: Token)
    requires (forall s <- before :: s.from < t.start) && forall s <- path :: t.start <= s.from < t.End()
    ensures EndsSentence(before + path, t) <==> exists s <- path :: s.outcome == EndOfSentence
  {
    assert forall s <- path :: s in before + path;
  }

  lemma TokenPathEnds(path: seq<Taken>, t: Token, end: nat)
    requires TokenPath(path, t, end)
    ensures path != [] && forall s <- path :: t.start <= s.from < t.End()
    ensures (exists s <- path :: s.outcome == EndOfSentence) <==> path[|path| - 1].outcome == EndOfSentence
  {
    PathInside(path, t.start, t.End());
  }

  lemma StepsFrom(log: seq<Taken>, before: seq<Taken>, path: seq<Taken>, at: nat)
    requires log <= before && (forall s <- before[|log|..] :: s.from >= at) && forall s <- path :: s.from >= at
    ensures log <= before + path && forall s <- (before + path)[|log|..] :: s.from >= at
  {
    assert (before + path)[|log|..] == before[|log|..] + path;
  }

  lemma LaterSteps(log: seq<Taken>, more: seq<Taken>, all: seq<Taken>, at: nat, from: nat)
    requires log <= more <= all && at <= from
    requires (forall s <- more[|log|..] :: s.from >= at) && forall s <- all[|more|..] :: s.from >= from
    ensures forall s <- all[|log|..] :: s.from >= at
  {
    assert all[|log|..] == more[|log|..] + all[|more|..];
  }

  function Flatten(sentences: seq<seq<Token>>): seq<Token> {
    if sentences == [] then [] else Flatten(sentences[..|sentences| - 1]) + sentences[|sentences| - 1]
  }

  lemma FlattenAppend(sentences: seq<seq<Token>>, s: seq<Token>)
    ensures Flatten(sentences + [s]) == Flatten(sentences) + s
  {
    assert (sentences + [s])[..|sentences|] == sentences;
  }

  lemma NothingCovered(chars: seq<Char>, allowSpaces: bool)
    ensures Covered(chars, [], 0, allowSpaces)
  {
  }

  lemma CoveredAddress(chars: seq<Char>, tokens: seq<Token>, start: nat, end: nat, allowSpaces: bool)
    requires Covered(chars, tokens, start, allowSpaces) && start < end <= |chars| && NoSpaces(chars, start, end)
    ensures Covered(chars, tokens + [Token(start, end - start)], end, allowSpaces)
  {
    hide Covered;
    CoveredToken(chars, tokens, start, end, allowSpaces);
  }

  lemma StepOne(chars: seq<Char>, from: nat)
    requires from + 1 < |chars| && !IsSpaceChar(chars[from])
    ensures Step(chars, from, from + 1)
  {
  }

  lemma NoSteps(chars: seq<Char>, at: nat)
    requires at < |chars|
    ensures Steps(chars, [at]) && Shown(chars, [at]) == []
  {
  }

  lemma ShownAppended(chars: seq<Char>, offsets: seq<nat>, next: nat)
    requires Steps(chars, offsets) && Step(chars, offsets[|offsets| - 1], next)
    ensures Steps(chars, offsets + [next])
    ensures var at := offsets[|offsets| - 1];
      at < |chars|
        && Shown(chars, offsets + [next]) == Shown(chars, offsets)
        + [if IsSpaceChar(chars[at]) then SPACE else chars[at]]
  {
  }

  lemma StepBounds(chars: seq<Char>, offsets: seq<nat>, k: nat)
    requires Steps(chars, offsets) && k + 1 < |offsets|
    ensures Step(chars, offsets[k], offsets[k + 1])
  {
  }

  lemma SplitThere(chars: seq<Char>, offsets: seq<nat>, outcomes: seq<Outcome>, length: nat, k: nat)
    requires SplitBeforeSpaces(chars, offsets, outcomes, length) && k < length
    ensures k < |outcomes| && k + 1 < |offsets| && SplitBefore(chars, offsets, outcomes, k)
  {
  }

  lemma SplitExtended(chars: seq<Char>, offsets: seq<nat>, before: seq<Outcome>, after: seq<Outcome>, i: nat)
    requires SplitBeforeSpaces(chars, offsets, before, i) && |after| == |before| && i < |after| && i + 1 < |offsets|
    requires forall k :: 0 <= k < i ==> after[k] == before[k]
    requires SplitBefore(chars, offsets, after, i)
    ensures SplitBeforeSpaces(chars, offsets, after, i + 1)
  {
    forall k | 0 <= k < i + 1
      ensures SplitBefore(chars, offsets, after, k)
    {
      if k < i { assert SplitBefore(chars, offsets, before, k); }
    }
  }

  /** After the cut, every step left has been looked at together with the one after it, or ends the text. */
  lemma WindowSplit(chars: seq<Char>, offsets: seq<nat>, outcomes: seq<Outcome>, full: nat, length: nat,
                    allowSpaces: bool)
    requires Steps(chars, offsets) && |offsets| == full + 1 && 0 < length <= full <= |outcomes|
    requires length < full || offsets[full] == |chars| - 1
    requires !allowSpaces ==> SplitBeforeSpaces(chars, offsets, outcomes, full - 1)
    ensures !allowSpaces ==> SplitBeforeSpaces(chars, offsets, outcomes, length)
  {
    if !allowSpaces {
      forall k | 0 <= k < length
        ensures SplitBefore(chars, offsets, outcomes, k)
      {
        StepBounds(chars, offsets, k);
        if k < full - 1 { assert SplitBefore(chars, offsets, outcomes, k); }
      }
    }
  }
}
