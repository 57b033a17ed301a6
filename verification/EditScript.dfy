/** The edit scripts that turn one string into another (src/morpho/morpho_dictionary_encoder.h and
    src/derivator/derivator_dictionary_encoder.cpp), and their in-place replay
    (src/morpho/morpho_dictionary.h). */
module EditScript {
  import opened Bytes

  type Text = seq<Byte>

  /** A common substring: where it starts in both strings, and its length. */
  datatype Match = Match(prevFrom: nat, nextFrom: nat, len: nat)

  predicate IsMatch(prev: Text, next: Text, m: Match) {
    && m.prevFrom + m.len <= |prev| && m.nextFrom + m.len <= |next|
    && prev[m.prevFrom..m.prevFrom + m.len] == next[m.nextFrom..m.nextFrom + m.len]
  }

  /** Length of the common run that starts at two positions. */
  function CommonRun(prev: Text, next: Text, i: nat, j: nat): (len: nat)
    requires i <= |prev| && j <= |next|
    ensures IsMatch(prev, next, Match(i, j, len))
    ensures i + len == |prev| || j + len == |next| || prev[i + len] != next[j + len]
    decreases |prev| - i
  {
    if i < |prev| && j < |next| && prev[i] == next[j] then
      var rest := CommonRun(prev, next, i + 1, j + 1);
      MatchExtends(prev, next, i, j, rest);
      1 + rest
    else 0
  }

  lemma MatchExtends(prev: Text, next: Text, i: nat, j: nat, rest: nat)
    requires i < |prev| && j < |next| && prev[i] == next[j] && IsMatch(prev, next, Match(i + 1, j + 1, rest))
    ensures IsMatch(prev, next, Match(i, j, 1 + rest))
  {
    assert prev[i..i + 1 + rest] == [prev[i]] + prev[i + 1..i + 1 + rest];
    assert next[j..j + 1 + rest] == [next[j]] + next[j + 1..j + 1 + rest];
  }

  /** The search keeps the first of the longest matches. */
  function Longer(best: Match, candidate: Match): Match {
    if candidate.len > best.len then candidate else best
  }

  /** The best match that starts before position `i`, or at position `i` and before `j`. */
  function BestBefore(prev: Text, next: Text, i: nat, j: nat): (m: Match)
    requires i <= |prev| && j <= |next|
    ensures IsMatch(prev, next, m)
    ensures m.len == 0 ==> m.prevFrom == m.nextFrom == 0
    decreases i, j
  {
    if j > 0 && i < |prev|
      then Longer(BestBefore(prev, next, i, j - 1), Match(i, j - 1, CommonRun(prev, next, i, j - 1)))
    else if i > 0 then BestBefore(prev, next, i - 1, |next|)
    else Match(0, 0, 0)
  }

  /** The longest common substring that the encoder uses. */
  function Best(prev: Text, next: Text): (m: Match)
    ensures IsMatch(prev, next, m)
  {
    BestBefore(prev, next, |prev|, 0)
  }

  lemma {:induction false} BestBeforeIsLongest(prev: Text, next: Text, i: nat, j: nat, m: Match)
    requires i <= |prev| && j <= |next| && IsMatch(prev, next, m)
    requires m.len > 0 && (m.prevFrom < i || (m.prevFrom == i && m.nextFrom < j))
    ensures m.len <= BestBefore(prev, next, i, j).len
    ensures m.len == BestBefore(prev, next, i, j).len ==>
      var b := BestBefore(prev, next, i, j);
      b.prevFrom < m.prevFrom || (b.prevFrom == m.prevFrom && b.nextFrom <= m.nextFrom)
    decreases i, j
  {
    hide BestBefore, CommonRun, IsMatch;
    MatchInside(prev, next, m);
    if j > 0 && i < |prev| {
      BestStep(prev, next, i, j - 1);
      if m.prevFrom == i && m.nextFrom == j - 1 {
        BestIsBefore(prev, next, i, j - 1);
        RunCoversMatch(prev, next, m);
      } else {
        BestBeforeIsLongest(prev, next, i, j - 1, m);
      }
    } else {
      BestRow(prev, next, i - 1, j);
      BestBeforeIsLongest(prev, next, i - 1, |next|, m);
    }
  }

  lemma MatchInside(prev: Text, next: Text, m: Match)
    requires IsMatch(prev, next, m)
    ensures m.prevFrom + m.len <= |prev| && m.nextFrom + m.len <= |next|
  {
  }

  lemma {:induction false} BestIsBefore(prev: Text, next: Text, i: nat, j: nat)
    requires i <= |prev| && j <= |next|
    ensures var b := BestBefore(prev, next, i, j);
      b.len > 0 ==> b.prevFrom < i || (b.prevFrom == i && b.nextFrom < j)
    decreases i, j
  {
    hide CommonRun, IsMatch;
    if j > 0 && i < |prev| {
      BestIsBefore(prev, next, i, j - 1);
    } else if i > 0 {
      BestIsBefore(prev, next, i - 1, |next|);
    }
  }

  lemma BestStep(prev: Text, next: Text, i: nat, j: nat)
    requires i < |prev| && j < |next|
    ensures BestBefore(prev, next, i, j + 1) ==
      Longer(BestBefore(prev, next, i, j), Match(i, j, CommonRun(prev, next, i, j)))
  {
  }

  lemma BestRow(prev: Text, next: Text, i: nat, j: nat)
    requires i < |prev| && j <= |next| && (j == 0 || i + 1 == |prev|)
    ensures BestBefore(prev, next, i + 1, j) == BestBefore(prev, next, i, |next|)
  {
  }

  lemma RunCoversMatch(prev: Text, next: Text, m: Match)
    requires IsMatch(prev, next, m)
    ensures m.len <= CommonRun(prev, next, m.prevFrom, m.nextFrom)
  {
    hide CommonRun;
    var run := CommonRun(prev, next, m.prevFrom, m.nextFrom);
    var v, w := prev[m.prevFrom..m.prevFrom + m.len], next[m.nextFrom..m.nextFrom + m.len];
    assert forall k :: 0 <= k < m.len ==> v[k] == prev[m.prevFrom + k] && w[k] == next[m.nextFrom + k];
  }

  /** No common substring is longer than the one used; and of those as long it is the first, by where it starts in the
      previous text and then by where it starts in the next one. */
  lemma BestIsLongest(prev: Text, next: Text, m: Match)
    requires IsMatch(prev, next, m)
    ensures m.len <= Best(prev, next).len
    ensures m.len == Best(prev, next).len ==>
      var b := Best(prev, next);
      b.prevFrom < m.prevFrom || (b.prevFrom == m.prevFrom && b.nextFrom <= m.nextFrom)
  {
    if m.len > 0 { BestBeforeIsLongest(prev, next, |prev|, 0, m); }
  }

  /** The search of the encoder: every pair of starting positions, and the run from there. */
  method FindBest(prev: Text, next: Text) returns (best: Match)
    ensures best == Best(prev, next)
  {
    hide BestBefore, CommonRun, IsMatch;
    best := Match(0, 0, 0);
    NothingSearched(prev, next);
    var prevFrom := 0;
    while prevFrom < |prev|
      invariant prevFrom <= |prev| && best == BestBefore(prev, next, prevFrom, 0)
    {
      var nextFrom := 0;
      while nextFrom < |next|
        invariant nextFrom <= |next| && best == BestBefore(prev, next, prevFrom, nextFrom)
      {
        var len := FindRun(prev, next, prevFrom, nextFrom);
        BestStep(prev, next, prevFrom, nextFrom);
        if len > best.len {
          best := Match(prevFrom, nextFrom, len);
        }
        nextFrom := nextFrom + 1;
      }
      BestRow(prev, next, prevFrom, 0);
      prevFrom := prevFrom + 1;
    }
  }

  lemma NothingSearched(prev: Text, next: Text)
    ensures BestBefore(prev, next, 0, 0) == Match(0, 0, 0)
  {
  }

  method FindRun(prev: Text, next: Text, i: nat, j: nat) returns (len: nat)
    requires i < |prev| && j < |next|
    ensures len == CommonRun(prev, next, i, j)
  {
    hide IsMatch;
    len := 0;
    while i + len < |prev| && j + len < |next| && prev[i + len] == next[j + len]
      invariant i + len <= |prev| && j + len <= |next|
      invariant CommonRun(prev, next, i, j) == len + CommonRun(prev, next, i + len, j + len)
      decreases |prev| - i - len
    {
      len := len + 1;
    }
  }

  const REMOVE_START := 1
  const REMOVE_END := 2
  const ADD_START := 4
  const ADD_END := 8

  /** What a script does: removes from both ends, then adds at both ends. */
  datatype Script = Script(removeStart: nat, removeEnd: nat, addStart: Text, addEnd: Text)

  function ScriptOf(prev: Text, next: Text, m: Match): Script
    requires IsMatch(prev, next, m)
  {
    Script(m.prevFrom, |prev| - m.prevFrom - m.len, next[..m.nextFrom], next[m.nextFrom + m.len..])
  }

  predicate Applies(s: Script, prev: Text) {
    s.removeStart + s.removeEnd <= |prev|
  }

  function Apply(s: Script, prev: Text): Text
    requires Applies(s, prev)
  {
    s.addStart + prev[s.removeStart..|prev| - s.removeEnd] + s.addEnd
  }

  /** Whatever match was chosen, the script leads from one string to the other. */
  lemma ScriptLeadsTo(prev: Text, next: Text, m: Match)
    requires IsMatch(prev, next, m)
    ensures Applies(ScriptOf(prev, next, m), prev) && Apply(ScriptOf(prev, next, m), prev) == next
  {
    var s := ScriptOf(prev, next, m);
    assert next == next[..m.nextFrom] + next[m.nextFrom..m.nextFrom + m.len] + next[m.nextFrom + m.len..];
    assert prev[s.removeStart..|prev| - s.removeEnd] == prev[m.prevFrom..m.prevFrom + m.len];
  }

  /** Which of the four parts are present. */
  function Operations(s: Script): nat {
    (if s.removeStart > 0 then REMOVE_START else 0) + (if s.removeEnd > 0 then REMOVE_END else 0)
    + (if s.addStart != [] then ADD_START else 0) + (if s.addEnd != [] then ADD_END else 0)
  }

  predicate Has(operations: nat, flag: nat)
    requires flag > 0
  {
    operations / flag % 2 == 1
  }

  lemma OperationsTell(s: Script)
    ensures Operations(s) < 0x100
    ensures Has(Operations(s), REMOVE_START) <==> s.removeStart > 0
    ensures Has(Operations(s), REMOVE_END) <==> s.removeEnd > 0
    ensures Has(Operations(s), ADD_START) <==> s.addStart != []
    ensures Has(Operations(s), ADD_END) <==> s.addEnd != []
  {
  }

  /** All lengths fit in one byte. */
  predicate Fits(s: Script) {
    s.removeStart < 0x100 && s.removeEnd < 0x100 && |s.addStart| < 0x100 && |s.addEnd| < 0x100
  }

  function OptionalLength(n: nat): (r: seq<Byte>)
    requires n < 0x100
  {
    if n > 0 then [n] else []
  }

  function OptionalText(t: Text): (r: seq<Byte>)
    requires |t| < 0x100
  {
    if t != [] then [|t|] + t else []
  }

  /** The bytes of a script. */
  function Encoded(s: Script): seq<Byte>
    requires Fits(s)
  {
    OperationsTell(s);
    [Operations(s)]
    + (OptionalLength(s.removeStart)
      + (OptionalLength(s.removeEnd) + (OptionalText(s.addStart) + OptionalText(s.addEnd))))
  }

  /** Only the script of a string and itself has no operation. */
  lemma NoOperationMeansEqual(prev: Text, next: Text)
    ensures Operations(ScriptOf(prev, next, Best(prev, next))) == 0 <==> prev == next
  {
    var m := Best(prev, next);
    ScriptLeadsTo(prev, next, m);
    OperationsTell(ScriptOf(prev, next, m));
    assert prev[0..|prev|] == prev;
    if prev == next {
      BestIsLongest(prev, next, Match(0, 0, |prev|));
    }
  }

  /** Reading a part leaves what follows it. */
  lemma Consume(data: seq<Byte>, pos: nat, part: seq<Byte>, tail: seq<Byte>)
    requires pos <= |data| && part + tail <= data[pos..]
    ensures pos + |part| <= |data| && tail <= data[pos + |part|..]
    ensures data[pos..pos + |part|] == part
    ensures part != [] ==> data[pos] == part[0]
  {
    assert data[pos + |part|..][..|tail|] == data[pos..][|part|..|part| + |tail|] == tail;
    assert data[pos..pos + |part|] == data[pos..][..|part|];
  }

  /** Moves the text to the start of the buffer, dropping its first `n` bytes. */
  method RemoveStart(root: array<Byte>, len: nat, n: nat) returns (newLen: nat)
    requires n <= len <= root.Length
    modifies root
    ensures newLen == len - n && root[..newLen] == old(root[n..len])
  {
    var from, to := n, 0;
    while from < len
      invariant n <= from <= len && to == from - n
      invariant forall k :: 0 <= k < to ==> root[k] == old(root[n + k])
      invariant forall k :: from <= k < len ==> root[k] == old(root[k])
    {
      root[to] := root[from];
      to, from := to + 1, from + 1;
    }
    newLen := to;
  }

  /** Moves the text to the right by `n` bytes. */
  method ShiftRight(root: array<Byte>, len: nat, n: nat)
    requires len + n <= root.Length
    modifies root
    ensures forall k :: 0 <= k < len ==> root[k + n] == old(root[k])
  {
    var from, to := len, len + n;
    while from > 0
      invariant 0 <= from <= len && to == from + n
      invariant forall k :: 0 <= k < from ==> root[k] == old(root[k])
      invariant forall k :: from <= k < len ==> root[k + n] == old(root[k])
    {
      to, from := to - 1, from - 1;
      root[to] := root[from];
    }
  }

  /** Copies `n` bytes to the start of the buffer. */
  method CopyIn(root: array<Byte>, data: seq<Byte>, pos: nat, n: nat)
    requires n <= root.Length && pos + n <= |data|
    modifies root
    ensures forall k :: 0 <= k < n ==> root[k] == data[pos + k]
    ensures forall k :: n <= k < root.Length ==> root[k] == old(root[k])
  {
    for i := 0 to n
      invariant forall k :: 0 <= k < i ==> root[k] == data[pos + k]
      invariant forall k :: i <= k < root.Length ==> root[k] == old(root[k])
    {
      root[i] := data[pos + i];
    }
  }

  /** Moves the text to the right and writes new bytes before it. */
  method AddStart(root: array<Byte>, len: nat, data: seq<Byte>, pos: nat, n: nat) returns (newLen: nat)
    requires len + n <= root.Length && pos + n <= |data|
    modifies root
    ensures newLen == len + n && root[..newLen] == data[pos..pos + n] + old(root[..len])
  {
    ShiftRight(root, len, n);
    CopyIn(root, data, pos, n);
    newLen := len + n;
    MovedText(root[..newLen], old(root[..len]), data[pos..pos + n]);
  }

  lemma MovedText(moved: seq<Byte>, before: seq<Byte>, added: seq<Byte>)
    requires |moved| == |before| + |added|
    requires forall k :: 0 <= k < |added| ==> moved[k] == added[k]
    requires forall k :: 0 <= k < |before| ==> moved[k + |added|] == before[k]
    ensures moved == added + before
  {
    forall k | 0 <= k < |moved|
      ensures moved[k] == (added + before)[k]
    {
      if k >= |added| { assert moved[(k - |added|) + |added|] == before[k - |added|]; }
    }
  }

  /** Appends bytes to the text. */
  method AddEnd(root: array<Byte>, len: nat, data: seq<Byte>, pos: nat, n: nat) returns (newLen: nat)
    requires len + n <= root.Length && pos + n <= |data|
    modifies root
    ensures newLen == len + n && root[..newLen] == old(root[..len]) + data[pos..pos + n]
  {
    newLen := len;
    for i := 0 to n
      invariant newLen == len + i
      invariant root[..newLen] == old(root[..len]) + data[pos..pos + i]
    {
      root[newLen] := data[pos + i];
      newLen := newLen + 1;
    }
  }

  lemma EncodedLength(s: Script)
    requires Fits(s)
    ensures |Encoded(s)| ==
      1 + |OptionalLength(s.removeStart)| + |OptionalLength(s.removeEnd)| + |OptionalText(s.addStart)|
        + |OptionalText(s.addEnd)|
  {
    hide Operations, OptionalLength, OptionalText;
  }

  lemma EncodedParts(s: Script, tail: seq<Byte>)
    requires Fits(s)
    ensures Encoded(s) + tail == [Operations(s)]
      + (OptionalLength(s.removeStart)
        + (OptionalLength(s.removeEnd) + (OptionalText(s.addStart) + (OptionalText(s.addEnd) + tail))))
  {
    hide Operations, OptionalLength, OptionalText;
  }

  /** Replays a script in the buffer that holds the previous text. No byte is written beyond the longer
      of the two texts. */
  method Replay(root: array<Byte>, len: nat, data: seq<Byte>, pos: nat, ghost s: Script, ghost prev: Text,
                ghost tail: seq<Byte>)
    returns (newLen: nat, next: nat)
    requires len <= root.Length && root[..len] == prev && Applies(s, prev) && Fits(s)
    requires |Apply(s, prev)| <= root.Length
    requires pos <= |data| && Encoded(s) + tail <= data[pos..]
    modifies root
    ensures newLen <= root.Length && root[..newLen] == Apply(s, prev)
    ensures next == pos + |Encoded(s)| && next <= |data| && tail <= data[next..]
  {
    hide Operations, Has, OptionalText, OptionalLength, Encoded;
    ghost var p4 := OptionalText(s.addEnd) + tail;
    ghost var p3 := OptionalText(s.addStart) + p4;
    ghost var p2 := OptionalLength(s.removeEnd) + p3;
    ghost var p1 := OptionalLength(s.removeStart) + p2;
    EncodedParts(s, tail);
    EncodedLength(s);
    OperationsTell(s);
    Consume(data, pos, [Operations(s)], p1);
    var operations := data[pos];
    newLen, next := len, pos + 1;
    newLen, next := ReplayRemoveStart(root, newLen, data, next, operations, s, prev, p2);
    newLen, next := ReplayRemoveEnd(root, newLen, data, next, operations, s, prev, p3);
    ghost var middle := prev[s.removeStart..|prev| - s.removeEnd];
    newLen, next := ReplayAddStart(root, newLen, data, next, Has(operations, ADD_START), s.addStart, middle, p4);
    newLen, next :=
      ReplayAddEnd(root, newLen, data, next, Has(operations, ADD_END), s.addEnd, s.addStart + middle, tail);
  }

  method ReplayRemoveStart(root: array<Byte>, len: nat, data: seq<Byte>, pos: nat, operations: nat,
                           ghost s: Script, ghost prev: Text, ghost tail: seq<Byte>)
    returns (newLen: nat, next: nat)
    requires Fits(s) && Applies(s, prev) && operations == Operations(s)
    requires len <= root.Length && root[..len] == prev
    requires pos <= |data| && OptionalLength(s.removeStart) + tail <= data[pos..]
    modifies root
    ensures newLen <= root.Length && root[..newLen] == prev[s.removeStart..]
    ensures next == pos + |OptionalLength(s.removeStart)| <= |data| && tail <= data[next..]
  {
    hide Operations, Has;
    newLen, next := len, pos;
    OperationsTell(s);
    Consume(data, pos, OptionalLength(s.removeStart), tail);
    if Has(operations, REMOVE_START) {
      newLen := RemoveStart(root, len, data[next]);
      next := next + 1;
    }
  }

  method ReplayRemoveEnd(root: array<Byte>, len: nat, data: seq<Byte>, pos: nat, operations: nat,
                         ghost s: Script, ghost prev: Text, ghost tail: seq<Byte>)
    returns (newLen: nat, next: nat)
    requires Fits(s) && Applies(s, prev) && operations == Operations(s)
    requires len <= root.Length && root[..len] == prev[s.removeStart..]
    requires pos <= |data| && OptionalLength(s.removeEnd) + tail <= data[pos..]
    ensures newLen <= root.Length && root[..newLen] == prev[s.removeStart..|prev| - s.removeEnd]
    ensures next == pos + |OptionalLength(s.removeEnd)| <= |data| && tail <= data[next..]
  {
    hide Operations, Has;
    newLen, next := len, pos;
    OperationsTell(s);
    Consume(data, pos, OptionalLength(s.removeEnd), tail);
    if Has(operations, REMOVE_END) {
      newLen := newLen - data[next];
      next := next + 1;
    }
    assert root[..newLen] == root[..len][..newLen];
  }

  method ReplayAddStart(root: array<Byte>, len: nat, data: seq<Byte>, pos: nat, present: bool,
                        ghost added: Text, ghost text: Text, ghost tail: seq<Byte>)
    returns (newLen: nat, next: nat)
    requires |added| < 0x100 && (present <==> added != [])
    requires len + |added| <= root.Length && root[..len] == text
    requires pos <= |data| && OptionalText(added) + tail <= data[pos..]
    modifies root
    ensures newLen <= root.Length && root[..newLen] == added + text
    ensures next == pos + |OptionalText(added)| <= |data| && tail <= data[next..]
  {
    newLen, next := len, pos;
    Consume(data, pos, OptionalText(added), tail);
    if present {
      TextAfterLength(data, pos, added);
      newLen := AddStart(root, len, data, next + 1, data[next]);
      next := next + 1 + data[next];
    }
  }

  lemma TextAfterLength(data: seq<Byte>, pos: nat, t: Text)
    requires t != [] && |t| < 0x100 && pos + |t| + 1 <= |data| && data[pos..pos + |t| + 1] == [|t|] + t
    ensures data[pos] == |t| && data[pos + 1..pos + 1 + |t|] == t
  {
    var part := data[pos..pos + |t| + 1];
    assert part[0] == |t|;
    assert data[pos + 1..pos + 1 + |t|] == part[1..];
  }

  method ReplayAddEnd(root: array<Byte>, len: nat, data: seq<Byte>, pos: nat, present: bool,
                      ghost added: Text, ghost text: Text, ghost tail: seq<Byte>)
    returns (newLen: nat, next: nat)
    requires |added| < 0x100 && (present <==> added != [])
    requires len + |added| <= root.Length && root[..len] == text
    requires pos <= |data| && OptionalText(added) + tail <= data[pos..]
    modifies root
    ensures newLen <= root.Length && root[..newLen] == text + added
    ensures next == pos + |OptionalText(added)| <= |data| && tail <= data[next..]
  {
    newLen, next := len, pos;
    Consume(data, pos, OptionalText(added), tail);
    if present {
      TextAfterLength(data, pos, added);
      newLen := AddEnd(root, len, data, next + 1, data[next]);
      next := next + 1 + data[next];
    }
  }
}
