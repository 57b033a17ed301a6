/** The byte stream of derivations: each lemma coded against the previous one, its parent as an edit script
    of the lemma (src/derivator/derivator_dictionary_encoder.cpp), and its reading
    (src/derivator/derivator_dictionary.cpp). */
module DerivatorCodec {
  import opened Bytes
  import opened Words
  import opened EditScript
  import opened DictionaryCodec

  /** A lemma with its comment, its parent (empty if it has none), and the number of its children. */
  datatype Node = Node(text: Text, comment: Text, parent: Text, children: nat)

  predicate NodeFits(n: Node) {
    |n.text| < 0xFF && |n.comment| < 0x100 && |n.parent| < 0xFF && n.children < 0x1_0000
  }

  /** No lemma is its own parent. */
  function ParentBytes(n: Node): seq<Byte>
    requires NodeFits(n)
  {
    if n.parent == [] then [0] else Encoded(RootScript(n.text, n.parent))
  }

  function NodeBytes(prev: Text, n: Node): seq<Byte>
    requires |prev| < 0x100 && NodeFits(n)
  {
    TextBytes(prev, n.text) + (InfoBytes(n.comment) + (Le2(n.children) + ParentBytes(n)))
  }

  function NodesBytes(prev: Text, nodes: seq<Node>): seq<Byte>
    requires |prev| < 0x100 && forall n <- nodes :: NodeFits(n)
    decreases |nodes|
  {
    if nodes == [] then [] else NodeBytes(prev, nodes[0]) + NodesBytes(nodes[0].text, nodes[1..])
  }

  method EncodeNode(prev: Text, n: Node) returns (data: seq<Byte>)
    requires |prev| < 0x100 && NodeFits(n)
    ensures data == NodeBytes(prev, n)
  {
    hide TextBytes, Encoded, RootScript, Le2;
    var text := EncodeText(prev, n.text);
    data := text;
    var commentLen: Byte := |n.comment|;
    data := data + ([commentLen] + n.comment);
    data := data + Le2(n.children);
    if n.parent == [] {
      data := data + [0];
    } else {
      var script := EncodeScript(n.text, n.parent);
      data := data + script;
    }
    assert data == (text + InfoBytes(n.comment) + Le2(n.children)) + ParentBytes(n);
  }

  method EncodeNodes(nodes: seq<Node>) returns (data: seq<Byte>)
    requires forall n <- nodes :: NodeFits(n)
    ensures data == NodesBytes([], nodes)
  {
    hide NodeBytes;
    data := [];
    var prev: Text := [];
    assert nodes[0..] == nodes;
    for k := 0 to |nodes|
      invariant |prev| < 0x100 && (forall n <- nodes[k..] :: NodeFits(n))
      invariant data + NodesBytes(prev, nodes[k..]) == NodesBytes([], nodes)
    {
      var n := nodes[k];
      assert n in nodes[k..] && nodes[k..][0] == n && nodes[k..][1..] == nodes[k + 1..];
      var bytes := EncodeNode(prev, n);
      data := data + bytes;
      prev := n.text;
    }
  }

  // ----- Reading

  /** Appends bytes to the text. */
  method AppendBytes(text: Text, data: seq<Byte>, pos: nat, n: nat) returns (newText: Text)
    requires pos + n <= |data|
    ensures newText == text + data[pos..pos + n]
  {
    newText := text;
    for i := 0 to n
      invariant newText == text + data[pos..pos + i]
    {
      newText := newText + [data[pos + i]];
    }
  }

  /** Replaces the end of the text. */
  method ReadSuffix(lemmaText: Text, data: seq<Byte>, pos: nat, ghost text: Text, ghost tail: seq<Byte>)
    returns (newText: Text, next: nat)
    requires |lemmaText| < 0x100 && |text| < 0x100
    requires pos <= |data| && TextBytes(lemmaText, text) + tail <= data[pos..]
    ensures newText == text && pos <= next <= |data| && tail <= data[next..]
  {
    hide TextBytes;
    ghost var c := TextParts(lemmaText, text, data, pos, tail);
    newText, next := lemmaText[..|lemmaText| - data[pos]], pos + 1;
    assert newText == text[..c];
    var n := data[next];
    newText := AppendBytes(newText, data, next + 1, n);
    next := next + 1 + n;
    assert text == text[..c] + text[c..];
  }

  /** Reads an optional length. */
  method ReadLength(data: seq<Byte>, pos: nat, present: bool, ghost n: nat, ghost tail: seq<Byte>)
    returns (len: nat, next: nat)
    requires n < 0x100 && (present <==> n > 0) && pos <= |data| && OptionalLength(n) + tail <= data[pos..]
    ensures len == n && pos <= next <= |data| && tail <= data[next..]
  {
    len, next := 0, pos;
    Consume(data, pos, OptionalLength(n), tail);
    if present {
      len, next := data[next], next + 1;
    }
  }

  /** Reads an optional text. */
  method ReadPart(data: seq<Byte>, pos: nat, present: bool, ghost t: Text, ghost tail: seq<Byte>)
    returns (read: Text, next: nat)
    requires |t| < 0x100 && (present <==> t != []) && pos <= |data| && OptionalText(t) + tail <= data[pos..]
    ensures read == t && pos <= next <= |data| && tail <= data[next..]
  {
    read, next := [], pos;
    Consume(data, pos, OptionalText(t), tail);
    if present {
      TextAfterLength(data, pos, t);
      read, next := data[next + 1..next + 1 + data[next]], next + 1 + data[next];
    }
  }

  /** Reads the parts of a script and builds the parent from them. */
  method ReadScript(lemmaText: Text, operations: nat, data: seq<Byte>, pos: nat, ghost s: Script, ghost tail: seq<Byte>)
    returns (parent: Text, next: nat)
    requires Fits(s) && Applies(s, lemmaText) && operations == Operations(s) && pos <= |data|
    requires OptionalLength(s.removeStart)
      + (OptionalLength(s.removeEnd) + (OptionalText(s.addStart) + (OptionalText(s.addEnd) + tail))) <= data[pos..]
    ensures parent == Apply(s, lemmaText) && pos <= next <= |data| && tail <= data[next..]
  {
    hide Operations, Has, OptionalLength, OptionalText, Fits, Applies, Apply;
    ScriptParts(s, lemmaText);
    ghost var p4 := OptionalText(s.addEnd) + tail;
    ghost var p3 := OptionalText(s.addStart) + p4;
    ghost var p2 := OptionalLength(s.removeEnd) + p3;
    OperationsTell(s);
    var removeStart, removeEnd, addStart, addEnd;
    removeStart, next := ReadLength(data, pos, Has(operations, REMOVE_START), s.removeStart, p2);
    removeEnd, next := ReadLength(data, next, Has(operations, REMOVE_END), s.removeEnd, p3);
    addStart, next := ReadPart(data, next, Has(operations, ADD_START), s.addStart, p4);
    parent := addStart + lemmaText[removeStart..|lemmaText| - removeEnd];
    addEnd, next := ReadPart(data, next, Has(operations, ADD_END), s.addEnd, tail);
    parent := parent + addEnd;
  }

  /** What a script holds and does. */
  lemma ScriptParts(s: Script, t: Text)
    requires Fits(s) && Applies(s, t)
    ensures s.removeStart < 0x100 && s.removeEnd < 0x100 && |s.addStart| < 0x100 && |s.addEnd| < 0x100
    ensures s.removeStart + s.removeEnd <= |t|
    ensures Apply(s, t) == s.addStart + t[s.removeStart..|t| - s.removeEnd] + s.addEnd
  {
  }

  /** Reads the parent of a lemma; no operation means that it has none. */
  method ReadParent(lemmaText: Text, data: seq<Byte>, pos: nat, ghost n: Node, ghost tail: seq<Byte>)
    returns (parent: Text, next: nat)
    requires NodeFits(n) && lemmaText == n.text && n.parent != n.text
    requires pos <= |data| && ParentBytes(n) + tail <= data[pos..]
    ensures parent == n.parent && pos <= next <= |data| && tail <= data[next..]
  {
    hide Operations, OptionalLength, OptionalText, Best, Apply;
    parent := [];
    if n.parent == [] {
      Consume(data, pos, [0], tail);
    } else {
      ParentParts(n, data, pos, tail);
    }
    var operations := data[pos];
    next := pos + 1;
    if operations != 0 {
      RootScriptLeads(n.text, n.parent);
      parent, next := ReadScript(lemmaText, operations, data, next, RootScript(n.text, n.parent), tail);
    }
  }

  lemma ParentParts(n: Node, data: seq<Byte>, pos: nat, tail: seq<Byte>)
    requires NodeFits(n) && n.parent != n.text && n.parent != []
    requires pos <= |data| && ParentBytes(n) + tail <= data[pos..]
    ensures var s := RootScript(n.text, n.parent);
      pos + 1 <= |data| && data[pos] == Operations(s) != 0
      && OptionalLength(s.removeStart)
        + (OptionalLength(s.removeEnd) + (OptionalText(s.addStart) + (OptionalText(s.addEnd) + tail))) <= data[pos
        + 1..]
  {
    hide Operations, OptionalLength, OptionalText, Best, Encoded;
    var s := RootScript(n.text, n.parent);
    OperationsTell(s);
    NoOperationMeansEqual(n.text, n.parent);
    EncodedParts(s, tail);
    var rest := OptionalLength(s.removeStart)
      + (OptionalLength(s.removeEnd) + (OptionalText(s.addStart) + (OptionalText(s.addEnd) + tail)));
    Consume(data, pos, [Operations(s)], rest);
  }

  /** Reads one lemma. */
  method ReadNode(lemmaText: Text, data: seq<Byte>, pos: nat, ghost n: Node, ghost tail: seq<Byte>)
    returns (text: Text, comment: Text, children: nat, parent: Text, next: nat)
    requires |lemmaText| < 0x100 && NodeFits(n) && n.parent != n.text
    requires pos <= |data| && NodeBytes(lemmaText, n) + tail <= data[pos..]
    ensures text == n.text && comment == n.comment && children == n.children && parent == n.parent
    ensures pos <= next <= |data| && tail <= data[next..]
  {
    hide TextBytes, ParentBytes, Word, Le2;
    ghost var p3 := ParentBytes(n) + tail;
    ghost var p2 := Le2(n.children) + p3;
    assert NodeBytes(lemmaText, n) + tail == TextBytes(lemmaText, n.text) + (InfoBytes(n.comment) + p2);
    text, next := ReadSuffix(lemmaText, data, pos, n.text, InfoBytes(n.comment) + p2);
    Consume(data, next, InfoBytes(n.comment), p2);
    var commentLen := data[next];
    assert data[next..next + 1 + commentLen] == InfoBytes(n.comment);
    comment := data[next + 1..next + 1 + commentLen];
    assert comment == data[next..next + 1 + commentLen][1..];
    next := next + 1 + commentLen;
    Consume(data, next, Le2(n.children), p3);
    WordOfLe2(data, next, n.children);
    children := Word(data, next);
    parent, next := ReadParent(text, data, next + 2, n, tail);
  }
}
