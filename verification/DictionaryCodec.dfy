/** The byte stream of lemmas and roots: each lemma is coded against the previous one, each root as an edit
    script of the previous root (src/morpho/morpho_dictionary_encoder.h), and the two are read back from a
    buffer that always holds the current text (src/morpho/morpho_dictionary.h). */
module DictionaryCodec {
  import opened Bytes
  import opened EditScript
  import opened Words
  import opened ClassFactoring

  /** The encoder stops comparing at a difference, at the end of a text, or at a zero byte. */
  function CommonFrom(prev: Text, text: Text, from: nat): (c: nat)
    requires from <= |prev| && from <= |text| && prev[..from] == text[..from]
    ensures from <= c <= |prev| && c <= |text| && prev[..c] == text[..c]
    decreases |prev| - from
  {
    if from < |prev| && from < |text| && prev[from] != 0 && prev[from] == text[from] then
      assert prev[..from + 1] == prev[..from] + [prev[from]] == text[..from + 1];
      CommonFrom(prev, text, from + 1)
    else from
  }

  function Common(prev: Text, text: Text): (c: nat)
    ensures c <= |prev| && c <= |text| && prev[..c] == text[..c]
  {
    assert prev[..0] == text[..0];
    CommonFrom(prev, text, 0)
  }

  /** A text as the number of bytes to drop from the previous one and the bytes to append. */
  function TextBytes(prev: Text, text: Text): seq<Byte>
    requires |prev| < 0x100 && |text| < 0x100
  {
    var c := Common(prev, text);
    [|prev| - c] + ([|text| - c] + text[c..])
  }

  predicate RootFits(r: RootRef) {
    |r.root| < 0xFF && r.clas < 0x1_0000
  }

  /** Everything about a lemma fits in the bytes reserved for it. */
  predicate LemmaFits(l: Lemma) {
    |l.text| < 0xFF && |l.info| < 0x100 && |l.roots| < 0x100 && forall r <- l.roots :: RootFits(r)
  }

  function RootScript(prev: Text, root: Text): (s: Script)
    ensures |prev| < 0x100 && |root| < 0x100 ==> Fits(s)
  {
    ScriptOf(prev, root, Best(prev, root))
  }

  function RootBytes(prev: Text, r: RootRef): seq<Byte>
    requires |prev| < 0x100 && RootFits(r)
  {
    Encoded(RootScript(prev, r.root)) + Le2(r.clas)
  }

  function RootsBytes(prev: Text, roots: seq<RootRef>): seq<Byte>
    requires |prev| < 0x100 && forall r <- roots :: RootFits(r)
    decreases |roots|
  {
    if roots == [] then [] else RootBytes(prev, roots[0]) + RootsBytes(roots[0].root, roots[1..])
  }

  function InfoBytes(info: Text): seq<Byte>
    requires |info| < 0x100
  {
    [|info|] + info
  }

  ghost function LemmaBytes(prev: Text, l: Lemma): seq<Byte>
    requires |prev| < 0x100 && LemmaFits(l)
  {
    TextBytes(prev, l.text) + (InfoBytes(l.info) + ([|l.roots|] + RootsBytes(l.text, l.roots)))
  }

  ghost function LemmasBytes(prev: Text, lemmas: seq<Lemma>): seq<Byte>
    requires |prev| < 0x100 && forall l <- lemmas :: LemmaFits(l)
    decreases |lemmas|
  {
    if lemmas == [] then [] else LemmaBytes(prev, lemmas[0]) + LemmasBytes(lemmas[0].text, lemmas[1..])
  }

  // ----- The encoder

  /** Appends one lemma without its roots. */
  method EncodeText(prev: Text, text: Text) returns (data: seq<Byte>)
    requires |prev| < 0x100 && |text| < 0x100
    ensures data == TextBytes(prev, text)
  {
    var cpl := 0;
    assert prev[..0] == text[..0];
    while cpl < |prev| && prev[cpl] != 0 && cpl < |text| && prev[cpl] == text[cpl]
      invariant cpl <= |prev| && cpl <= |text| && prev[..cpl] == text[..cpl]
      invariant CommonFrom(prev, text, cpl) == Common(prev, text)
    {
      assert prev[..cpl + 1] == prev[..cpl] + [prev[cpl]] == text[..cpl + 1];
      cpl := cpl + 1;
    }
    data := [|prev| - cpl];
    data := data + [|text| - cpl];
    data := data + text[cpl..];
  }

  /** The script of a root: which parts it has, and the parts. */
  method EncodeScript(prev: Text, form: Text) returns (data: seq<Byte>)
    requires |prev| < 0x100 && |form| < 0x100
    ensures data == Encoded(RootScript(prev, form))
  {
    hide Best, IsMatch, Operations, OptionalLength, OptionalText;
    var best := FindBest(prev, form);
    ghost var s := RootScript(prev, form);
    BestMatches(prev, form);
    OperationsTell(s);
    data := [Operations(ScriptOf(prev, form, best))];
    data := AppendLength(data, best.prevFrom);
    data := AppendLength(data, |prev| - best.prevFrom - best.len);
    data := AppendText(data, form[..best.nextFrom]);
    data := AppendText(data, form[best.nextFrom + best.len..]);
    Associate([Operations(s)], OptionalLength(s.removeStart), OptionalLength(s.removeEnd), OptionalText(s.addStart),
      OptionalText(s.addEnd));
  }

  lemma Associate(a: seq<Byte>, b: seq<Byte>, c: seq<Byte>, d: seq<Byte>, e: seq<Byte>)
    ensures a + b + c + d + e == a + (b + (c + (d + e)))
  {
  }

  method AppendLength(before: seq<Byte>, n: nat) returns (data: seq<Byte>)
    requires n < 0x100
    ensures data == before + OptionalLength(n)
  {
    data := before;
    if n > 0 { data := data + [n]; }
  }

  method AppendText(before: seq<Byte>, text: Text) returns (data: seq<Byte>)
    requires |text| < 0x100
    ensures data == before + OptionalText(text)
  {
    data := before;
    if |text| > 0 { data := data + [|text|] + text; }
  }

  lemma BestMatches(prev: Text, next: Text)
    ensures IsMatch(prev, next, Best(prev, next))
    ensures var m := Best(prev, next); m.prevFrom + m.len <= |prev| && m.nextFrom + m.len <= |next|
  {
  }

  method EncodeRoots(text: Text, roots: seq<RootRef>) returns (data: seq<Byte>)
    requires |text| < 0x100 && forall r <- roots :: RootFits(r)
    ensures data == RootsBytes(text, roots)
  {
    hide Encoded, RootScript, RootsBytes, Le2;
    data := [];
    var prev := text;
    assert roots[0..] == roots;
    for i := 0 to |roots|
      invariant |prev| < 0x100 && (forall r <- roots[i..] :: RootFits(r))
      invariant data + RootsBytes(prev, roots[i..]) == RootsBytes(text, roots)
    {
      var r := roots[i];
      assert r in roots[i..] && forall x <- roots[i + 1..] :: x in roots[i..];
      RootsNext(prev, roots, i);
      var script := EncodeScript(prev, r.root);
      data := data + script;
      data := data + Le2(r.clas);
      prev := r.root;
    }
    NoRoots(prev, roots[|roots|..]);
  }

  lemma RootsNext(prev: Text, roots: seq<RootRef>, i: nat)
    requires |prev| < 0x100 && i < |roots| && RootFits(roots[i]) && (forall r <- roots[i..] :: RootFits(r))
    requires forall r <- roots[i + 1..] :: RootFits(r)
    ensures RootsBytes(prev, roots[i..]) == RootBytes(prev, roots[i]) + RootsBytes(roots[i].root, roots[i + 1..])
  {
    assert roots[i..][0] == roots[i] && roots[i..][1..] == roots[i + 1..];
  }

  lemma NoRoots(prev: Text, roots: seq<RootRef>)
    requires |prev| < 0x100 && roots == []
    ensures RootsBytes(prev, roots) == []
  {
  }

  method EncodeLemma(prev: Text, l: Lemma) returns (data: seq<Byte>)
    requires |prev| < 0x100 && LemmaFits(l)
    ensures data == LemmaBytes(prev, l)
  {
    hide TextBytes, RootsBytes;
    data := EncodeText(prev, l.text);
    var infoLen: Byte, rootsLen: Byte := |l.info|, |l.roots|;
    data := data + [infoLen] + l.info;
    data := data + [rootsLen];
    var roots := EncodeRoots(l.text, l.roots);
    data := data + roots;
  }

  method EncodeLemmas(lemmas: seq<Lemma>) returns (data: seq<Byte>)
    requires forall l <- lemmas :: LemmaFits(l)
    ensures data == LemmasBytes([], lemmas)
  {
    hide LemmaBytes, LemmasBytes;
    data := [];
    var prev: Text := [];
    assert lemmas[0..] == lemmas;
    for k := 0 to |lemmas|
      invariant |prev| < 0x100 && (forall l <- lemmas[k..] :: LemmaFits(l))
      invariant data + LemmasBytes(prev, lemmas[k..]) == LemmasBytes([], lemmas)
    {
      assert lemmas[k] in lemmas[k..] && forall l <- lemmas[k + 1..] :: l in lemmas[k..];
      LemmasNext(prev, lemmas, k);
      var bytes := EncodeLemma(prev, lemmas[k]);
      data := data + bytes;
      prev := lemmas[k].text;
    }
    NoLemmas(prev, lemmas[|lemmas|..]);
  }

  lemma LemmasNext(prev: Text, lemmas: seq<Lemma>, k: nat)
    requires |prev| < 0x100 && k < |lemmas| && LemmaFits(lemmas[k]) && forall l <- lemmas[k..] :: LemmaFits(l)
    requires forall l <- lemmas[k + 1..] :: LemmaFits(l)
    ensures LemmasBytes(prev, lemmas[k..]) == LemmaBytes(prev, lemmas[k]) + LemmasBytes(lemmas[k].text, lemmas[k + 1..])
  {
    hide LemmaBytes;
    assert lemmas[k..][0] == lemmas[k] && lemmas[k..][1..] == lemmas[k + 1..];
  }

  lemma NoLemmas(prev: Text, lemmas: seq<Lemma>)
    requires |prev| < 0x100 && lemmas == []
    ensures LemmasBytes(prev, lemmas) == []
  {
  }

  // ----- Reading

  /** Replaces the end of the text in the buffer. */
  method ReadText(buffer: array<Byte>, len: nat, data: seq<Byte>, pos: nat, ghost prev: Text, ghost text: Text,
                  ghost tail: seq<Byte>)
    returns (newLen: nat, next: nat)
    requires |prev| < 0x100 && |text| < 0x100 && |text| <= buffer.Length
    requires len <= buffer.Length && buffer[..len] == prev
    requires pos <= |data| && TextBytes(prev, text) + tail <= data[pos..]
    modifies buffer
    ensures newLen <= buffer.Length && buffer[..newLen] == text
    ensures pos <= next <= |data| && tail <= data[next..]
  {
    hide Common, TextBytes;
    ghost var c := TextParts(prev, text, data, pos, tail);
    newLen, next := len - data[pos], pos + 1;
    assert buffer[..newLen] == buffer[..len][..newLen] == text[..c];
    var n := data[next];
    next := next + 1;
    for i := 0 to n
      invariant newLen == c + i && next == pos + 2 + i && buffer[..newLen] == text[..c + i]
    {
      assert data[next] == data[pos + 2..pos + 2 + n][i] == text[c..][i];
      buffer[newLen] := data[next];
      newLen, next := newLen + 1, next + 1;
    }
    assert text[..c + n] == text;
  }

  /** Where the parts of an encoded text are. */
  lemma TextParts(prev: Text, text: Text, data: seq<Byte>, pos: nat, tail: seq<Byte>) returns (c: nat)
    requires |prev| < 0x100 && |text| < 0x100 && pos <= |data| && TextBytes(prev, text) + tail <= data[pos..]
    ensures c <= |prev| && c <= |text| && prev[..c] == text[..c]
    ensures var n := |text| - c;
      && pos + 2 + n <= |data| && data[pos] == |prev| - c && data[pos + 1] == n
        && data[pos + 2..pos + 2 + n] == text[c..]
      && tail <= data[pos + 2 + n..]
  {
    hide Common;
    c := Common(prev, text);
    var p2, p1 := text[c..] + tail, [|text| - c] + (text[c..] + tail);
    assert TextBytes(prev, text) + tail == [|prev| - c] + p1;
    Consume(data, pos, [|prev| - c], p1);
    Consume(data, pos + 1, [|text| - c], p2);
    Consume(data, pos + 2, text[c..], tail);
  }

  /** Replays the script of the next root. */
  method ReadRoot(root: array<Byte>, len: nat, data: seq<Byte>, pos: nat, ghost prev: Text, ghost r: RootRef,
                  ghost tail: seq<Byte>)
    returns (newLen: nat, clas: nat, next: nat)
    requires |prev| < 0x100 && RootFits(r) && |r.root| <= root.Length
    requires len <= root.Length && root[..len] == prev
    requires pos <= |data| && RootBytes(prev, r) + tail <= data[pos..]
    modifies root
    ensures newLen <= root.Length && root[..newLen] == r.root && clas == r.clas
    ensures pos <= next <= |data| && tail <= data[next..]
  {
    hide Encoded, RootScript, Apply, Word;
    ghost var s := RootScript(prev, r.root);
    RootScriptLeads(prev, r.root);
    assert RootBytes(prev, r) + tail == Encoded(s) + (Le2(r.clas) + tail);
    newLen, next := Replay(root, len, data, pos, s, prev, Le2(r.clas) + tail);
    Consume(data, next, Le2(r.clas), tail);
    WordOfLe2(data, next, r.clas);
    clas := Word(data, next);
    next := next + 2;
  }

  lemma RootScriptLeads(prev: Text, root: Text)
    ensures Applies(RootScript(prev, root), prev) && Apply(RootScript(prev, root), prev) == root
  {
    ScriptLeadsTo(prev, root, Best(prev, root));
  }
}
