/** Little-endian numbers in byte sequences (src/utils/binary_encoder.h, binary_decoder.h and
    unaligned_access.h). */
module Words {
  import opened Bytes

  /** The lowest 16 bits of a number. */
  function Le2(n: nat): (r: seq<Byte>)
    ensures |r| == 2
  {
    [n % 0x100, n / 0x100 % 0x100]
  }

  /** The lowest 32 bits of a number. */
  function Le4(n: nat): (r: seq<Byte>)
    ensures |r| == 4
  {
    Le2(n % 0x1_0000) + Le2(n / 0x1_0000)
  }

  /** The 16-bit number at a position. */
  function Word(data: seq<Byte>, p: nat): (r: nat)
    requires p + 2 <= |data|
    ensures r < 0x1_0000
  {
    data[p] as int + 0x100 * data[p + 1] as int
  }

  /** The 32-bit number at a position. */
  function Quad(data: seq<Byte>, p: nat): (r: nat)
    requires p + 4 <= |data|
  {
    Word(data, p) as int + 0x1_0000 * Word(data, p + 2) as int
  }

  lemma WordOfLe2(data: seq<Byte>, p: nat, n: nat)
    requires n < 0x1_0000 && p + 2 <= |data| && data[p..p + 2] == Le2(n)
    ensures Word(data, p) == n
  {
    var part := data[p..p + 2];
    assert part[0] == data[p] && part[1] == data[p + 1];
  }

  lemma QuadOfLe4(data: seq<Byte>, p: nat, n: nat)
    requires n < 0x1_0000_0000 && p + 4 <= |data| && data[p..p + 4] == Le4(n)
    ensures Quad(data, p) == n
  {
    hide Word, Le2;
    assert data[p..p + 2] == data[p..p + 4][..2] == Le2(n % 0x1_0000);
    assert data[p + 2..p + 4] == data[p..p + 4][2..] == Le2(n / 0x1_0000);
    WordOfLe2(data, p, n % 0x1_0000);
    WordOfLe2(data, p + 2, n / 0x1_0000);
  }

  /** Numbers one after the other. */
  function Le2s(words: seq<nat>): (r: seq<Byte>)
    ensures |r| == 2 * |words|
  {
    if words == [] then [] else Le2s(words[..|words| - 1]) + Le2(words[|words| - 1])
  }

  lemma Le2sAppend(words: seq<nat>, w: nat)
    ensures Le2s(words + [w]) == Le2s(words) + Le2(w)
  {
    assert (words + [w])[..|words|] == words;
  }

  function Le4s(ns: seq<nat>): (r: seq<Byte>)
    ensures |r| == 4 * |ns|
  {
    if ns == [] then [] else Le4s(ns[..|ns| - 1]) + Le4(ns[|ns| - 1])
  }

  lemma Le4sAppend(ns: seq<nat>, n: nat)
    ensures Le4s(ns + [n]) == Le4s(ns) + Le4(n)
  {
    assert (ns + [n])[..|ns|] == ns;
  }

  /** Reading the `i`-th of consecutive numbers. */
  lemma {:induction false} WordOfLe2s(data: seq<Byte>, p: nat, words: seq<nat>, i: nat)
    requires i < |words| && p <= |data| && Le2s(words) <= data[p..] && words[i] < 0x1_0000
    ensures p + 2 * i + 2 <= |data| && Word(data, p + 2 * i) == words[i]
  {
    hide Word;
    var front, last := words[..|words| - 1], words[|words| - 1];
    assert Le2s(words) == Le2s(front) + Le2(last);
    if i == |words| - 1 {
      var q := p + 2 * i;
      assert data[q..q + 2] == data[p..][2 * i..2 * i + 2] == Le2s(words)[2 * i..2 * i + 2] == Le2(last);
      WordOfLe2(data, q, last);
    } else {
      assert Le2s(front) <= data[p..];
      WordOfLe2s(data, p, front, i);
    }
  }

  /** Consecutive numbers read at once. */
  function Quads(data: seq<Byte>, p: nat, n: nat): (r: seq<nat>)
    requires p + 4 * n <= |data|
    ensures |r| == n
  {
    seq(n, i requires 0 <= i < n => Quad(data, p + 4 * i))
  }

  lemma {:induction false} QuadsOfLe4s(data: seq<Byte>, p: nat, ns: seq<nat>)
    requires p <= |data| && Le4s(ns) <= data[p..] && forall n <- ns :: n < 0x1_0000_0000
    ensures p + 4 * |ns| <= |data| && Quads(data, p, |ns|) == ns
  {
    hide Quad, Le4;
    if ns != [] {
      var k := |ns| - 1;
      var q := p + 4 * k;
      assert Le4s(ns) == Le4s(ns[..k]) + Le4(ns[k]);
      assert Le4s(ns[..k]) <= data[p..];
      assert ns[k] in ns && forall n <- ns[..k] :: n in ns;
      QuadsOfLe4s(data, p, ns[..k]);
      assert data[q..q + 4] == data[p..][4 * k..4 * k + 4] == Le4s(ns)[4 * k..4 * k + 4] == Le4(ns[k]);
      QuadOfLe4(data, q, ns[k]);
      assert Quads(data, p, |ns|) == Quads(data, p, k) + [Quad(data, q)];
      assert ns == ns[..k] + [ns[k]];
    }
  }
}
