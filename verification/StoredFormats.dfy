/** What is written, byte by byte: numbers for all values, and each format on a small input
    (src/tagger/vli.h, src/utils/binary_encoder.h, src/morpho/persistent_unordered_map.h,
    src/morpho/morpho_dictionary_encoder.h, src/derivator/derivator_dictionary_encoder.cpp). */
module StoredFormats {
  import opened Bytes
  import opened Words
  import opened ClassFactoring
  import opened DictionaryCodec
  import DerivatorCodec
  import DictionaryFile
  import EditScript
  import FnvHash
  import MapFile
  import SuffixTable
  import Vli

  /** A number of variable length: seven bits in each byte, the highest first, and 0x80 added to all but the last. */
  lemma EncodingBytes(v: UInt32)
    ensures Vli.Encoding(v) ==
      if v < 0x80 then [v]
      else if v < 0x4000 then [0x80 + v / 0x80, v % 0x80]
      else if v < 0x20_0000 then [0x80 + v / 0x4000, 0x80 + v / 0x80 % 0x80, v % 0x80]
      else if v < 0x1000_0000 then
        [0x80 + v / 0x20_0000, 0x80 + v / 0x4000 % 0x80, 0x80 + v / 0x80 % 0x80, v % 0x80]
      else
        [0x80 + v / 0x1000_0000, 0x80 + v / 0x20_0000 % 0x80, 0x80 + v / 0x4000 % 0x80, 0x80 + v / 0x80 % 0x80,
         v % 0x80]
  {
    var a, b, c := v / 0x80, v / 0x80 / 0x80, v / 0x80 / 0x80 / 0x80;
    assert b == v / 0x4000 && c == v / 0x20_0000 && c / 0x80 == v / 0x1000_0000;
    if v >= 0x1000_0000 {
      assert Vli.Continued(c) == [0x80 + c / 0x80] + [0x80 + c % 0x80];
      assert Vli.Continued(b) == Vli.Continued(c) + [0x80 + b % 0x80];
      assert Vli.Continued(a) == Vli.Continued(b) + [0x80 + a % 0x80];
    } else if v >= 0x20_0000 {
      assert Vli.Continued(b) == [0x80 + c] + [0x80 + b % 0x80];
      assert Vli.Continued(a) == Vli.Continued(b) + [0x80 + a % 0x80];
    }
  }

  /** Fixed numbers come with the lowest byte first. */
  lemma NumberBytes()
    ensures Le2(0x0102) == [2, 1] && Le4(0x0102_0304) == [4, 3, 2, 1]
  {
  }

  predicate PowerOfTwo(n: nat) {
    n == 1 || (n > 1 && n % 2 == 0 && PowerOfTwo(n / 2))
  }

  /** The number of buckets is the least power of two that is not below the number asked for. */
  lemma BucketsMean(num: nat)
    ensures var b := FnvHash.Buckets(num); PowerOfTwo(b) && b >= num && (b == 1 || b / 2 < num)
  {
    PowerFromMeans(1, num);
  }

  lemma {:induction false} PowerFromMeans(mask: nat, num: nat)
    requires PowerOfTwo(mask) && (mask == 1 || mask / 2 < num)
    ensures var b := FnvHash.PowerFrom(mask, num); PowerOfTwo(b) && b >= num && (b == 1 || b / 2 < num)
    decreases num - mask
  {
    if mask < num { PowerFromMeans(2 * mask, num); }
  }

  /** The hash of one byte; a byte from 0x80 on is taken as a negative number. */
  lemma HashOfByte()
    ensures FnvHash.Fnv([0x61]) == 0xE40C_292C
    ensures FnvHash.SignExtended(0x7F) == 0x7F && FnvHash.SignExtended(0x80) == 0xFFFF_FF80
  {
    assert FnvHash.Fnv([]) == 2166136261 && [0x61][..0] == [];
    assert FnvHash.Xor(2166136261, 0x61) == 0x811C_9DA4;
  }

  /** The script from `abc` to `xbcd`: a byte is removed and one added at the start, and one is added at the end. Other
      scripts remove at the end. */
  lemma ScriptBytes()
    ensures EditScript.IsMatch([97, 98, 99], [120, 98, 99, 100], EditScript.Match(1, 1, 2))
    ensures EditScript.Encoded(EditScript.ScriptOf([97, 98, 99], [120, 98, 99, 100], EditScript.Match(1, 1, 2)))
         == [1 + 4 + 8, 1, 1, 120, 1, 100]
    ensures EditScript.Encoded(EditScript.Script(0, 3, [], [])) == [2, 3]
  {
    assert [97, 98, 99][1..3] == [98, 99] == [120, 98, 99, 100][1..3];
    assert [120, 98, 99, 100][..1] == [120] && [120, 98, 99, 100][3..] == [100];
  }

  /** A text after another: how many bytes to drop, how many to append, and these. */
  lemma TextAfter()
    ensures TextBytes([97, 98, 99], [97, 98, 100, 101]) == [1, 2, 100, 101]
  {
    var prev, text := [97, 98, 99], [97, 98, 100, 101];
    assert CommonFrom(prev, text, 2) == 2 && text[2..] == [100, 101];
    assert CommonFrom(prev, text, 1) == 2;
  }

  /** The root `ab` of class 258, after the same text: no operation, and the class. */
  lemma RootAfter()
    ensures RootsBytes([97, 98], [RootRef([97, 98], 258)]) == [0, 2, 1]
  {
    hide EditScript.Encoded, EditScript.Best, EditScript.ScriptOf, EditScript.Operations;
    EditScript.NoOperationMeansEqual([97, 98], [97, 98]);
    NothingToDo(RootScript([97, 98], [97, 98]));
    assert [RootRef([97, 98], 258)][1..] == [];
  }

  lemma NothingToDo(s: EditScript.Script)
    requires EditScript.Fits(s) && EditScript.Operations(s) == 0
    ensures EditScript.Encoded(s) == [0]
  {
  }

  /** A lemma `ab` after `a`, with one byte of additional information and this root. */
  lemma LemmaAfter()
    ensures LemmaBytes([97], Lemma([97, 98], [7], [RootRef([97, 98], 258)])) == [0, 1, 98, 1, 7, 1, 0, 2, 1]
  {
    hide RootsBytes;
    RootAfter();
    assert CommonFrom([97], [97, 98], 1) == 1 && [97, 98][1..] == [98];
    assert TextBytes([97], [97, 98]) == [0, 1, 98] && InfoBytes([7]) == [1, 7];
  }

  /** Tags, and the numbers of different texts of each length. */
  lemma TagsAndLengths()
    ensures DictionaryFile.TagsBytes([[120], [121, 122]]) == [1, 120, 2, 121, 122]
    ensures DictionaryFile.HistogramBytes([0, 2]) == [2, 0, 0, 0, 0, 2, 0, 0, 0]
  {
    assert [[120], [121, 122]][1..] == [[121, 122]] && [[121, 122]][1..] == [];
    assert [0, 2][..1] == [0] && [0][..0] == [];
    SmallNumbers();
  }

  /** A suffix with the tag 5 in class 0 and the tags 1 and 3 in class 2: two classes, their numbers, where the tags of
      each start and end, and the tags. */
  lemma SuffixNumbers(m: SuffixTable.Classes)
    requires m == map[0 := [5], 2 := [1, 3]]
    ensures SuffixTable.Numbers(m, 3) == [2, 0, 2, 0, 1, 3, 5, 1, 3]
  {
    hide SuffixTable.Ids, SuffixTable.TagsOf, SuffixTable.Starts;
    ClassesBelow(m, 5, 1, 3);
    TagsByClass(m, 5, 1, 3);
  }

  lemma ClassesBelow(m: SuffixTable.Classes, a: nat, b: nat, c: nat)
    requires m == map[0 := [a], 2 := [b, c]]
    ensures SuffixTable.Ids(m, 3) == [0, 2]
  {
    assert SuffixTable.Ids(m, 0) == [] && SuffixTable.Ids(m, 1) == [0] && SuffixTable.Ids(m, 2) == [0];
  }

  lemma TagsByClass(m: SuffixTable.Classes, a: nat, b: nat, c: nat)
    requires m == map[0 := [a], 2 := [b, c]]
    ensures SuffixTable.TagsOf(m, [0, 2]) == [a, b, c] && SuffixTable.Starts(m, [0, 2]) == [0, 1, 3]
  {
    assert [0, 2][..0] == [] && [0, 2][..1] == [0] && [0, 2][..2] == [0, 2] && [0][..0] == [];
    assert SuffixTable.TagsOf(m, []) == [] && SuffixTable.TagsOf(m, [0]) == [a];
    assert SuffixTable.TagsOf(m, [0, 2]) == [a] + [b, c];
  }

  lemma SmallNumbers()
    ensures Le4(0) == [0, 0, 0, 0] && Le4(2) == [2, 0, 0, 0] && Le4(3) == [3, 0, 0, 0]
  {
  }

  /** A map with one hash: its number of starts, these, the number of bytes, and these. */
  lemma MapBytes(a: nat, b: nat, data: seq<Byte>)
    ensures MapFile.MapBytes([MapFile.Image([a, b], data)]) == [1] + (Le4(2) + (Le4(a) + Le4(b) + (Le4(|data|) + data)))
  {
    hide Le4;
    var image := MapFile.Image([a, b], data);
    TwoNumbers(a, b);
    assert [image][1..] == [];
    assert MapFile.ImagesBytes([image]) == MapFile.ImageBytes(image) + [];
  }

  lemma TwoNumbers(a: nat, b: nat)
    ensures Le4s([a, b]) == Le4(a) + Le4(b)
  {
    assert [a, b][..1] == [a] && [a][..0] == [];
  }

  /** A lemma `ab` after `a`, with the comment `!`, one child and no parent. */
  lemma NodeAfter()
    ensures DerivatorCodec.NodeBytes([97], DerivatorCodec.Node([97, 98], [33], [], 1)) == [0, 1, 98, 1, 33, 1, 0, 0]
  {
    assert CommonFrom([97], [97, 98], 1) == 1 && [97, 98][1..] == [98];
  }
}
