/** What the hashes of a loaded dictionary store: a lemma refers to its roots and a root to its lemma, each
    by the place of the other (src/morpho/morpho_dictionary.h). */
module DictionaryEntries {
  import opened Bytes
  import opened Words
  import opened ClassFactoring
  import opened FnvHash

  /** The place of an item, if known. */
  function PlaceOf(places: seq<nat>, k: nat): nat {
    if k < |places| then places[k] else 0
  }

  /** How a lemma refers to a root. */
  function RefBytes(r: RootRef, place: nat): (b: seq<Byte>)
    ensures |b| == 7
  {
    Le4(place) + [|r.root| % 0x100] + Le2(r.clas)
  }

  /** The references to roots whose places start at `base`. */
  function Refs(roots: seq<RootRef>, places: seq<nat>, base: nat): (b: seq<Byte>)
    ensures |b| == 7 * |roots|
  {
    if roots == [] then []
    else
      var n := |roots| - 1;
      Refs(roots[..n], places, base) + RefBytes(roots[n], PlaceOf(places, base + n))
  }

  lemma RefsNext(roots: seq<RootRef>, places: seq<nat>, base: nat, i: nat)
    requires i < |roots|
    ensures Refs(roots[..i + 1], places, base) == Refs(roots[..i], places, base)
      + RefBytes(roots[i], PlaceOf(places, base + i))
  {
    assert roots[..i + 1][..i] == roots[..i];
  }

  /** A reference is found in its slot. */
  lemma {:induction false} RefAt(roots: seq<RootRef>, places: seq<nat>, base: nat, i: nat)
    requires i < |roots|
    ensures Refs(roots, places, base)[7 * i..7 * i + 7] == RefBytes(roots[i], PlaceOf(places, base + i))
  {
    hide RefBytes;
    var n := |roots| - 1;
    if i < n {
      RefAt(roots[..n], places, base, i);
      assert Refs(roots, places, base)[7 * i..7 * i + 7] == Refs(roots[..n], places, base)[7 * i..7 * i + 7];
    }
  }

  function Header(l: Lemma): seq<Byte> {
    [|l.info| % 0x100] + l.info + [|l.roots| % 0x100]
  }

  function LemmaEntry(l: Lemma, places: seq<nat>, base: nat): (e: Entry)
    ensures e.ToSlot() == LemmaSlot(l)
  {
    Entry(l.text, Header(l) + Refs(l.roots, places, base))
  }

  function LemmaSlot(l: Lemma): Slot {
    Slot(l.text, 1 + |l.info| + 1 + |l.roots| * 7)
  }

  function RootEntry(r: RootRef, place: nat, textLen: nat): (e: Entry)
    ensures e.ToSlot() == RootSlot(r)
  {
    Entry(r.root, Le2(r.clas) + Le4(place) + [textLen % 0x100])
  }

  function RootSlot(r: RootRef): Slot {
    Slot(r.root, 2 + 4 + 1)
  }

  function RootEntriesOf(l: Lemma, place: nat): (r: seq<Entry>)
    ensures |r| == |l.roots| && forall i :: 0 <= i < |r| ==> r[i] == RootEntry(l.roots[i], place, |l.text|)
  {
    seq(|l.roots|, i requires 0 <= i < |l.roots| => RootEntry(l.roots[i], place, |l.text|))
  }

  function RootCount(lemmas: seq<Lemma>): nat {
    if lemmas == [] then 0 else RootCount(lemmas[..|lemmas| - 1]) + |lemmas[|lemmas| - 1].roots|
  }

  /** The entries of all roots, given the places of the lemmas. */
  function RootEntries(lemmas: seq<Lemma>, places: seq<nat>): (r: seq<Entry>)
    ensures |r| == RootCount(lemmas)
  {
    if lemmas == [] then []
    else
      var n := |lemmas| - 1;
      RootEntries(lemmas[..n], places) + RootEntriesOf(lemmas[n], PlaceOf(places, n))
  }

  /** The entries of all lemmas, given the places of the roots. */
  function LemmaEntries(lemmas: seq<Lemma>, places: seq<nat>): (r: seq<Entry>)
    ensures |r| == |lemmas|
    ensures forall k :: 0 <= k < |r| ==> r[k] == LemmaEntry(lemmas[k], places, RootCount(lemmas[..k]))
  {
    seq(|lemmas|, k requires 0 <= k < |lemmas| => LemmaEntry(lemmas[k], places, RootCount(lemmas[..k])))
  }

  lemma LemmaEntriesNext(lemmas: seq<Lemma>, places: seq<nat>, k: nat)
    requires k < |lemmas|
    ensures LemmaEntries(lemmas[..k + 1], places) ==
            LemmaEntries(lemmas[..k], places) + [LemmaEntry(lemmas[k], places, RootCount(lemmas[..k]))]
  {
    hide LemmaEntry, RootCount;
    assert forall i :: 0 <= i <= k ==> lemmas[..k + 1][..i] == lemmas[..i];
    assert forall i :: 0 <= i < k ==> lemmas[..k][..i] == lemmas[..i];
  }

  lemma RootEntriesNext(lemmas: seq<Lemma>, places: seq<nat>, k: nat)
    requires k < |lemmas|
    ensures RootEntries(lemmas[..k + 1], places) == RootEntries(lemmas[..k], places)
      + RootEntriesOf(lemmas[k], PlaceOf(places, k))
    ensures RootCount(lemmas[..k + 1]) == RootCount(lemmas[..k]) + |lemmas[k].roots|
  {
    hide RootEntriesOf;
    assert lemmas[..k + 1][..k] == lemmas[..k];
  }

  /** The entry of the `i`-th root of lemma `k`. */
  lemma {:induction false} RootEntryAt(lemmas: seq<Lemma>, places: seq<nat>, k: nat, i: nat)
    requires k < |lemmas| && i < |lemmas[k].roots|
    ensures RootCount(lemmas[..k]) + i < RootCount(lemmas)
    ensures RootEntries(lemmas, places)[RootCount(lemmas[..k]) + i] ==
      RootEntry(lemmas[k].roots[i], PlaceOf(places, k), |lemmas[k].text|)
  {
    hide RootEntry;
    var n := |lemmas| - 1;
    assert lemmas[..n + 1] == lemmas;
    RootEntriesNext(lemmas, places, n);
    if k < n {
      RootEntryAt(lemmas[..n], places, k, i);
      assert lemmas[..n][..k] == lemmas[..k];
    }
  }

  /** Each root entry belongs to some lemma. */
  lemma {:induction false} RootOwner(lemmas: seq<Lemma>, places: seq<nat>, j: nat) returns (k: nat, i: nat)
    requires j < RootCount(lemmas)
    ensures k < |lemmas| && i < |lemmas[k].roots| && j == RootCount(lemmas[..k]) + i
    ensures RootEntries(lemmas, places)[j] == RootEntry(lemmas[k].roots[i], PlaceOf(places, k), |lemmas[k].text|)
  {
    hide RootEntry;
    var n := |lemmas| - 1;
    var before := RootCount(lemmas[..n]);
    if j < before {
      k, i := RootOwner(lemmas[..n], places, j);
      assert lemmas[..n][..k] == lemmas[..k];
    } else {
      k, i := n, j - before;
    }
    RootEntryAt(lemmas, places, k, i);
  }

  /** Places do not influence keys and sizes. */
  lemma {:induction false} SameRootSlots(lemmas: seq<Lemma>, a: seq<nat>, b: seq<nat>, j: nat)
    requires j < RootCount(lemmas)
    ensures RootEntries(lemmas, a)[j].ToSlot() == RootEntries(lemmas, b)[j].ToSlot()
  {
    var k, i := RootOwner(lemmas, a, j);
    RootEntryAt(lemmas, b, k, i);
  }
}
