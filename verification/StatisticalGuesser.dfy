/** The search for a guesser rule: the longest suffix, and for it the longest prefix, that have rules
    (src/morpho/morpho_statistical_guesser.cpp and morpho_statistical_guesser_encoder.cpp). */
module StatisticalGuesser {
  import opened Bytes
  import opened Words
  import opened FnvHash
  import EditScript
  import PersistentMap

  type Text = seq<Byte>

  const SPACE: Byte := 32

  /** Encoded rules of each label; the first byte counts them. */
  type Rules = map<Text, seq<Byte>>

  /** The entry of a label: the length of its rules, and the rules. */
  function RulePayload(data: seq<Byte>): seq<Byte> {
    Le2(|data|) + data
  }

  /** A label added only so that longer ones are found has no rules. */
  const NoRules: seq<Byte> := [0]

  function RulesOf(raw: Rules, key: Text): seq<Byte> {
    if key in raw then raw[key] else NoRules
  }

  ghost predicate HasKey(items: seq<Entry>, key: Text) {
    exists e <- items :: e.key == key
  }

  /** The stored labels: all those with rules, and all their non-empty prefixes. */
  ghost predicate RulesStored(items: seq<Entry>, raw: Rules) {
    && (forall e <- items :: e.payload == RulePayload(RulesOf(raw, e.key)))
    && (forall key <- raw :: HasKey(items, key) && raw[key] != [] && raw[key][0] != 0 && |raw[key]| < 0x1_0000)
    && forall key, i :: HasKey(items, key) && 0 < i < |key| ==> HasKey(items, key[..i])
  }

  /** Closing the labels under prefixes stores them as the search needs it. */
  lemma EnlargedRules(items: seq<Entry>, raw: Rules)
    requires forall key <- raw :: raw[key] != [] && raw[key][0] != 0 && |raw[key]| < 0x1_0000
    requires var stored :=
      PersistentMap.Enlarged(map key | key in raw :: RulePayload(raw[key]), true, false, RulePayload(NoRules));
      (forall e <- items :: e.key in stored && stored[e.key] == e.payload) && forall key <- stored :: HasKey(items, key)
    ensures RulesStored(items, raw)
  {
    hide RulePayload, PersistentMap.Enlarged;
    var payloads := map key | key in raw :: RulePayload(raw[key]);
    forall key, i | HasKey(items, key) && 0 < i < |key|
      ensures HasKey(items, key[..i])
    {
      PersistentMap.EnlargedPrefixes(payloads, RulePayload(NoRules), key, i);
    }
  }

  function RuleSize(data: seq<Byte>): nat {
    if |data| < 2 then 0 else 2 + Word(data, 0)
  }

  /** What an entry says, read where it is stored: whether the label has rules. */
  lemma ReadRules(raw: Rules, key: Text, data: seq<Byte>, p: nat)
    requires p <= |data| && RulePayload(RulesOf(raw, key)) <= data[p..]
    requires key in raw ==> raw[key] != [] && raw[key][0] != 0
    ensures p + 2 < |data| && (data[p + 2] != 0 <==> key in raw) && RulesOf(raw, key) <= data[p + 2..]
  {
    hide Le2;
    var rules := RulesOf(raw, key);
    assert RulePayload(rules) + [] == Le2(|rules|) + (rules + []);
    EditScript.Consume(data, p, Le2(|rules|), rules + []);
    EditScript.Consume(data, p + 2, rules, []);
  }

  lemma RuleDelimits(raw: Rules, key: Text)
    requires |RulesOf(raw, key)| < 0x1_0000
    ensures Delimits(RuleSize, RulePayload(RulesOf(raw, key))) && RulePayload(RulesOf(raw, key)) != []
  {
    hide Le2, Word;
    var payload := RulePayload(RulesOf(raw, key));
    forall rest: seq<Byte>
      ensures RuleSize(payload + rest) == |payload|
    {
      var data := payload + rest;
      assert data[0..2] == Le2(|RulesOf(raw, key)|);
      WordOfLe2(data, 0, |RulesOf(raw, key)|);
    }
  }

  /** The last `s` bytes of a form, last first. */
  function Reversed(form: Text, s: nat): (r: Text)
    requires s <= |form|
    ensures |r| == s && forall i :: 0 <= i < s ==> r[i] == form[|form| - 1 - i]
  {
    seq(s, i requires 0 <= i < s => form[|form| - 1 - i])
  }

  /** The label of the rules for a suffix and a prefix. */
  function Label(form: Text, s: nat, p: nat): Text
    requires s + p <= |form|
  {
    Reversed(form, s) + [SPACE] + form[..p]
  }

  /** There are rules for this suffix and this prefix of the form. */
  predicate Matches(raw: Rules, form: Text, s: nat, p: nat) {
    s + p <= |form| && Label(form, s, p) in raw
  }

  /** The rules as they are given, for pairs of prefix and suffix. */
  type Affixes = map<(Text, Text), seq<Byte>>

  /** The label under which the encoder stores the rules of a prefix and a suffix: the suffix reversed, a space,
      and the prefix. */
  function LabelOf(prefix: Text, suffix: Text): Text {
    Reversed(suffix, |suffix|) + [SPACE] + prefix
  }

  /** The labels are those of the rules. Prefixes and suffixes are separated by a space, so they hold none. */
  ghost predicate Labelled(raw: Rules, affixes: Affixes) {
    && (forall a <- affixes :: 32 !in a.0 && 32 !in a.1)
    && (forall a <- affixes :: LabelOf(a.0, a.1) in raw && raw[LabelOf(a.0, a.1)] == affixes[a])
    && forall key <- raw :: exists a <- affixes :: key == LabelOf(a.0, a.1)
  }

  lemma OneSpace(prefix: Text, suffix: Text)
    requires 32 !in prefix && 32 !in suffix
    ensures forall i :: 0 <= i < |LabelOf(prefix, suffix)| && i != |suffix| ==> LabelOf(prefix, suffix)[i] != SPACE
  {
    forall i | 0 <= i < |LabelOf(prefix, suffix)| && i != |suffix|
      ensures LabelOf(prefix, suffix)[i] != SPACE
    {
      if i < |suffix| {
        assert suffix[|suffix| - 1 - i] in suffix;
      } else {
        assert prefix[i - |suffix| - 1] in prefix;
      }
    }
  }

  /** A label tells prefix and suffix apart. */
  lemma LabelTells(form: Text, s: nat, p: nat, prefix: Text, suffix: Text)
    requires s + p <= |form| && 32 !in prefix && 32 !in suffix && Label(form, s, p) == LabelOf(prefix, suffix)
    ensures prefix == form[..p] && suffix == form[|form| - s..]
  {
    OneSpace(prefix, suffix);
    var text := Label(form, s, p);
    assert text[s] == SPACE;
    assert s == |suffix|;
    assert Reversed(form, s) == text[..s];
    assert Reversed(suffix, s) == text[..s];
    assert form[..p] == text[s + 1..];
    assert prefix == text[s + 1..];
    forall i | 0 <= i < s
      ensures suffix[i] == form[|form| - s..][i]
    {
      assert Reversed(form, s)[s - 1 - i] == Reversed(suffix, s)[s - 1 - i];
    }
  }

  /** There are rules for a suffix and a prefix exactly if the form ends with the suffix of some rules and starts
      with their prefix, without overlap. */
  lemma MatchesExactly(raw: Rules, affixes: Affixes, form: Text, s: nat, p: nat)
    requires Labelled(raw, affixes)
    ensures Matches(raw, form, s, p) <==> s + p <= |form| && (form[..p], form[|form| - s..]) in affixes
    ensures Matches(raw, form, s, p) ==> raw[Label(form, s, p)] == affixes[(form[..p], form[|form| - s..])]
  {
    hide Label, LabelOf;
    if s + p <= |form| {
      LabelIs(form, s, p);
      if Matches(raw, form, s, p) {
        var a :| a in affixes && Label(form, s, p) == LabelOf(a.0, a.1);
        LabelTells(form, s, p, a.0, a.1);
        assert a == (form[..p], form[|form| - s..]);
      }
    }
  }

  lemma LabelIs(form: Text, s: nat, p: nat)
    requires s + p <= |form|
    ensures Label(form, s, p) == LabelOf(form[..p], form[|form| - s..])
  {
    assert Reversed(form, s) == Reversed(form[|form| - s..], s);
  }

  lemma LabelPrefixes(form: Text, s: nat, p: nat, k: nat)
    requires s + p <= |form| && k <= s
    ensures Label(form, s, p)[..k] == Reversed(form, k)
  {
  }

  lemma LabelShorter(form: Text, s: nat, p: nat, q: nat)
    requires s + p <= |form| && q <= p
    ensures s + 1 + q <= |Label(form, s, p)| && Label(form, s, p)[..s + 1 + q] == Label(form, s, q)
  {
  }

  /** The search for the suffix of a rule does not stop early: shorter suffixes are stored reversed. */
  lemma SuffixStored(items: seq<Entry>, raw: Rules, form: Text, k: nat, s: nat, p: nat)
    requires RulesStored(items, raw) && Matches(raw, form, s, p) && 0 < k <= s
    ensures HasKey(items, Reversed(form, k))
  {
    LabelPrefixes(form, s, p, k);
    assert HasKey(items, Label(form, s, p));
    assert HasKey(items, Label(form, s, p)[..k]);
  }

  /** Nor does the search for its prefix: labels with shorter prefixes are stored. */
  lemma PrefixStored(items: seq<Entry>, raw: Rules, form: Text, s: nat, q: nat, p: nat)
    requires RulesStored(items, raw) && Matches(raw, form, s, p) && q <= p
    ensures HasKey(items, Label(form, s, q))
  {
    LabelShorter(form, s, p, q);
    assert HasKey(items, Label(form, s, p));
    if q < p {
      assert HasKey(items, Label(form, s, p)[..s + 1 + q]);
    }
  }

  /** Compares suffixes first, then prefixes. */
  predicate NotBetter(a: (nat, nat), b: (nat, nat)) {
    a.0 < b.0 || (a.0 == b.0 && a.1 <= b.1)
  }

  class Guesser {
    var rules: PersistentMap.Map

    ghost predicate Loaded(items: seq<Entry>, raw: Rules)
      reads this, rules, rules.hashes
    {
      rules.Readable(items, RuleSize) && PersistentMap.NoneEmpty(items) && RulesStored(items, raw)
    }

    /** The rules of a label are stored from a position on. */
    ghost predicate RuleAt(raw: Rules, key: Text, rule: nat)
      reads this, rules, rules.hashes
    {
      key in raw && |key| < |rules.hashes| && rule <= |rules.hashes[|key|].data|
        && raw[key] <= rules.hashes[|key|].data[rule..]
    }

    constructor (rules: PersistentMap.Map, ghost items: seq<Entry>, ghost raw: Rules)
      requires rules.Holds(items) && RulesStored(items, raw)
      ensures Loaded(items, raw)
    {
      this.rules := rules;
      new;
      forall e | e in items
        ensures e.Bytes() != [] && Delimits(RuleSize, e.payload)
      {
        RuleDelimits(raw, e.key);
      }
    }

    /** Whether a label is stored, and whether it has rules. */
    method Find(key: Text, ghost items: seq<Entry>, ghost raw: Rules) returns (stored: bool, nonEmpty: bool, rule: nat)
      requires Loaded(items, raw)
      ensures stored <==> HasKey(items, key)
      ensures nonEmpty <==> key in raw
      ensures nonEmpty ==> stored && RuleAt(raw, key, rule)
    {
      hide PersistentMap.Map.Holds, PersistentMap.Map.Place, RulePayload, RuleSize;
      stored, nonEmpty, rule := false, false, 0;
      var r, k := rules.At(key, RuleSize, items);
      if r.Some? {
        stored := true;
        assert items[k] in items;
        ReadRules(raw, key, rules.hashes[|key|].data, r.value);
        rule := r.value + 2;
        nonEmpty := rules.hashes[|key|].data[rule] != 0;
      }
    }

    /** How long the suffixes are that may have rules: those of the form that are stored reversed. */
    method LongestSuffix(form: Text, ghost items: seq<Entry>, ghost raw: Rules) returns (suffixLen: nat)
      requires Loaded(items, raw)
      ensures suffixLen <= |form| && forall s: nat, p: nat :: suffixLen < s ==> !Matches(raw, form, s, p)
    {
      hide Guesser.Loaded, Matches, HasKey, RulesStored;
      var key: Text := [];
      suffixLen := 0;
      while suffixLen < |form|
        invariant suffixLen <= |form| && key == Reversed(form, suffixLen)
      {
        key := key + [form[|form| - (suffixLen + 1)]];
        assert key == Reversed(form, suffixLen + 1);
        var stored, nonEmpty, rule := Find(key, items, raw);
        if !stored {
          LoadedRules(items, raw);
          forall s: nat, p: nat | suffixLen < s
            ensures !Matches(raw, form, s, p)
          {
            if Matches(raw, form, s, p) { SuffixStored(items, raw, form, suffixLen + 1, s, p); }
          }
          return;
        }
        suffixLen := suffixLen + 1;
      }
      forall s: nat, p: nat | suffixLen < s
        ensures !Matches(raw, form, s, p)
      {
        TooLong(raw, form, s, p);
      }
    }

    lemma LoadedRules(items: seq<Entry>, raw: Rules)
      requires Loaded(items, raw)
      ensures RulesStored(items, raw)
    {
    }

    /** The longest prefix with rules for a given suffix. */
    method LongestPrefix(form: Text, suffixLen: nat, ghost items: seq<Entry>, ghost raw: Rules)
      returns (prefixLen: Option<nat>, rule: nat)
      requires Loaded(items, raw) && suffixLen <= |form|
      ensures prefixLen.None? ==> forall p: nat :: !Matches(raw, form, suffixLen, p)
      ensures prefixLen.Some? ==> Matches(raw, form, suffixLen, prefixLen.value)
      ensures prefixLen.Some? ==> RuleAt(raw, Label(form, suffixLen, prefixLen.value), rule)
      ensures prefixLen.Some? ==> forall p: nat :: prefixLen.value < p ==> !Matches(raw, form, suffixLen, p)
    {
      hide Guesser.Loaded, Guesser.RuleAt, HasKey, RulesStored;
      var key := Reversed(form, suffixLen) + [SPACE];
      prefixLen, rule := None, 0;
      var p := 0;
      assert key + form[..0] == key;
      while p + suffixLen <= |form|
        invariant 0 <= p && p + suffixLen <= |form| + 1
        invariant key == Label(form, suffixLen, if p == 0 then 0 else p - 1)
        invariant prefixLen.None? ==> forall q :: 0 <= q < p ==> !Matches(raw, form, suffixLen, q)
        invariant prefixLen.Some? ==> prefixLen.value < p && Matches(raw, form, suffixLen, prefixLen.value)
        invariant prefixLen.Some? ==> RuleAt(raw, Label(form, suffixLen, prefixLen.value), rule)
        invariant prefixLen.Some? ==> forall q :: prefixLen.value < q < p ==> !Matches(raw, form, suffixLen, q)
        decreases |form| - p
      {
        if p > 0 {
          key := key + [form[p - 1]];
          assert form[..p] == form[..p - 1] + [form[p - 1]];
        }
        assert key == Label(form, suffixLen, p);
        var stored, nonEmpty, at := Find(key, items, raw);
        if !stored {
          LoadedRules(items, raw);
          forall q: nat | p <= q
            ensures !Matches(raw, form, suffixLen, q)
          {
            if Matches(raw, form, suffixLen, q) { PrefixStored(items, raw, form, suffixLen, p, q); }
          }
          return;
        }
        if nonEmpty {
          prefixLen, rule := Some(p), at;
        }
        p := p + 1;
      }
    }

    /** The rules are stored from a position on in the bytes for labels of a length. */
    ghost predicate BytesAt(bytes: seq<Byte>, labelLen: nat, rule: nat)
      reads this, rules, rules.hashes
    {
      labelLen < |rules.hashes| && rule <= |rules.hashes[labelLen].data| && bytes <= rules.hashes[labelLen].data[rule..]
    }

    /** The rules used for a form: of all rules whose suffix ends the form and whose prefix starts it, without
        overlap, those with the longest suffix, and for it the longest prefix. */
    method Search(form: Text, ghost items: seq<Entry>, ghost raw: Rules, ghost affixes: Affixes)
      returns (found: Option<(nat, nat)>, rule: nat)
      requires Loaded(items, raw) && Labelled(raw, affixes)
      ensures found.None? <==> forall a <- affixes ::
        !(|a.0| + |a.1| <= |form| && form[..|a.0|] == a.0 && form[|form| - |a.1|..] == a.1)
      ensures found.Some? ==> var (s, p) := found.value;
        && s + p <= |form| && (form[..p], form[|form| - s..]) in affixes
        && BytesAt(affixes[(form[..p], form[|form| - s..])], s + 1 + p, rule)
      ensures found.Some? ==> forall a <- affixes ::
        |a.0| + |a.1| <= |form| && form[..|a.0|] == a.0 && form[|form| - |a.1|..] == a.1 ==>
          |a.1| < found.value.0 || (|a.1| == found.value.0 && |a.0| <= found.value.1)
    {
      hide Guesser.Loaded, Guesser.RuleAt, Labelled, Matches, Label, LabelOf;
      found, rule := SearchLabels(form, items, raw);
      forall a | a in affixes && |a.0| + |a.1| <= |form| && form[..|a.0|] == a.0 && form[|form| - |a.1|..] == a.1
        ensures Matches(raw, form, |a.1|, |a.0|)
      {
        MatchesExactly(raw, affixes, form, |a.1|, |a.0|);
        assert a == (form[..|a.0|], form[|form| - |a.1|..]);
      }
      if found.Some? {
        var (s, p) := found.value;
        MatchesExactly(raw, affixes, form, s, p);
        RuleBytes(raw, form, s, p, rule);
        ghost var a := (form[..p], form[|form| - s..]);
        assert a in affixes && |a.0| == p && |a.1| == s;
      }
    }

    lemma RuleBytes(raw: Rules, form: Text, s: nat, p: nat, rule: nat)
      requires s + p <= |form| && RuleAt(raw, Label(form, s, p), rule)
      ensures Label(form, s, p) in raw && BytesAt(raw[Label(form, s, p)], s + 1 + p, rule)
    {
    }

    /** The search, label after label. */
    method SearchLabels(form: Text, ghost items: seq<Entry>, ghost raw: Rules)
      returns (found: Option<(nat, nat)>, rule: nat)
      requires Loaded(items, raw)
      ensures found.None? <==> forall s: nat, p: nat :: !Matches(raw, form, s, p)
      ensures found.Some? ==> Matches(raw, form, found.value.0, found.value.1)
      ensures found.Some? ==>
        found.value.0 + found.value.1 <= |form| && RuleAt(raw, Label(form, found.value.0, found.value.1), rule)
      ensures found.Some? ==> forall s: nat, p: nat :: Matches(raw, form, s, p) ==> NotBetter((s, p), found.value)
    {
      hide Guesser.Loaded, Guesser.RuleAt, Matches;
      found, rule := None, 0;
      var longest := LongestSuffix(form, items, raw);
      var suffixLen := longest + 1;
      while suffixLen > 0
        invariant suffixLen <= longest + 1
        invariant forall s: nat, p: nat :: suffixLen <= s ==> !Matches(raw, form, s, p)
      {
        suffixLen := suffixLen - 1;
        var prefixLen;
        prefixLen, rule := LongestPrefix(form, suffixLen, items, raw);
        if prefixLen.Some? {
          MatchFits(raw, form, suffixLen, prefixLen.value);
          found := Some((suffixLen, prefixLen.value));
          return;
        }
      }
    }
  }

  lemma MatchFits(raw: Rules, form: Text, s: nat, p: nat)
    requires Matches(raw, form, s, p)
    ensures s + p <= |form|
  {
  }

  lemma TooLong(raw: Rules, form: Text, s: nat, p: nat)
    requires s > |form|
    ensures !Matches(raw, form, s, p)
  {
  }
}
