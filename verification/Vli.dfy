/** Variable-length integers (src/tagger/vli.h): base-128 digits, most significant first,
    every digit but the last carrying the continuation bit 0x80. */
module Vli {
  import opened Bytes
  import opened Sequences

  const MAX_LENGTH := 5

  /** The digits of `v` with the continuation bit set on every one of them. */
  function Continued(v: nat): (s: seq<Byte>)
    ensures |s| >= 1 && forall k :: 0 <= k < |s| ==> s[k] >= 0x80
  {
    if v < 0x80 then [0x80 + v] else Continued(v / 0x80) + [0x80 + v % 0x80]
  }

  /** The encoding of one value. */
  function Encoding(v: UInt32): (s: seq<Byte>)
    ensures |s| >= 1 && s[|s| - 1] < 0x80
    ensures forall k :: 0 <= k < |s| - 1 ==> s[k] >= 0x80
  {
    if v < 0x80 then [v] else Continued(v / 0x80) + [v % 0x80]
  }

  /** The encodings of a list of values, one after the other. */
  function EncodeAll(vs: seq<UInt32>): (s: seq<Byte>) {
    ConcatMap(Encoding, vs)
  }

  /** What the accumulator of `Decode` holds after reading `s`, in 32-bit arithmetic. */
  function Accumulated(s: seq<Byte>): (v: UInt32)
  {
    if s == [] then 0
    else Shifted(Accumulated(s[..|s| - 1]), s[|s| - 1])
  }

  /** One 32-bit step: seven bits to the left, and the byte without its continuation bit. */
  function Shifted(v: UInt32, b: Byte): UInt32 {
    (v * 0x80) % 0x1_0000_0000 + b % 0x80
  }

  /** Position of the first byte without continuation bit, at or after `from`. */
  predicate Terminated(s: seq<Byte>, from: nat)
  {
    exists k :: from <= k < |s| && s[k] < 0x80
  }

  lemma ShiftedDigit(v: UInt32)
    ensures Shifted(v / 0x80, v % 0x80) == Shifted(v / 0x80, 0x80 + v % 0x80) == v
  {
    assert (v / 0x80 * 0x80) % 0x1_0000_0000 == v / 0x80 * 0x80;
    assert (0x80 + v % 0x80) % 0x80 == v % 0x80;
  }

  lemma {:induction false} ContinuedDigits(v: nat)
    requires v < 0x1_0000_0000
    ensures Accumulated(Continued(v)) == v
  {
    hide Shifted;
    ShiftedDigit(v);
    if v < 0x80 {
      assert Continued(v) == [] + [0x80 + v] && v / 0x80 == 0;
      AccumulatedStep([], 0x80 + v);
    } else {
      ContinuedDigits(v / 0x80);
      AccumulatedStep(Continued(v / 0x80), 0x80 + v % 0x80);
    }
  }

  /** Decoding is the inverse of encoding for every 32-bit value. */
  lemma EncodingDecodes(v: UInt32)
    ensures Accumulated(Encoding(v)) == v
    ensures |Encoding(v)| <= MAX_LENGTH
  {
    hide Shifted;
    ShiftedDigit(v);
    var _ := Digits(v);
    if v < 0x80 {
      assert Encoding(v) == [] + [v] && v / 0x80 == 0;
      AccumulatedStep([], v);
    } else {
      ContinuedDigits(v / 0x80);
      AccumulatedStep(Continued(v / 0x80), v % 0x80);
    }
  }

  lemma {:induction false} EncodeAllLength(vs: seq<UInt32>)
    ensures |vs| <= |EncodeAll(vs)| <= MAX_LENGTH * |vs|
  {
    if vs != [] {
      EncodeAllLength(vs[..|vs| - 1]);
      EncodingDecodes(vs[|vs| - 1]);
    }
  }

  /** No encoding is a proper prefix of another, so a concatenation splits in one way only. */
  lemma PrefixFree(v: UInt32, w: UInt32, a: seq<Byte>, b: seq<Byte>)
    requires Encoding(v) + a == Encoding(w) + b
    ensures Encoding(v) == Encoding(w) && a == b
  {
    var x, y := Encoding(v), Encoding(w);
    assert (x + a)[|x| - 1] == x[|x| - 1] && (y + b)[|y| - 1] == y[|y| - 1];
    assert |x| == |y|;
    assert x == (x + a)[..|x|] == (y + b)[..|y|] == y;
    assert a == (x + a)[|x|..] == (y + b)[|y|..] == b;
  }

  /** Distinct lists of values have distinct keys, whatever their lengths. */
  lemma {:induction false} EncodeAllInjective(vs: seq<UInt32>, ws: seq<UInt32>)
    requires EncodeAll(vs) == EncodeAll(ws)
    ensures vs == ws
    decreases |vs|
  {
    EncodeAllLength(vs);
    EncodeAllLength(ws);
    if vs != [] && ws != [] {
      assert vs == [vs[0]] + vs[1..] && ws == [ws[0]] + ws[1..];
      ConcatMapCons(Encoding, vs[0], vs[1..]);
      ConcatMapCons(Encoding, ws[0], ws[1..]);
      PrefixFree(vs[0], ws[0], EncodeAll(vs[1..]), EncodeAll(ws[1..]));
      EncodingDecodes(vs[0]);
      EncodingDecodes(ws[0]);
      EncodeAllInjective(vs[1..], ws[1..]);
    }
  }

  /** The bytes as the original computes them, one case for each length. */
  function Digits(v: UInt32): (s: seq<Byte>)
    ensures s == Encoding(v) && |s| <= MAX_LENGTH
  {
    var v1, v2, v3, v4 := v / 0x80, v / 0x4000, v / 0x20_0000, v / 0x1000_0000;
    assert v1 / 0x80 == v2 && v2 / 0x80 == v3 && v3 / 0x80 == v4;
    if v < 0x80 then [v]
    else if v < 0x4000 then
      assert Continued(v1) == [v1 + 0x80];
      [v1 + 0x80, v % 0x80]
    else if v < 0x20_0000 then
      assert Continued(v2) == [v2 + 0x80];
      [v2 + 0x80, v1 % 0x80 + 0x80, v % 0x80]
    else if v < 0x1000_0000 then
      assert Continued(v3) == [v3 + 0x80];
      assert Continued(v2) == [v3 + 0x80, v2 % 0x80 + 0x80];
      [v3 + 0x80, v2 % 0x80 + 0x80, v1 % 0x80 + 0x80, v % 0x80]
    else
      assert Continued(v4) == [v4 + 0x80];
      assert Continued(v3) == [v4 + 0x80, v3 % 0x80 + 0x80];
      assert Continued(v2) == [v4 + 0x80, v3 % 0x80 + 0x80, v2 % 0x80 + 0x80];
      [v4 + 0x80, v3 % 0x80 + 0x80, v2 % 0x80 + 0x80, v1 % 0x80 + 0x80, v % 0x80]
  }

  /** Writes the encoding of `value` at `where` and returns the advanced position. */
  method Encode(value: UInt32, key: array<Byte>, where: nat) returns (next: nat)
    requires where + |Encoding(value)| <= key.Length
    modifies key
    ensures next == where + |Encoding(value)|
    ensures key[..next] == old(key[..where]) + Encoding(value)
  {
    var digits := Digits(value);
    next := where;
    for k := 0 to |digits|
      invariant next == where + k
      invariant key[..next] == old(key[..where]) + digits[..k]
    {
      key[next] := digits[k];
      next := next + 1;
    }
  }

  lemma AccumulatedStep(s: seq<Byte>, b: Byte)
    ensures Accumulated(s + [b]) == Shifted(Accumulated(s), b)
  {
    assert (s + [b])[..|s|] == s;
  }

  /** Where reading stops is fixed by the continuation bits. */
  lemma StopsAtEnd(s: seq<Byte>, from: nat, next: nat, v: UInt32)
    requires from < next <= |s| && s[next - 1] < 0x80
    requires forall k :: from <= k < next - 1 ==> s[k] >= 0x80
    requires Encoding(v) <= s[from..]
    ensures next == from + |Encoding(v)|
    ensures Accumulated(s[from..next]) == v
  {
    EncodingDecodes(v);
    var e := Encoding(v);
    assert forall k :: 0 <= k < |e| ==> e[k] == s[from..][k] == s[from + k];
    var last := if next - from < |e| then next - from - 1 else |e| - 1;
    assert e[last] == s[from + last];
    assert next == from + |e|;
    assert s[from..next] == e;
  }

  /** Reads one value at `from` and returns it with the advanced position. */
  method Decode(s: seq<Byte>, from: nat) returns (value: UInt32, next: nat)
    requires Terminated(s, from)
    ensures from < next <= |s| && s[next - 1] < 0x80
    ensures forall k :: from <= k < next - 1 ==> s[k] >= 0x80
    ensures value == Accumulated(s[from..next])
  {
    value, next := 0, from;
    ghost var read := [];
    while s[next] >= 0x80
      invariant from <= next < |s| && Terminated(s, next)
      invariant |read| == next - from && forall k :: 0 <= k < |read| ==> read[k] == s[from + k] >= 0x80
      invariant value == Accumulated(read)
      decreases |s| - next
    {
      AccumulatedStep(read, s[next]);
      read := read + [s[next]];
      value := Shifted(value, s[next]);
      next := next + 1;
    }
    AccumulatedStep(read, s[next]);
    read := read + [s[next]];
    value := Shifted(value, s[next]);
    next := next + 1;
    assert s[from..next] == read;
  }

  /** The decoding loop of the optimizer: a key is read back into the values it was written from. */
  method DecodeAll(key: seq<Byte>, ghost vs: seq<UInt32>) returns (values: seq<UInt32>)
    requires key == EncodeAll(vs)
    ensures values == vs
  {
    hide Encoding, Accumulated;
    values := [];
    var from := 0;
    ghost var rest := vs;
    while from < |key|
      invariant from <= |key| && vs == values + rest
      invariant key[from..] == EncodeAll(rest)
      decreases |key| - from
    {
      assert rest == [rest[0]] + rest[1..];
      ConcatMapCons(Encoding, rest[0], rest[1..]);
      EncodingPrefixTerminated(key, from, rest[0]);
      var value, next := Decode(key, from);
      StopsAtEnd(key, from, next, rest[0]);
      assert key[next..] == key[from..][next - from..];
      values, from, rest := values + [value], next, rest[1..];
    }
    EncodeAllLength(rest);
  }

  lemma EncodingPrefixTerminated(s: seq<Byte>, from: nat, v: UInt32)
    requires from <= |s| && Encoding(v) <= s[from..]
    ensures Terminated(s, from)
  {
    var e := Encoding(v);
    assert s[from + |e| - 1] == s[from..][|e| - 1] == e[|e| - 1];
  }
}
