// The recursive wire grammar as functions: what serialize() writes and what deserialize()
// makes of arbitrary bytes, and the theorem that the second undoes the first.
module Grammar {
  import opened ByteOrder
  import opened Parameters

  // Tags, in the order of the source's enumeration.
  const NULL_TAG: byte := 0
  const TEXT_TAG: nat := 0        // string1..string8 are 1..8
  const NUMBER_TAG: nat := 8      // number1..number8 are 9..16
  const NEGATIVE_TAG: nat := 16   // neg_number1..neg_number8 are 17..24
  const BOOLEAN_TAG: byte := 25
  const VECTOR_TAG: byte := 26
  const MAP_TAG: byte := 27

  // ----- writing -----

  function WidthFrom(v: nat, n: nat): (w: nat)
    requires 1 <= n <= 8
    ensures n <= w <= 8
    decreases 8 - n
  {
    if n < 8 && v >= Pow256(n) then WidthFrom(v, n + 1) else n
  }

  /** bytes_needed: how many bytes a length or magnitude takes. */
  function Width(v: nat): (w: nat)
    ensures 1 <= w <= 8
  {
    WidthFrom(v, 1)
  }

  lemma {:induction false} WidthFromIsLeast(v: nat, n: nat)
    requires 1 <= n <= 8
    ensures v < TWO_64 ==> v < Pow256(WidthFrom(v, n))
    ensures forall k :: n <= k < WidthFrom(v, n) ==> v >= Pow256(k)
    decreases 8 - n
  {
    Pow256Values();
    if n < 8 && v >= Pow256(n) {
      WidthFromIsLeast(v, n + 1);
    }
  }

  function EncTagged(base: nat, v: nat): (s: bytes)
    requires base <= NEGATIVE_TAG
    ensures |s| == 1 + Width(v)
  {
    [base + Width(v)] + ToLittleEndian(v, Width(v))
  }

  function EncNumber(i: int): bytes
  {
    if i >= 0 then EncTagged(NUMBER_TAG, i) else EncTagged(NEGATIVE_TAG, -i)
  }

  function EncText(s: bytes): bytes
  {
    EncTagged(TEXT_TAG, |s|) + s
  }

  function EncBool(b: bool): bytes
  {
    [BOOLEAN_TAG, if b then 1 else 0]
  }

  function Enc(v: Value): (s: bytes)
    ensures |s| > 0
    decreases v, 1
  {
    match v
    case Text(s) => EncText(s)
    case I64(i) => EncNumber(i)
    case U64(u) => EncNumber(ToInt64(u))
    case Bool(b) => EncBool(b)
    case List(items) => [VECTOR_TAG] + EncNumber(|items|) + EncItems(items)
    case Map(entries) => [MAP_TAG] + EncNumber(|entries|) + EncEntries(entries)
  }

  function EncItems(items: seq<Value>): bytes
    decreases items, 0
  {
    if items == [] then [] else Enc(items[0]) + EncItems(items[1..])
  }

  function EncEntries(es: seq<Entry>): bytes
    decreases es, 0
  {
    if es == [] then [] else EncText(es[0].key) + Enc(es[0].value) + EncEntries(es[1..])
  }

  // ----- reading -----

  datatype WireError =
    | BufferOverrun
    | InvalidTag(tag: byte)
    | InvalidLengthTag(tag: byte)
    | InvalidKeyTag(tag: byte)

  /** Outcome of reading from the front of some bytes: a value and what is left, or why not. */
  datatype Parsed<+T> = Bad(error: WireError) | Good(value: T, rest: bytes)
  {
    predicate IsFailure()
    {
      Bad?
    }

    function PropagateFailure<U>(): Parsed<U>
      requires Bad?
    {
      Bad(error)
    }

    function Extract(): (T, bytes)
      requires Good?
    {
      (value, rest)
    }
  }

  function ParseByte(s: bytes): (r: Parsed<byte>)
    ensures r.Good? ==> |r.rest| < |s|
  {
    if s == [] then Bad(BufferOverrun) else Good(s[0], s[1..])
  }

  /** read_integer<uint64_t>(n): `n` bytes, least significant first. */
  function ParseUnsigned(s: bytes, n: nat): (r: Parsed<nat>)
    requires n <= 8
    ensures r.Good? ==> |r.rest| == |s| - n
    ensures r.Good? ==> r.value < TWO_64
  {
    if |s| < n then Bad(BufferOverrun)
    else
      FromLittleEndianBound(s[..n]);
      Pow256Monotonic(n, 8);
      Pow256Values();
      Good(FromLittleEndian(s[..n]), s[n..])
  }

  lemma {:induction false} Pow256Monotonic(m: nat, n: nat)
    requires m <= n
    ensures Pow256(m) <= Pow256(n)
    decreases n - m
  {
    if m < n {
      Pow256Monotonic(m, n - 1);
    }
  }

  function ParseText(s: bytes, n: nat): (r: Parsed<bytes>)
    requires n <= 8
    ensures r.Good? ==> |r.rest| <= |s| && |r.value| < TWO_64
  {
    var (len, rest) :- ParseUnsigned(s, n);
    if |rest| < len then Bad(BufferOverrun) else Good(rest[..len], rest[len..])
  }

  function ParseLength(s: bytes): (r: Parsed<nat>)
    ensures r.Good? ==> |r.rest| < |s| && r.value < TWO_64
  {
    var (tag, rest) :- ParseByte(s);
    if NUMBER_TAG < tag <= NUMBER_TAG + 8 then ParseUnsigned(rest, tag - NUMBER_TAG) else Bad(InvalidLengthTag(tag))
  }

  function ParseKey(s: bytes): (r: Parsed<bytes>)
    ensures r.Good? ==> |r.rest| < |s| && |r.value| < TWO_64
  {
    var (tag, rest) :- ParseByte(s);
    if TEXT_TAG < tag <= TEXT_TAG + 8 then ParseText(rest, tag - TEXT_TAG) else Bad(InvalidKeyTag(tag))
  }

  /** What follows a tag that is neither a vector's nor a map's. */
  function ParseScalar(tag: byte, s: bytes): (r: Parsed<Value>)
    ensures r.Good? ==> |r.rest| <= |s|
  {
    if tag == NULL_TAG then Good(Text([]), s)
    else if tag <= TEXT_TAG + 8 then
      var (t, after) :- ParseText(s, tag - TEXT_TAG);
      Good(Text(t), after)
    else if tag <= NUMBER_TAG + 8 then
      var (u, after) :- ParseUnsigned(s, tag - NUMBER_TAG);
      Good(I64(ToInt64(u)), after)
    else if tag <= NEGATIVE_TAG + 8 then
      var (u, after) :- ParseUnsigned(s, tag - NEGATIVE_TAG);
      Good(I64(ToInt64(-(u as int))), after)
    else if tag == BOOLEAN_TAG then
      var (b, after) :- ParseByte(s);
      Good(Bool(b != 0), after)
    else Bad(InvalidTag(tag))
  }

  function Parse(s: bytes): (r: Parsed<Value>)
    ensures r.Good? ==> |r.rest| < |s|
    decreases |s|, 0
  {
    var (tag, rest) :- ParseByte(s);
    if tag == VECTOR_TAG then
      var (items, after) :- ParseVectorBody(rest);
      Good(List(items), after)
    else if tag == MAP_TAG then
      var (entries, after) :- ParseMapBody(rest);
      Good(Map(entries), after)
    else ParseScalar(tag, rest)
  }

  function ParseVectorBody(s: bytes): (r: Parsed<seq<Value>>)
    ensures r.Good? ==> |r.rest| <= |s|
    decreases |s|, 2
  {
    var (n, body) :- ParseLength(s);
    ParseItems(body, n)
  }

  function ParseMapBody(s: bytes): (r: Parsed<seq<Entry>>)
    ensures r.Good? ==> |r.rest| <= |s|
    decreases |s|, 3
  {
    var (n, body) :- ParseLength(s);
    ParseCollected(body, n)
  }

  function ParseCollected(s: bytes, n: nat): (r: Parsed<seq<Entry>>)
    ensures r.Good? ==> |r.rest| <= |s|
    decreases |s|, 2
  {
    var (es, after) :- ParseEntries(s, n);
    Good(Collect(es), after)
  }

  /** unordered_map::emplace: the first entry for a key wins. */
  function Emplace(m: seq<Entry>, e: Entry): seq<Entry>
  {
    if e.key in KeysOf(m) then m else m + [e]
  }

  function Collect(es: seq<Entry>): (m: seq<Entry>)
    ensures |m| <= |es|
  {
    if es == [] then [] else Emplace(Collect(es[..|es| - 1]), es[|es| - 1])
  }

  function ParseItems(s: bytes, n: nat): (r: Parsed<seq<Value>>)
    ensures r.Good? ==> |r.rest| <= |s| && |r.value| == n
    decreases |s|, 1
  {
    if n == 0 then Good([], s)
    else
      var (v, rest) :- Parse(s);
      var (vs, after) :- ParseItems(rest, n - 1);
      Good([v] + vs, after)
  }

  function ParseEntries(s: bytes, n: nat): (r: Parsed<seq<Entry>>)
    ensures r.Good? ==> |r.rest| <= |s| && |r.value| == n
    decreases |s|, 1
  {
    if n == 0 then Good([], s)
    else
      var (e, rest) :- ParseEntry(s);
      var (es, after) :- ParseEntries(rest, n - 1);
      Good([e] + es, after)
  }

  lemma CollectSnoc(es: seq<Entry>, e: Entry)
    ensures Collect(es + [e]) == Emplace(Collect(es), e)
  {
    assert (es + [e])[..|es|] == es;
  }

  function ParseEntry(s: bytes): (r: Parsed<Entry>)
    ensures r.Good? ==> |r.rest| < |s|
    decreases |s|, 0
  {
    var (key, body) :- ParseKey(s);
    var (v, rest) :- Parse(body);
    Good(Entry(key, v), rest)
  }

  // ----- reading undoes writing -----

  lemma ParseTagged(base: nat, v: nat, rest: bytes)
    requires base <= NEGATIVE_TAG && v < TWO_64
    ensures ParseByte(EncTagged(base, v) + rest) == Good(base + Width(v), ToLittleEndian(v, Width(v)) + rest)
    ensures ParseUnsigned(ToLittleEndian(v, Width(v)) + rest, Width(v)) == Good(v, rest)
  {
    var w := Width(v);
    WidthFromIsLeast(v, 1);
    LittleEndianRoundTrip(v, w);
    var digits := ToLittleEndian(v, w);
    assert (EncTagged(base, v) + rest)[1..] == digits + rest;
    assert (digits + rest)[..w] == digits && (digits + rest)[w..] == rest;
  }

  lemma ParseTextEnc(s: bytes, rest: bytes)
    requires |s| < TWO_64
    ensures ParseKey(EncText(s) + rest) == Good(s, rest)
    ensures Parse(EncText(s) + rest) == Good(Text(s), rest)
  {
    assert EncText(s) + rest == EncTagged(TEXT_TAG, |s|) + (s + rest);
    ParseTagged(TEXT_TAG, |s|, s + rest);
    assert (s + rest)[..|s|] == s && (s + rest)[|s|..] == rest;
  }

  lemma ParseNonNegative(i: int64, rest: bytes)
    requires i >= 0
    ensures Parse(EncTagged(NUMBER_TAG, i) + rest) == Good(I64(i), rest)
  {
    hide ToInt64;
    ToInt64Same(i);
    ParseTagged(NUMBER_TAG, i, rest);
  }

  lemma ParseNegative(i: int64, rest: bytes)
    requires i < 0
    ensures Parse(EncTagged(NEGATIVE_TAG, -(i as int)) + rest) == Good(I64(i), rest)
  {
    hide ToInt64;
    ToInt64Same(i);
    ParseTagged(NEGATIVE_TAG, -(i as int), rest);
  }

  lemma ParseNumberEnc(i: int64, rest: bytes)
    ensures Parse(EncNumber(i) + rest) == Good(I64(i), rest)
  {
    if i >= 0 {
      ParseNonNegative(i, rest);
    } else {
      ParseNegative(i, rest);
    }
  }

  lemma ParseLengthEnc(n: nat, rest: bytes)
    requires n < TWO_64
    ensures ParseLength(EncNumber(n) + rest) == Good(n, rest)
  {
    ParseTagged(NUMBER_TAG, n, rest);
  }

  lemma ParseVector(n: nat, body: bytes, items: seq<Value>, rest: bytes)
    requires n < TWO_64 && ParseItems(body, n) == Good(items, rest)
    ensures Parse([VECTOR_TAG] + (EncNumber(n) + body)) == Good(List(items), rest)
  {
    var s := [VECTOR_TAG] + (EncNumber(n) + body);
    assert s[1..] == EncNumber(n) + body;
    ParseLengthEnc(n, body);
  }

  lemma ParseMapBodyEnc(n: nat, body: bytes, entries: seq<Entry>, rest: bytes)
    requires n < TWO_64 && ParseEntries(body, n) == Good(entries, rest)
    ensures ParseMapBody(EncNumber(n) + body) == Good(Collect(entries), rest)
  {
    ParseLengthEnc(n, body);
  }

  lemma ParseMap(n: nat, body: bytes, entries: seq<Entry>, rest: bytes)
    requires n < TWO_64 && ParseEntries(body, n) == Good(entries, rest)
    ensures Parse([MAP_TAG] + (EncNumber(n) + body)) == Good(Map(Collect(entries)), rest)
  {
    ParseMapBodyEnc(n, body, entries, rest);
    var s := [MAP_TAG] + (EncNumber(n) + body);
    assert s[1..] == EncNumber(n) + body;
  }

  lemma Regroup(a: bytes, b: bytes, c: bytes, d: bytes)
    ensures a + b + c + d == a + (b + (c + d))
  {
  }

  lemma EncItemsSplit(items: seq<Value>, rest: bytes)
    requires items != []
    ensures EncItems(items) + rest == Enc(items[0]) + (EncItems(items[1..]) + rest)
  {
    Regroup([], Enc(items[0]), EncItems(items[1..]), rest);
  }

  lemma EncEntriesSplit(es: seq<Entry>, rest: bytes)
    requires es != []
    ensures EncEntries(es) + rest == EncText(es[0].key) + (Enc(es[0].value) + (EncEntries(es[1..]) + rest))
  {
    Regroup(EncText(es[0].key), Enc(es[0].value), EncEntries(es[1..]), rest);
  }

  lemma ParseBool(b: bool, rest: bytes)
    ensures Parse(Enc(Bool(b)) + rest) == Good(Bool(b), rest)
  {
    var s := Enc(Bool(b)) + rest;
    assert s[1..] == [if b then 1 else 0] + rest;
    assert s[1..][1..] == rest;
  }

  /** The round trip, for any bytes following the encoding. */
  lemma {:induction false} ParseEnc(v: Value, rest: bytes)
    requires WellFormed(v)
    ensures Parse(Enc(v) + rest) == Good(Norm(v), rest)
    decreases v, 1
  {
    match v
    case Text(s) =>
      ParseTextEnc(s, rest);
    case I64(i) =>
      ParseNumberEnc(i, rest);
    case U64(u) =>
      ParseNumberEnc(ToInt64(u), rest);
    case Bool(b) =>
      ParseBool(b, rest);
    case List(items) =>
      Regroup([VECTOR_TAG], EncNumber(|items|), EncItems(items), rest);
      ParseEncItems(items, rest);
      ParseVector(|items|, EncItems(items) + rest, NormItems(items), rest);
    case Map(entries) =>
      Regroup([MAP_TAG], EncNumber(|entries|), EncEntries(entries), rest);
      ParseEncEntries(entries, rest);
      NormEntriesWellFormed(entries);
      CollectDistinct(NormEntries(entries));
      ParseMap(|entries|, EncEntries(entries) + rest, NormEntries(entries), rest);
  }

  lemma {:induction false} ParseEncItems(items: seq<Value>, rest: bytes)
    requires WellFormedItems(items)
    ensures ParseItems(EncItems(items) + rest, |items|) == Good(NormItems(items), rest)
    decreases items, 0
  {
    if items == [] {
      assert EncItems(items) + rest == rest;
    } else {
      EncItemsSplit(items, rest);
      ParseEnc(items[0], EncItems(items[1..]) + rest);
      ParseEncItems(items[1..], rest);
    }
  }

  lemma ParseEntryEnc(key: bytes, v: Value, tail: bytes)
    requires |key| < TWO_64 && Parse(Enc(v) + tail) == Good(Norm(v), tail)
    ensures ParseEntry(EncText(key) + (Enc(v) + tail)) == Good(Entry(key, Norm(v)), tail)
  {
    ParseTextEnc(key, Enc(v) + tail);
  }

  lemma {:induction false} ParseEncEntries(es: seq<Entry>, rest: bytes)
    requires WellFormedEntries(es)
    ensures ParseEntries(EncEntries(es) + rest, |es|) == Good(NormEntries(es), rest)
    decreases es, 0
  {
    if es == [] {
      assert EncEntries(es) + rest == rest;
    } else {
      var tail := EncEntries(es[1..]) + rest;
      EncEntriesSplit(es, rest);
      ParseEnc(es[0].value, tail);
      ParseEntryEnc(es[0].key, es[0].value, tail);
      ParseEncEntries(es[1..], rest);
    }
  }

  lemma {:induction false} DistinctPrefix(es: seq<Entry>)
    requires WellFormedEntries(es) && es != []
    ensures var n := |es| - 1; WellFormedEntries(es[..n]) && es[n].key !in KeysOf(es[..n])
    ensures KeysOf(es) == KeysOf(es[..|es| - 1]) + {es[|es| - 1].key}
  {
    var n := |es| - 1;
    assert es == es[..n] + [es[n]];
    KeysOfSnoc(es[..n], es[n]);
    if n > 0 {
      assert es[1..][..n - 1] == es[..n][1..];
      DistinctPrefix(es[1..]);
    }
  }

  lemma {:induction false} CollectDistinct(es: seq<Entry>)
    requires WellFormedEntries(es)
    ensures Collect(es) == es
  {
    if es != [] {
      var n := |es| - 1;
      DistinctPrefix(es);
      CollectDistinct(es[..n]);
      assert es == es[..n] + [es[n]];
    }
  }

  /** The grammar is prefix-free: no encoding is the beginning of a different one. */
  lemma EncPrefixFree(v: Value, w: Value, r: bytes, t: bytes)
    requires WellFormed(v) && WellFormed(w) && Enc(v) + r == Enc(w) + t
    ensures Norm(v) == Norm(w) && r == t
  {
    ParseEnc(v, r);
    ParseEnc(w, t);
  }

  // ----- whatever is accepted is a well-formed value that survives another trip -----

  /** What Parse hands out, from any bytes at all: sizes fit, keys are distinct, and no
      unsigned alternative is left. */
  lemma {:induction false} ParseWellFormed(s: bytes)
    ensures Parse(s).Good? ==> WellFormed(Parse(s).value) && Norm(Parse(s).value) == Parse(s).value
    decreases |s|, 0
  {
    if s != [] && s[0] == VECTOR_TAG {
      ParseVectorBodyWellFormed(s[1..]);
    } else if s != [] && s[0] == MAP_TAG {
      ParseMapBodyWellFormed(s[1..]);
    }
  }

  lemma {:induction false} ParseVectorBodyWellFormed(s: bytes)
    ensures var r := ParseVectorBody(s);
            r.Good? ==> |r.value| < TWO_64 && WellFormedItems(r.value) && NormItems(r.value) == r.value
    decreases |s|, 2
  {
    var r := ParseLength(s);
    if r.Good? {
      ParseItemsWellFormed(r.rest, r.value);
    }
  }

  lemma {:induction false} ParseMapBodyWellFormed(s: bytes)
    ensures ParseMapBody(s).Good? ==> |ParseMapBody(s).value| < TWO_64 && Settled(ParseMapBody(s).value)
    decreases |s|, 2
  {
    var r := ParseLength(s);
    if r.Good? {
      ParseEntriesFine(r.rest, r.value);
      var es := ParseEntries(r.rest, r.value);
      if es.Good? {
        CollectSettled(es.value);
      }
    }
  }

  lemma {:induction false} ParseItemsWellFormed(s: bytes, n: nat)
    ensures var r := ParseItems(s, n); r.Good? ==> WellFormedItems(r.value) && NormItems(r.value) == r.value
    decreases |s|, 1
  {
    if n > 0 && Parse(s).Good? {
      ParseWellFormed(s);
      ParseItemsWellFormed(Parse(s).rest, n - 1);
    }
  }

  ghost predicate FineEntry(e: Entry)
  {
    |e.key| < TWO_64 && WellFormed(e.value) && Norm(e.value) == e.value
  }

  lemma {:induction false} ParseEntriesFine(s: bytes, n: nat)
    ensures var r := ParseEntries(s, n); r.Good? ==> forall e :: e in r.value ==> FineEntry(e)
    decreases |s|, 1
  {
    if n > 0 && ParseEntry(s).Good? {
      ParseWellFormed(ParseKey(s).rest);
      ParseEntriesFine(ParseEntry(s).rest, n - 1);
    }
  }

  ghost predicate Settled(m: seq<Entry>)
  {
    WellFormedEntries(m) && NormEntries(m) == m
  }

  lemma {:induction false} CollectSettled(es: seq<Entry>)
    requires forall e :: e in es ==> FineEntry(e)
    ensures Settled(Collect(es))
  {
    if es != [] {
      var n := |es| - 1;
      CollectSettled(es[..n]);
      if es[n].key !in KeysOf(Collect(es[..n])) {
        SettledSnoc(Collect(es[..n]), es[n]);
      }
    }
  }

  lemma {:induction false} SettledSnoc(m: seq<Entry>, e: Entry)
    requires Settled(m) && e.key !in KeysOf(m) && FineEntry(e)
    ensures Settled(m + [e])
  {
    if m == [] {
      assert m + [e] == [e] && [e][1..] == [];
    } else {
      var all := m + [e];
      assert all[1..] == m[1..] + [e] && m == [m[0]] + m[1..];
      assert NormEntries(m)[1..] == NormEntries(m[1..]);
      SettledSnoc(m[1..], e);
      KeysOfSnoc(m[1..], e);
    }
  }
}
