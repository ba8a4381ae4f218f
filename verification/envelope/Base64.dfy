// base64_encode and base64_decode over both alphabets of RFC 4648 (sections 4 and 5).
module Base64 {
  import opened ByteOrder
  import opened Sextets

  datatype Alphabet = Standard | UrlSafe

  datatype Decoded = Data(data: bytes) | TooMuchPadding | InvalidLength | InvalidCharacter

  const PAD: byte := '=' as int

  /** The two alphabets differ in their last two characters only. */
  function Symbol(a: Alphabet, v: sextet): (b: byte)
    ensures b != PAD
  {
    if v < 26 then 'A' as int + v
    else if v < 52 then 'a' as int + (v - 26)
    else if v < 62 then '0' as int + (v - 52)
    else if v == 62 then (if a == UrlSafe then '-' as int else '+' as int)
    else (if a == UrlSafe then '_' as int else '/' as int)
  }

  /** The value of a character, or -1 outside the alphabet. */
  function Value(a: Alphabet, b: byte): (v: int)
    ensures -1 <= v < 64
  {
    if 'A' as int <= b <= 'Z' as int then b - 'A' as int
    else if 'a' as int <= b <= 'z' as int then b - 'a' as int + 26
    else if '0' as int <= b <= '9' as int then b - '0' as int + 52
    else if b == Symbol(a, 62) then 62
    else if b == Symbol(a, 63) then 63
    else -1
  }

  lemma SymbolValue(a: Alphabet, v: sextet)
    ensures Value(a, Symbol(a, v)) == v
  {
  }

  lemma ValueSymbol(a: Alphabet, b: byte)
    requires Value(a, b) >= 0
    ensures Symbol(a, Value(a, b)) == b
  {
  }

  // ----- the tables -----

  /** make_decode_table. */
  method MakeDecodeTable(a: Alphabet) returns (out: seq<int>)
    ensures |out| == 256 && forall b: byte :: out[b] == Value(a, b)
  {
    var table := new int[256](_ => -1);
    for i := 0 to 64
      invariant forall b: byte :: table[b] == if Value(a, b) < i then Value(a, b) else -1
    {
      SymbolValue(a, i);
      forall b: byte | Value(a, b) == i
        ensures b == Symbol(a, i)
      {
        ValueSymbol(a, b);
      }
      table[Symbol(a, i)] := i;
    }
    out := table[..];
  }

  function Symbols(a: Alphabet, s: seq<sextet>): (t: bytes)
    ensures |t| == |s| && forall i :: 0 <= i < |s| ==> t[i] == Symbol(a, s[i])
  {
    seq(|s|, i requires 0 <= i < |s| => Symbol(a, s[i]))
  }

  predicate InAlphabet(a: Alphabet, t: bytes)
  {
    forall i :: 0 <= i < |t| ==> Value(a, t[i]) >= 0
  }

  function Values(a: Alphabet, t: bytes): (s: seq<sextet>)
    requires InAlphabet(a, t)
    ensures |s| == |t| && forall i :: 0 <= i < |t| ==> s[i] == Value(a, t[i])
  {
    seq(|t|, i requires 0 <= i < |t| => Value(a, t[i]))
  }

  lemma SymbolsAppend(a: Alphabet, s: seq<sextet>, t: seq<sextet>)
    ensures Symbols(a, s + t) == Symbols(a, s) + Symbols(a, t)
  {
  }

  lemma SymbolsInAlphabet(a: Alphabet, s: seq<sextet>)
    ensures InAlphabet(a, Symbols(a, s)) && Values(a, Symbols(a, s)) == s
    ensures Symbols(a, s) == [] || Symbols(a, s)[|s| - 1] != PAD
  {
    forall i | 0 <= i < |s|
      ensures Value(a, Symbols(a, s)[i]) == s[i]
    {
      SymbolValue(a, s[i]);
    }
  }

  lemma ValuesSpellSymbols(a: Alphabet, t: bytes)
    requires InAlphabet(a, t)
    ensures Symbols(a, Values(a, t)) == t
  {
    forall i | 0 <= i < |t|
      ensures Symbols(a, Values(a, t))[i] == t[i]
    {
      ValueSymbol(a, t[i]);
    }
  }

  // ----- encoding -----

  function Padding(a: Alphabet, n: nat): (p: bytes)
  {
    if a == UrlSafe || n % 3 == 0 then [] else if n % 3 == 1 then [PAD, PAD] else [PAD]
  }

  /** The characters of the packed groups, and padding in the standard alphabet only. */
  function Encoded(a: Alphabet, d: bytes): bytes
  {
    Symbols(a, Pack(d)) + Padding(a, |d|)
  }

  lemma PackSplit(d: bytes, i: nat)
    requires i + 3 <= |d|
    ensures Pack(d[i..]) == Groups(OctetWord(d[i], d[i + 1], d[i + 2])) + Pack(d[i + 3..])
  {
    assert d[i..][3..] == d[i + 3..];
  }

  method Base64Encode(data: bytes, a: Alphabet) returns (out: bytes)
    ensures out == Encoded(a, data)
  {
    hide Groups, OctetWord, Octets, Pack, Padding, Symbols, Symbol;
    out := [];
    var i := 0;
    assert data[0..] == data;
    assert [] + Symbols(a, Pack(data)) == Symbols(a, Pack(data));
    while i + 3 <= |data|
      invariant i % 3 == 0 && i <= |data|
      invariant out + Symbols(a, Pack(data[i..])) == Symbols(a, Pack(data))
    {
      var four := EncodeGroup(a, data[i], data[i + 1], data[i + 2]);
      EncodeStep(a, data, i, four);
      out := out + four;
      i := i + 3;
    }
    var tail := EncodeTail(a, data[i..]);
    PaddingOfRest(a, |data|, i);
    out := out + tail;
  }

  lemma PaddingOfRest(a: Alphabet, n: nat, i: nat)
    requires i <= n && i % 3 == 0
    ensures Padding(a, n - i) == Padding(a, n)
  {
  }

  lemma EncodeStep(a: Alphabet, d: bytes, i: nat, four: bytes)
    requires i + 3 <= |d| && 0 <= OctetWord(d[i], d[i + 1], d[i + 2])
    requires four == Symbols(a, Groups(OctetWord(d[i], d[i + 1], d[i + 2])))
    ensures Symbols(a, Pack(d[i..])) == four + Symbols(a, Pack(d[i + 3..]))
  {
    hide Groups, OctetWord, Octets, Pack, Symbols, Symbol;
    PackSplit(d, i);
    SymbolsAppend(a, Groups(OctetWord(d[i], d[i + 1], d[i + 2])), Pack(d[i + 3..]));
  }

  method EncodeGroup(a: Alphabet, x: byte, y: byte, z: byte) returns (four: bytes)
    ensures 0 <= OctetWord(x, y, z) && four == Symbols(a, Groups(OctetWord(x, y, z)))
  {
    OctetsOfWord(x, y, z);
    var n: nat := OctetWord(x, y, z);
    four := [Symbol(a, n / 0x40000 % 64), Symbol(a, n / 0x1000 % 64), Symbol(a, n / 64 % 64), Symbol(a, n % 64)];
  }

  /** The last one or two bytes. */
  method EncodeTail(a: Alphabet, rest: bytes) returns (tail: bytes)
    requires |rest| < 3
    ensures tail == Symbols(a, Pack(rest)) + Padding(a, |rest|)
  {
    tail := [];
    if |rest| == 1 {
      OctetsOfWord(rest[0], 0, 0);
      var n: nat := OctetWord(rest[0], 0, 0);
      tail := [Symbol(a, n / 0x40000 % 64), Symbol(a, n / 0x1000 % 64)];
      if a == Standard {
        tail := tail + [PAD, PAD];
      }
    } else if |rest| == 2 {
      OctetsOfWord(rest[0], rest[1], 0);
      var n: nat := OctetWord(rest[0], rest[1], 0);
      tail := [Symbol(a, n / 0x40000 % 64), Symbol(a, n / 0x1000 % 64), Symbol(a, n / 64 % 64)];
      if a == Standard {
        tail := tail + [PAD];
      }
    }
  }

  // ----- decoding -----

  /** Without its trailing "=" characters. */
  function Stripped(t: bytes): (s: bytes)
    ensures |s| <= |t| && s == t[..|s|] && (s != [] ==> s[|s| - 1] != PAD)
    ensures forall i :: |s| <= i < |t| ==> t[i] == PAD
  {
    if t != [] && t[|t| - 1] == PAD then Stripped(t[..|t| - 1]) else t
  }

  function DecodedAs(a: Alphabet, t: bytes): Decoded
  {
    var s := Stripped(t);
    if |t| - |s| > 2 then TooMuchPadding
    else if |s| % 4 == 1 then InvalidLength
    else if !InAlphabet(a, s) then InvalidCharacter
    else Data(Unpack(Values(a, s)))
  }

  lemma StrippedIs(t: bytes, n: nat)
    requires n <= |t| && (n == 0 || t[n - 1] != PAD) && forall i :: n <= i < |t| ==> t[i] == PAD
    ensures Stripped(t) == t[..n]
  {
    var s := Stripped(t);
    assert s != [] ==> t[|s| - 1] != PAD;
  }

  method Base64Decode(data: bytes, a: Alphabet) returns (r: Decoded)
    ensures r == DecodedAs(a, data)
  {
    hide Unpack, Stripped, Value;
    if data == [] {
      StrippedIs(data, 0);
      assert Unpack([]) == [] by { UnpackNone(); }
      return Data([]);
    }
    var dtable := MakeDecodeTable(a);
    var len := |data|;
    while len > 0 && data[len - 1] == PAD
      invariant 0 <= len <= |data| && forall i :: len <= i < |data| ==> data[i] == PAD
    {
      len := len - 1;
    }
    StrippedIs(data, len);
    if |data| - len > 2 {
      return TooMuchPadding;
    }
    if len % 4 == 1 {
      return InvalidLength;
    }
    r := DecodeBody(a, dtable, data[..len]);
  }

  lemma UnpackNone()
    ensures Unpack([]) == []
  {
  }

  lemma UnpackSplit(s: seq<sextet>, i: nat)
    requires i + 4 <= |s|
    ensures Unpack(s[i..]) == Octets(GroupWord(s[i], s[i + 1], s[i + 2], s[i + 3])) + Unpack(s[i + 4..])
  {
    assert s[i..][4..] == s[i + 4..];
  }

  /** The loop over groups of four characters, and the tail. */
  method DecodeBody(a: Alphabet, dtable: seq<int>, s: bytes) returns (r: Decoded)
    requires |dtable| == 256 && forall b: byte :: dtable[b] == Value(a, b)
    requires |s| % 4 != 1
    ensures r == if InAlphabet(a, s) then Data(Unpack(Values(a, s))) else InvalidCharacter
  {
    hide Unpack, Octets, GroupWord, Value, Values;
    var out: bytes := [];
    var i := 0;
    ghost var all: seq<sextet> := if InAlphabet(a, s) then Values(a, s) else [];
    assert InAlphabet(a, s) ==> all[0..] == Values(a, s);
    while i + 4 <= |s|
      invariant i % 4 == 0 && i <= |s|
      invariant forall k :: 0 <= k < i ==> Value(a, s[k]) >= 0
      invariant InAlphabet(a, s) ==> out + Unpack(all[i..]) == Unpack(all)
    {
      var v0, v1, v2, v3 := dtable[s[i]], dtable[s[i + 1]], dtable[s[i + 2]], dtable[s[i + 3]];
      if v0 < 0 || v1 < 0 || v2 < 0 || v3 < 0 {
        return InvalidCharacter;
      }
      var three := DecodeGroup(v0, v1, v2, v3);
      if InAlphabet(a, s) {
        UnpackSplit(all, i);
      }
      out := out + three;
      i := i + 4;
    }
    TailOf(a, s, i);
    r := DecodeTail(a, dtable, s[i..]);
    if r.Data? {
      r := Data(out + r.data);
    }
  }

  lemma TailOf(a: Alphabet, s: bytes, i: nat)
    requires i <= |s| < i + 4 && i % 4 == 0 && |s| % 4 != 1
    requires forall k :: 0 <= k < i ==> Value(a, s[k]) >= 0
    ensures |s[i..]| != 1 && (InAlphabet(a, s) <==> InAlphabet(a, s[i..]))
    ensures InAlphabet(a, s) ==> Values(a, s[i..]) == Values(a, s)[i..]
  {
    hide Value;
    if !InAlphabet(a, s) {
      TailAtFault(a, s, i);
    }
  }

  lemma TailAtFault(a: Alphabet, s: bytes, i: nat)
    requires i <= |s| && !InAlphabet(a, s) && forall k :: 0 <= k < i ==> Value(a, s[k]) >= 0
    ensures !InAlphabet(a, s[i..])
  {
    hide Value;
    var k :| 0 <= k < |s| && Value(a, s[k]) < 0;
    assert s[i..][k - i] == s[k];
  }

  method DecodeGroup(v0: sextet, v1: sextet, v2: sextet, v3: sextet) returns (three: bytes)
    ensures three == Octets(GroupWord(v0, v1, v2, v3))
  {
    GroupsOfWord(v0, v1, v2, v3);
    var n: nat := GroupWord(v0, v1, v2, v3);
    three := [n / 0x10000 % 256, n / 0x100 % 256, n % 256];
  }

  method DecodeTail(a: Alphabet, dtable: seq<int>, t: bytes) returns (r: Decoded)
    requires |dtable| == 256 && forall b: byte :: dtable[b] == Value(a, b)
    requires |t| < 4 && |t| != 1
    ensures r == if InAlphabet(a, t) then Data(Unpack(Values(a, t))) else InvalidCharacter
  {
    hide Value, Octets, GroupWord;
    if |t| == 2 {
      var v0, v1 := dtable[t[0]], dtable[t[1]];
      if v0 < 0 || v1 < 0 {
        return InvalidCharacter;
      }
      var three := DecodeGroup(v0, v1, 0, 0);
      r := Data(three[..1]);
    } else if |t| == 3 {
      var v0, v1, v2 := dtable[t[0]], dtable[t[1]], dtable[t[2]];
      if v0 < 0 || v1 < 0 || v2 < 0 {
        return InvalidCharacter;
      }
      var three := DecodeGroup(v0, v1, v2, 0);
      r := Data(three[..2]);
    } else {
      r := Data([]);
    }
  }

  // ----- what the pair promises -----

  lemma EncodedStrips(a: Alphabet, d: bytes)
    ensures Stripped(Encoded(a, d)) == Symbols(a, Pack(d))
  {
    hide Pack, Symbols;
    var s := Symbols(a, Pack(d));
    SymbolsInAlphabet(a, Pack(d));
    StrippedIs(Encoded(a, d), |s|);
  }

  /** Decoding undoes encoding, with the padding it was given, without it, or with any other
      amount of up to two "=". */
  lemma RoundTrip(a: Alphabet, d: bytes, pads: bytes)
    requires |pads| <= 2 && forall i :: 0 <= i < |pads| ==> pads[i] == PAD
    ensures DecodedAs(a, Encoded(a, d)) == Data(d)
    ensures DecodedAs(a, Stripped(Encoded(a, d)) + pads) == Data(d)
  {
    hide Pack, Unpack, Symbols, Values, Stripped;
    EncodedStrips(a, d);
    PackLengths(d);
    SymbolsInAlphabet(a, Pack(d));
    UnpackPack(d);
    var t := Symbols(a, Pack(d));
    StrippedIs(t + pads, |t|);
  }

  lemma PackLengths(d: bytes)
    ensures |Pack(d)| % 4 != 1
  {
    PackLength(d);
    hide Pack;
    var q, r := |d| / 3, |d| % 3;
    QuotientUnique(4 * |d| + 2, 3, 4 * q + (4 * r + 2) / 3, (4 * r + 2) % 3);
  }

  /** `n` characters of the alphabet, and nothing but at most two "=" behind them. */
  predicate AcceptableAt(a: Alphabet, t: bytes, n: int)
  {
    && 0 <= n <= |t| <= n + 2 && n % 4 != 1
    && InAlphabet(a, t[..n]) && forall i :: n <= i < |t| ==> t[i] == PAD
  }

  /** Exactly what is accepted. */
  lemma Acceptance(a: Alphabet, t: bytes)
    ensures DecodedAs(a, t).Data? <==> exists n :: AcceptableAt(a, t, n)
  {
    hide Unpack, Values, Value, Stripped;
    if DecodedAs(a, t).Data? {
      assert AcceptableAt(a, t, |Stripped(t)|);
    }
    if n :| AcceptableAt(a, t, n) {
      LastIsNoPad(a, t[..n]);
      StrippedIs(t, n);
    }
  }

  lemma LastIsNoPad(a: Alphabet, s: bytes)
    requires InAlphabet(a, s)
    ensures s != [] ==> s[|s| - 1] != PAD
  {
    assert Value(a, PAD) == -1;
  }

  /** Encoding what was decoded gives the same characters exactly when the unused bits of the last
      one are zero. */
  lemma Reencoding(a: Alphabet, t: bytes)
    requires DecodedAs(a, t).Data?
    ensures Stripped(Encoded(a, DecodedAs(a, t).data)) == Stripped(t) <==> TrailingBitsZero(Values(a, Stripped(t)))
  {
    hide Pack, Unpack, Symbols, Values, Stripped, TrailingBitsZero;
    var s := Stripped(t);
    var v := Values(a, s);
    EncodedStrips(a, Unpack(v));
    PackUnpack(v);
    ValuesSpellSymbols(a, s);
    SymbolsInAlphabet(a, Pack(Unpack(v)));
  }

  /** Different data never share a text. */
  lemma EncodedInjective(a: Alphabet, d: bytes, e: bytes)
    requires Encoded(a, d) == Encoded(a, e)
    ensures d == e
  {
    RoundTrip(a, d, []);
    RoundTrip(a, e, []);
  }

  /** The text spells the bits of the data six at a time, as RFC 4648 describes it. */
  lemma TextBits(a: Alphabet, d: bytes, k: nat)
    requires k < 6 * |Stripped(Encoded(a, d))|
    ensures var t := Stripped(Encoded(a, d));
            && InAlphabet(a, t) && |t| == (4 * |d| + 2) / 3
            && GroupBit(Values(a, t), k) == if k < 8 * |d| then OctetBit(d, k) else 0
  {
    EncodedStrips(a, d);
    PackLength(d);
    SymbolsInAlphabet(a, Pack(d));
    PackBits(d, k);
  }
}
