// The wire format in literal bytes, apart from the functions that read and write it: where the
// fields of a stored buffer are, which tag stands for what, and which keys the envelopes use.
module Format {
  import opened Wrappers
  import opened ByteOrder
  import opened Parameters
  import opened Grammar
  import opened ByteStream
  import opened CrcRegister
  import opened CrcBurst
  import opened CrcPolynomial
  import Crc32
  import HandlerBoundary
  import ResourceBoundary

  // ----- stored buffers -----

  /** A stored buffer is version 2, eight length bytes, four checksum bytes and the payload. */
  lemma FrameLayout(v: Value)
    ensures var s := Frame(v);
            && |s| == 13 + |Enc(v)| && s[0] == 2 && s[1..9] == ToLittleEndian(|Enc(v)|, 8)
            && s[9..13] == Crc32.ToField(Crc32.Checksum(Enc(v))) && s[13..] == Enc(v)
  {
    hide Enc, Crc32.ToField, Crc32.Checksum, ToLittleEndian;
  }

  /** What is loaded: exactly a buffer that starts with byte 2 and the length of a payload inside it
      which has the checksum that follows and which is one value and nothing else. */
  lemma Accepted(s: bytes, v: Value)
    ensures Unframe(s) == Success(v) <==>
              && |s| >= 13 && s[0] == 2
              && 13 + FromLittleEndian(s[1..9]) <= |s|
              && Crc32.ToField(Crc32.Checksum(s[13..13 + FromLittleEndian(s[1..9])])) == s[9..13]
              && Parse(s[13..13 + FromLittleEndian(s[1..9])]) == Good(v, [])
  {
    hide Parse, Crc32.ToField, Crc32.Checksum, FromLittleEndian;
  }

  /** What is refused, and how: the version first, then the header and the length, then the checksum. */
  lemma RefusedHow(s: bytes)
    ensures Unframe(s) == Failure(Grammatical(BufferOverrun)) <== s == [] || (s[0] == 2 && |s| < 13)
    ensures s != [] && s[0] != 2 ==> Unframe(s) == Failure(VersionMismatch(s[0]))
    ensures |s| >= 13 && s[0] == 2 ==>
              var n := FromLittleEndian(s[1..9]);
              && (13 + n > |s| ==> Unframe(s) == Failure(Grammatical(BufferOverrun)))
              && (13 + n <= |s| ==>
                    (Unframe(s) == Failure(ChecksumMismatch)
                     <==> Crc32.ToField(Crc32.Checksum(s[13..13 + n])) != s[9..13]))
  {
    hide Parse, Crc32.ToField, Crc32.Checksum, FromLittleEndian;
  }

  // ----- values -----

  /** One byte up to eight: the least width that holds the number. */
  predicate LeastWidth(v: nat, w: nat)
  {
    1 <= w <= 8 && v < Pow256(w) && (w == 1 || v >= Pow256(w - 1))
  }

  lemma WidthIs(v: nat, w: nat)
    requires LeastWidth(v, w) && v < TWO_64
    ensures Width(v) == w
  {
    WidthFromIsLeast(v, 1);
    if Width(v) < w {
      Pow256Monotonic(Width(v), w - 1);
    }
  }

  /** Numbers: tags 9 to 16 by the width of the magnitude, 17 to 24 below zero. */
  lemma NumberBytes(i: int64, w: nat)
    requires LeastWidth(if i < 0 then -(i as int) else i, w)
    ensures i >= 0 ==> Enc(I64(i)) == [8 + w] + ToLittleEndian(i, w)
    ensures i < 0 ==> Enc(I64(i)) == [16 + w] + ToLittleEndian(-(i as int), w)
  {
    WidthIs(if i < 0 then -(i as int) else i, w);
  }

  /** An unsigned number is written as the signed number with the same 64 bits. */
  lemma UnsignedBytes(u: uint64, i: int64)
    requires (u - i) % TWO_64 == 0
    ensures Enc(U64(u)) == Enc(I64(i))
  {
    hide EncNumber, ToInt64;
    SameInt64(u, i);
  }

  /** Texts: tags 1 to 8 by the width of the length. */
  lemma TextBytes(s: bytes, w: nat)
    requires LeastWidth(|s|, w) && |s| < TWO_64
    ensures Enc(Text(s)) == [w] + ToLittleEndian(|s|, w) + s
  {
    WidthIs(|s|, w);
  }

  lemma BoolBytes()
    ensures Enc(Bool(false)) == [25, 0] && Enc(Bool(true)) == [25, 1]
  {
  }

  /** Lists are tag 26, the number of items and the items in order. */
  lemma ListBytes(v: Value, w: Value)
    ensures Enc(List([])) == [26, 9, 0]
    ensures Enc(List([v, w])) == [26, 9, 2] + Enc(v) + Enc(w)
  {
    hide Enc, EncNumber, EncItems;
    SmallNumbers();
    TwoItems(v, w);
    ListIs([]);
    ListIs([v, w]);
  }

  /** Maps are tag 27, the number of entries, and for each its key as a text and its value. */
  lemma MapBytes(k: bytes, v: Value, l: bytes, w: Value)
    ensures Enc(Map([])) == [27, 9, 0]
    ensures Enc(Map([Entry(k, v), Entry(l, w)])) == [27, 9, 2] + Enc(Text(k)) + Enc(v) + Enc(Text(l)) + Enc(w)
  {
    hide Enc, EncNumber, EncText, EncEntries;
    SmallNumbers();
    TextIs(k);
    TextIs(l);
    TwoEntries(k, v, l, w);
    MapIs([]);
    MapIs([Entry(k, v), Entry(l, w)]);
  }

  lemma ListIs(items: seq<Value>)
    ensures Enc(List(items)) == [26] + EncNumber(|items|) + EncItems(items)
  {
    hide EncNumber, EncItems;
  }

  lemma MapIs(entries: seq<Entry>)
    ensures Enc(Map(entries)) == [27] + EncNumber(|entries|) + EncEntries(entries)
  {
    hide EncNumber, EncEntries;
  }

  lemma SmallNumbers()
    ensures EncNumber(0) == [9, 0] && EncNumber(1) == [9, 1] && EncNumber(2) == [9, 2]
  {
    assert ToLittleEndian(0, 1) == [0] && ToLittleEndian(1, 1) == [1] && ToLittleEndian(2, 1) == [2];
  }

  lemma TextIs(k: bytes)
    ensures Enc(Text(k)) == EncText(k)
  {
  }

  lemma TwoItems(v: Value, w: Value)
    ensures EncItems([]) == [] && EncItems([v, w]) == Enc(v) + Enc(w)
  {
    hide Enc;
    assert [v, w][1..] == [w] && [w][1..] == [];
    assert EncItems([w]) == Enc(w) + EncItems([]);
  }

  lemma TwoEntries(k: bytes, v: Value, l: bytes, w: Value)
    ensures EncEntries([]) == []
    ensures EncEntries([Entry(k, v), Entry(l, w)]) == EncText(k) + Enc(v) + EncText(l) + Enc(w)
  {
    hide Enc, EncText;
    var d, e := Entry(k, v), Entry(l, w);
    assert [d, e][1..] == [e] && [e][1..] == [];
    assert EncEntries([e]) == EncText(l) + Enc(w) + EncEntries([]);
  }

  /** A reader takes any width that the tag names, not the least one only. */
  lemma AnyWidth(u: nat, w: nat, i: int64, rest: bytes)
    requires 1 <= w <= 8 && u < Pow256(w)
    ensures (u - i) % TWO_64 == 0 ==> Parse([8 + w] + ToLittleEndian(u, w) + rest) == Good(I64(i), rest)
    ensures (u + i) % TWO_64 == 0 ==> Parse([16 + w] + ToLittleEndian(u, w) + rest) == Good(I64(i), rest)
  {
    hide ToLittleEndian, FromLittleEndian, ToInt64, ParseUnsigned, Pow256, ParseVectorBody, ParseMapBody;
    AfterTag(8 + w, u, w, rest);
    AfterTag(16 + w, u, w, rest);
    SameInt64(u, i);
    SameInt64(-(u as int), i);
  }

  lemma AnyTextWidth(t: bytes, w: nat, rest: bytes)
    requires 1 <= w <= 8 && |t| < Pow256(w)
    ensures Parse([w] + ToLittleEndian(|t|, w) + t + rest) == Good(Text(t), rest)
  {
    hide ToLittleEndian, FromLittleEndian, ParseUnsigned, Pow256, ParseVectorBody, ParseMapBody;
    var s := [w] + ToLittleEndian(|t|, w) + (t + rest);
    AfterTag(w, |t|, w, t + rest);
    assert [w] + ToLittleEndian(|t|, w) + t + rest == s;
    assert (t + rest)[..|t|] == t && (t + rest)[|t|..] == rest;
    assert ParseText(s[1..], w) == Good(t, rest);
  }

  lemma SameInt64(u: int, i: int64)
    ensures (u - i) % TWO_64 == 0 ==> ToInt64(u) == i
  {
    var k := (u - i) / TWO_64;
    if u == i + k * TWO_64 {
      if i >= 0 {
        QuotientUnique(u, TWO_64, k, i);
      } else {
        QuotientUnique(u, TWO_64, k - 1, i + TWO_64);
      }
    }
  }

  lemma AfterTag(tag: byte, u: nat, w: nat, rest: bytes)
    requires 1 <= w <= 8 && u < Pow256(w)
    ensures var s := [tag] + ToLittleEndian(u, w) + rest;
            s[0] == tag && ParseUnsigned(s[1..], w) == Good(u, rest)
  {
    hide ToLittleEndian, FromLittleEndian;
    var digits, s := ToLittleEndian(u, w), [tag] + ToLittleEndian(u, w) + rest;
    LittleEndianRoundTrip(u, w);
    assert s[1..] == digits + rest;
    assert (digits + rest)[..w] == digits && (digits + rest)[w..] == rest;
  }

  /** The tags without a width, and the bytes that are no tag. */
  lemma OtherTags(s: bytes)
    ensures Parse([]) == Bad(BufferOverrun)
    ensures s != [] && s[0] == 0 ==> Parse(s) == Good(Text([]), s[1..])
    ensures |s| >= 2 && s[0] == 25 ==> Parse(s) == Good(Bool(s[1] != 0), s[2..])
    ensures s != [] && s[0] > 27 ==> Parse(s) == Bad(InvalidTag(s[0]))
  {
    if |s| >= 2 {
      assert s[1..][1..] == s[2..];
    }
  }

  /** Before a list or map body only the tags of non-negative numbers are a length. */
  lemma BadLength(s: bytes)
    requires s != [] && !(9 <= s[0] <= 16)
    ensures Parse([26] + s) == Bad(InvalidLengthTag(s[0])) && Parse([27] + s) == Bad(InvalidLengthTag(s[0]))
  {
    assert ParseLength(s) == Bad(InvalidLengthTag(s[0]));
    assert ParseVectorBody(s) == Bad(InvalidLengthTag(s[0])) && ParseMapBody(s) == Bad(InvalidLengthTag(s[0]));
    hide ParseLength, ParseVectorBody, ParseMapBody, ParseScalar;
    assert ([26] + s)[1..] == s && ([27] + s)[1..] == s;
  }

  /** And before an entry only those of non-empty texts are a key. */
  lemma BadKey(s: bytes)
    requires s != [] && !(1 <= s[0] <= 8)
    ensures Parse([27, 9, 1] + s) == Bad(InvalidKeyTag(s[0]))
  {
    assert ParseKey(s) == Bad(InvalidKeyTag(s[0]));
    hide ParseKey, ParseLength, ParseScalar;
    SmallNumbers();
    assert ParseEntry(s) == Bad(InvalidKeyTag(s[0]));
    assert ParseEntries(s, 1) == Bad(InvalidKeyTag(s[0]));
    ParseLengthEnc(1, s);
    hide ParseEntries, ParseEntry;
    assert ParseMapBody(EncNumber(1) + s) == Bad(InvalidKeyTag(s[0]));
    var t := [27, 9, 1] + s;
    assert t[1..] == EncNumber(1) + s;
  }

  /** A key that comes twice keeps its first value. */
  lemma {:induction false} FirstValueKept(es: seq<Entry>, i: nat)
    requires i < |es| && es[i].key !in KeysOf(es[..i])
    ensures es[i] in Collect(es)
  {
    var n := |es| - 1;
    if i < n {
      assert es[..n][..i] == es[..i];
      FirstValueKept(es[..n], i);
    } else {
      CollectedKeys(es[..n]);
    }
  }

  lemma {:induction false} CollectedKeys(es: seq<Entry>)
    ensures KeysOf(Collect(es)) == KeysOf(es)
  {
    if es != [] {
      var n := |es| - 1;
      CollectedKeys(es[..n]);
      assert es == es[..n] + [es[n]];
      KeysOfSnoc(es[..n], es[n]);
      KeysOfSnoc(Collect(es[..n]), es[n]);
    }
  }

  /** Two entries with one key, in bytes. */
  lemma SameKeyTwice(k: bytes, v: Value, w: Value, rest: bytes)
    requires |k| < TWO_64 && WellFormed(v) && WellFormed(w)
    ensures Parse([27, 9, 2] + Enc(Text(k)) + Enc(v) + Enc(Text(k)) + Enc(w) + rest) == Good(Map([Entry(k, Norm(v))]), rest)
  {
    hide Enc, EncText, EncNumber, Parse, Norm, WellFormed, ParseEntry;
    TextIs(k);
    SmallNumbers();
    var second := EncText(k) + (Enc(w) + rest);
    var first := EncText(k) + (Enc(v) + second);
    var d, e := Entry(k, Norm(v)), Entry(k, Norm(w));
    ParseEnc(v, second);
    ParseEnc(w, rest);
    ParseEntryEnc(k, v, second);
    ParseEntryEnc(k, w, rest);
    OneMoreEntry(rest, 0, rest, e, second, []);
    OneMoreEntry(second, 1, rest, d, first, [e] + []);
    assert [d, e][..1] == [d] && [d][..0] == [];
    assert [d] + ([e] + []) == [d, e] && Collect([d]) == [d] && Collect([d, e]) == [d];
    ParseMap(2, first, [d, e], rest);
    assert [27, 9, 2] + Enc(Text(k)) + Enc(v) + Enc(Text(k)) + Enc(w) + rest == [27] + ([9, 2] + first);
  }

  lemma OneMoreEntry(after: bytes, n: nat, rest: bytes, e: Entry, s: bytes, es: seq<Entry>)
    requires ParseEntry(s) == Good(e, after) && ParseEntries(after, n) == Good(es, rest)
    ensures ParseEntries(s, n + 1) == Good([e] + es, rest)
  {
    hide ParseEntry;
  }

  // ----- one buffer in full -----

  lemma WideOfA()
    ensures Widen(97) == 0x61
  {
    hide Word, Four;
    assert LowBits(3, 3) == [true, true, false] by {
      assert LowBits(3, 3) == [true] + ([true] + LowBits(0, 1));
    }
    assert LowBits(12, 5) == [false, false] + LowBits(3, 3);
    assert LowBits(24, 6) == [false] + LowBits(12, 5);
    assert LowBits(97, 8) == [true] + ([false] + LowBits(24, 6));
    var s := LowBits(97, 8);
    assert s == [true, false, false, false, false, true, true, false];
    EightBits(s);
    NibblesOfA();
  }

  lemma WideOfOne()
    ensures Widen(1) == 1
  {
    hide Word, Four;
    assert LowBits(0, 4) == [false, false, false, false];
    assert LowBits(0, 7) == [false, false, false] + LowBits(0, 4);
    var s := LowBits(1, 8);
    assert s == [true] + LowBits(0, 7);
    EightBits(s);
    NibblesOfA();
  }

  lemma EightBits(s: seq<bool>)
    requires |s| == 8
    ensures Word(s) == Four(Four(0, s[4], s[5], s[6], s[7]), s[0], s[1], s[2], s[3])
  {
    hide Word, Four;
    NoWord(s[8..]);
    WordFour(s, 4, s[4], s[5], s[6], s[7]);
    WordFour(s, 0, s[0], s[1], s[2], s[3]);
    assert s[0..] == s;
  }

  lemma NibblesOfA()
    ensures Four(Four(0, false, true, true, false), true, false, false, false) == 0x61
    ensures Four(Four(0, false, false, false, false), true, false, false, false) == 1
  {
  }

  lemma StepsOfA()
    ensures Eight(0xFFFF_FFFF ^ 1) == 0x5AFA_20E4 && Eight(0x5AFA_20E4 ^ 1) == 0xD03A_ECD7
    ensures Eight(0xD03A_ECD7 ^ 0x61) == 0x22D2_2C55 && Complement(0x22D2_2C55) == 0xDD2D_D3AA
    ensures Crc32.ToField(0xDD2D_D3AA) == [0xAA, 0xD3, 0x2D, 0xDD]
  {
  }

  lemma ChecksumOfA()
    ensures Crc32.Checksum([1, 1, 97]) == 0xDD2D_D3AA
  {
    hide AbsorbByte, Widen, Eight, Complement;
    WideOfA();
    WideOfOne();
    StepsOfA();
    Digit(0xFFFF_FFFF, 1, 1, 0x5AFA_20E4);
    Digit(0x5AFA_20E4, 1, 1, 0xD03A_ECD7);
    Digit(0xD03A_ECD7, 97, 0x61, 0x22D2_2C55);
    var s: bytes := [1, 1, 97];
    assert s[1..] == [1, 97] && s[1..][1..] == [97] && s[1..][1..][1..] == [];
  }

  lemma LengthOfA()
    ensures ToLittleEndian(3, 8) == [3, 0, 0, 0, 0, 0, 0, 0] && ToLittleEndian(1, 1) == [1]
  {
    assert ToLittleEndian(0, 4) == [0, 0, 0, 0];
    assert ToLittleEndian(0, 7) == [0, 0, 0] + ToLittleEndian(0, 4);
    assert ToLittleEndian(3, 8) == [3] + ToLittleEndian(0, 7);
  }

  /** The text "a" as it is stored. */
  lemma FrameOfA()
    ensures Frame(Text(Ascii("a"))) == [2, 3, 0, 0, 0, 0, 0, 0, 0, 0xAA, 0xD3, 0x2D, 0xDD, 1, 1, 97]
  {
    hide Complement, Crc32.ToField, Crc32.Checksum, ToLittleEndian, Enc, Pow256;
    assert Ascii("a") == [97];
    Pow256Values();
    LengthOfA();
    TextBytes([97], 1);
    assert Enc(Text([97])) == [1, 1, 97];
    ChecksumOfA();
    StepsOfA();
  }

  // ----- what survives the wire -----

  /** The same value, but for a number that has become signed. */
  ghost predicate SameButSign(p: Param, q: Param)
  {
    match p
    case PU64(u) => q.PI64? && (u - q.i) % TWO_64 == 0
    case PList(items) =>
      q.PList? && |q.items| == |items| && forall i :: 0 <= i < |items| ==> SameButSign(items[i], q.items[i])
    case PMap(fields) =>
      q.PMap? && q.fields.Keys == fields.Keys && forall k :: k in fields ==> SameButSign(fields[k], q.fields[k])
    case _ => q == p
  }

  lemma {:induction false} OnlySignsChange(p: Param)
    ensures SameButSign(p, NormParam(p))
  {
    match p
    case PList(items) =>
      forall i | 0 <= i < |items|
        ensures SameButSign(items[i], NormParam(items[i]))
      {
        OnlySignsChange(items[i]);
      }
    case PMap(fields) =>
      forall k | k in fields
        ensures SameButSign(fields[k], NormParam(fields[k]))
      {
        OnlySignsChange(fields[k]);
      }
    case _ =>
  }

  // ----- the envelopes -----

  predicate Has(m: map<bytes, Param>, key: string, p: Param)
  {
    Ascii(key) in m && m[Ascii(key)] == p
  }

  lemma Keys()
    ensures HandlerBoundary.OK == Ascii("ok") && HandlerBoundary.BODY == Ascii("body")
    ensures HandlerBoundary.HTTP_CODE == Ascii("http_code") && HandlerBoundary.MESSAGE == Ascii("message")
  {
  }

  /** The parameters a handler is called with: exactly those of an input that loads as a map. */
  lemma InputReads(s: bytes, params: HandlerBoundary.Fields)
    ensures HandlerBoundary.DecodeParams(s) == Success(params) <==>
              Unframe(s).Success? && Forget(Unframe(s).value) == PMap(params)
  {
    hide Unframe;
  }

  /** What the host makes of a handler's output: a success exactly for "ok" = true with a "body" map,
      the handler's own error exactly for "ok" = false with its code and text, and a 500 of the host's
      own for everything else. */
  lemma OutputReads(s: bytes, m: map<bytes, Param>)
    requires Unframe(s).Success? && Forget(Unframe(s).value) == PMap(m)
    ensures forall body :: HandlerBoundary.Unwrap(s) == Success(body) <==>
              Has(m, "ok", PBool(true)) && Has(m, "body", PMap(body))
    ensures forall code: int32, text :: Has(m, "ok", PBool(false)) && Has(m, "http_code", PI64(code)) && Has(m, "message", PText(text)) ==>
              HandlerBoundary.Unwrap(s) == Failure(HandlerBoundary.HandlerError(code, text))
    ensures HandlerBoundary.Unwrap(s).Failure? && HandlerBoundary.Unwrap(s).error.httpCode != 500 ==>
              && Has(m, "ok", PBool(false)) && Has(m, "message", PText(HandlerBoundary.Unwrap(s).error.message))
              && Ascii("http_code") in m && m[Ascii("http_code")].PI64?
              && (m[Ascii("http_code")].i - HandlerBoundary.Unwrap(s).error.httpCode) % 0x1_0000_0000 == 0
  {
    RefusedHow(s);
    hide Unframe, Forget, Ascii, ToInt32;
    Keys();
    forall code: int32
      ensures ToInt32(code) == code
    {
      HandlerBoundary.ToInt32Same(code);
    }
    assert HandlerBoundary.Unwrap(s) == HandlerBoundary.FromWire(PMap(m));
  }

  /** An output that does not load as a map, the empty one among them, is a 500. */
  lemma OutputFails(s: bytes)
    requires Unframe(s).Success? ==> !Forget(Unframe(s).value).PMap?
    ensures HandlerBoundary.Unwrap(s).Failure? && HandlerBoundary.Unwrap(s).error.httpCode == 500
  {
    hide Unframe, Forget;
  }

  /** What the handler's side puts there. */
  lemma OutputHas(body: HandlerBoundary.Fields, e: HandlerBoundary.HandlerError)
    ensures var p := HandlerBoundary.ToWire(Success(body));
            p.PMap? && |p.fields| == 2 && Has(p.fields, "ok", PBool(true)) && Has(p.fields, "body", PMap(body))
    ensures var p := HandlerBoundary.ToWire(Failure(e));
            && p.PMap? && |p.fields| == 3 && Has(p.fields, "ok", PBool(false))
            && Has(p.fields, "http_code", PI64(e.httpCode)) && Has(p.fields, "message", PText(e.message))
  {
    Keys();
    Different("ok", "body");
    Different("ok", "http_code");
    Different("ok", "message");
    Different("http_code", "message");
    hide Ascii;
  }

  lemma Different(k: string, l: string)
    requires |k| != |l|
    ensures Ascii(k) != Ascii(l)
  {
  }

  // ----- resource descriptions -----

  lemma SpecKeys()
    ensures ResourceBoundary.PATH == Ascii("path") && ResourceBoundary.METHOD == Ascii("method")
    ensures ResourceBoundary.PARAMS == Ascii("params") && ResourceBoundary.NAME == Ascii("name")
    ensures ResourceBoundary.TYPE == Ascii("type") && ResourceBoundary.REQUIRED == Ascii("required")
    ensures ResourceBoundary.DEFAULT_VALUE == Ascii("default_value")
  {
  }

  /** What a registered description was read from. */
  lemma SpecReads(p: Param)
    ensures ResourceBoundary.FromWire(p).Success? ==>
              var s := ResourceBoundary.FromWire(p).value;
              && p.PMap? && Has(p.fields, "path", PText(s.path))
              && Ascii("method") in p.fields && p.fields[Ascii("method")].PI64?
              && (p.fields[Ascii("method")].i - s.httpMethod) % 0x1_0000_0000 == 0
              && Ascii("params") in p.fields && p.fields[Ascii("params")].PList?
              && |p.fields[Ascii("params")].items| == |s.params|
              && forall i :: 0 <= i < |s.params| ==> ParamReads(p.fields[Ascii("params")].items[i], s.params[i])
  {
    hide Ascii;
    SpecKeys();
    if ResourceBoundary.FromWire(p).Success? {
      ParamsRead(p.fields[ResourceBoundary.PARAMS].items);
    }
  }

  ghost predicate ParamReads(p: Param, s: ResourceBoundary.ParamSpec)
  {
    && p.PMap? && Has(p.fields, "name", PText(s.name)) && Has(p.fields, "required", PBool(s.required))
    && Has(p.fields, "default_value", s.defaultValue)
    && Ascii("type") in p.fields && p.fields[Ascii("type")].PI64?
    && (p.fields[Ascii("type")].i - s.kind) % 0x1_0000_0000 == 0
  }

  lemma {:induction false} ParamsRead(items: seq<Param>)
    ensures var r := ResourceBoundary.ParamsFromWire(items);
            r.Success? ==> forall i :: 0 <= i < |items| ==> ParamReads(items[i], r.value[i])
  {
    if items != [] {
      hide Ascii, ParamReads, ResourceBoundary.ParamFromWire;
      var n := |items| - 1;
      ParamsRead(items[..n]);
      ParamRead(items[n]);
    }
  }

  lemma ParamRead(p: Param)
    ensures var r := ResourceBoundary.ParamFromWire(p); r.Success? ==> ParamReads(p, r.value)
  {
    SpecKeys();
    hide Ascii;
  }
}
