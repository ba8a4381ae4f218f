// parameter_bytestream_t: the stateful writer and reader over a caller's fixed buffer.
//
// Every writer is proved against the encoding of what it writes, every reader against the
// parse of the bytes in front of it. Exceptions inside the source are Status/Result values.
module ByteStream {
  import opened Wrappers
  import opened ByteOrder
  import opened Parameters
  import opened Grammar
  import Crc32

  datatype StreamError =
    | Reused
    | Grammatical(error: WireError)
    | VersionMismatch(got: byte)
    | ChecksumMismatch
    | TrailingBytes(count: nat)

  datatype Status = Ok | Thrown(error: WireError)

  const WIRE_VERSION: byte := 2
  const HEADER: nat := 13

  // ----- what a buffer holds after a writer, and what a reader makes of it -----

  /** A whole stored buffer: version, payload length, checksum, payload. */
  function Frame(v: Value): (s: bytes)
    ensures |s| == HEADER + |Enc(v)|
  {
    [WIRE_VERSION] + ToLittleEndian(|Enc(v)|, 8) + Crc32.ToField(Crc32.Checksum(Enc(v))) + Enc(v)
  }

  /** A buffer after a value was stored into it: the frame, and beyond it what was there before. */
  function Stored(b0: bytes, v: Value): bytes
    requires |Frame(v)| <= |b0|
  {
    Frame(v) + b0[|Frame(v)|..]
  }

  ghost predicate SameFrom(b0: bytes, b1: bytes, bound: nat)
  {
    bound <= |b0| == |b1| && b1[bound..] == b0[bound..]
  }

  /** load() of arbitrary bytes. */
  function Unframe(s: bytes): Result<Value, StreamError>
  {
    if s == [] then Failure(Grammatical(BufferOverrun))
    else if s[0] != WIRE_VERSION then Failure(VersionMismatch(s[0]))
    else if |s| < HEADER then Failure(Grammatical(BufferOverrun))
    else
      var len := FromLittleEndian(s[1..9]);
      if HEADER + len > |s| then Failure(Grammatical(BufferOverrun))
      else UnframePayload(s[9..13], s[HEADER..HEADER + len])
  }

  function UnframePayload(checksum: bytes, payload: bytes): Result<Value, StreamError>
  {
    if Crc32.ToField(Crc32.Checksum(payload)) != checksum then Failure(ChecksumMismatch)
    else match Parse(payload)
      case Bad(e) => Failure(Grammatical(e))
      case Good(v, rest) => if rest == [] then Success(v) else Failure(TrailingBytes(|rest|))
  }

  function Backfilled(b: bytes, headerPos: nat, payloadLen: nat): bytes
    requires headerPos + 12 + payloadLen <= |b|
  {
    var pos := headerPos + 12;
    b[..headerPos] + ToLittleEndian(payloadLen, 8)
    + Crc32.ToField(Crc32.Checksum(b[pos..pos + payloadLen])) + b[pos..]
  }

  /** Between two states of a buffer, exactly the bytes at [from..to) were written, and they are
      the first to - from bytes of `enc`: all of them when the writer succeeded. */
  ghost predicate Wrote(before: bytes, from: nat, after: bytes, to: nat, enc: bytes, done: bool)
  {
    && |after| == |before| && from <= to <= |after| && to - from <= |enc|
    && (done ==> to - from == |enc|)
    && after == before[..from] + enc[..to - from] + before[to..]
  }

  lemma WroteNothing(b: bytes, from: nat, enc: bytes)
    requires from <= |b|
    ensures Wrote(b, from, b, from, enc, enc == [])
  {
  }

  lemma WroteThen(b0: bytes, from: nat, b1: bytes, mid: nat, enc1: bytes, b2: bytes, to: nat, enc2: bytes, done: bool)
    requires Wrote(b0, from, b1, mid, enc1, true) && Wrote(b1, mid, b2, to, enc2, done)
    ensures Wrote(b0, from, b2, to, enc1 + enc2, done)
  {
    assert (enc1 + enc2)[..to - from] == enc1 + enc2[..to - mid];
    assert b1[..mid] == b0[..from] + enc1;
    assert b1[to..] == b0[to..];
  }

  lemma WroteLess(b0: bytes, from: nat, b1: bytes, to: nat, enc: bytes, more: bytes)
    requires Wrote(b0, from, b1, to, enc, false)
    ensures Wrote(b0, from, b1, to, enc + more, false)
  {
    assert (enc + more)[..to - from] == enc[..to - from];
  }

  lemma FrameAssembled(b0: bytes, b: bytes, b1: bytes, v: Value)
    requires b0 != [] && b == [WIRE_VERSION] + b0[1..]
    requires |Frame(v)| <= |b| && Wrote(b, HEADER, b1, |Frame(v)|, Enc(v), true)
    ensures Backfilled(b1, 1, |Enc(v)|) == Stored(b0, v)
  {
    hide Enc, ToLittleEndian, Crc32.ToField, Crc32.Checksum;
    WroteAll(b, HEADER, b1, |Frame(v)|, Enc(v));
    BackfillRuns(b0, b, b1, Enc(v));
  }

  lemma BackfillRuns(b0: bytes, b: bytes, b1: bytes, enc: bytes)
    requires b0 != [] && b == [WIRE_VERSION] + b0[1..] && |b1| == |b| >= HEADER + |enc|
    requires b1[..HEADER] == b[..HEADER] && b1[HEADER..HEADER + |enc|] == enc && b1[HEADER + |enc|..] == b[HEADER + |enc|..]
    ensures b1[..1] == [WIRE_VERSION] && b1[HEADER..] == enc + b0[HEADER + |enc|..]
  {
    assert b1[..1] == b1[..HEADER][..1];
    assert b[HEADER + |enc|..] == b0[HEADER + |enc|..];
  }

  lemma StoredInside(b0: bytes, v: Value, bound: nat)
    requires |Frame(v)| <= bound <= |b0|
    ensures SameFrom(b0, Stored(b0, v), bound)
  {
    hide Frame;
  }

  /** Nothing at or after the bound is touched. */
  lemma WroteInside(b0: bytes, from: nat, b1: bytes, to: nat, enc: bytes, done: bool, bound: nat)
    requires Wrote(b0, from, b1, to, enc, done) && to <= bound <= |b0|
    ensures SameFrom(b0, b1, bound)
  {
    assert b1[bound..] == b1[to..][bound - to..];
    assert b1[to..] == b0[to..];
  }

  lemma WroteAll(b0: bytes, from: nat, b1: bytes, to: nat, enc: bytes)
    requires Wrote(b0, from, b1, to, enc, true)
    ensures b1[..from] == b0[..from] && b1[from..to] == enc && b1[to..] == b0[to..]
  {
    assert enc[..to - from] == enc;
  }

  /** One more writer in a run of writers that together write `whole`. */
  lemma WroteNext(b0: bytes, from: nat, b1: bytes, mid: nat, done: bytes,
                  b2: bytes, to: nat, enc: bytes, rest: bytes, whole: bytes, ok: bool)
    requires Wrote(b0, from, b1, mid, done, true) && Wrote(b1, mid, b2, to, enc, ok)
    requires done + (enc + rest) == whole
    ensures Wrote(b0, from, b2, to, done + enc, ok) && (done + enc) + rest == whole
    ensures !ok ==> Wrote(b0, from, b2, to, whole, false)
    ensures ok ==> to == from + |done + enc|
  {
    WroteThen(b0, from, b1, mid, done, b2, to, enc, ok);
    assert (done + enc) + rest == whole;
    if !ok {
      WroteLess(b0, from, b2, to, done + enc, rest);
    }
  }

  class ParameterByteStream {
    const buffer: array<byte>
    var bufferSize: nat
    var offset: nat

    ghost predicate Valid()
      reads this
    {
      offset <= bufferSize <= buffer.Length && bufferSize < TWO_64
    }

    constructor (buffer: array<byte>, bufferSize: nat)
      requires bufferSize <= buffer.Length && bufferSize < TWO_64
      ensures this.buffer == buffer && this.bufferSize == bufferSize && offset == 0 && Valid()
    {
      this.buffer := buffer;
      this.bufferSize := bufferSize;
      this.offset := 0;
    }

    // ----- writing -----

    /** The outcome of a writer of `enc`: it succeeds exactly when `enc` fits. */
    twostate predicate Writes(enc: bytes, r: Status)
      reads this, buffer
    {
      && Valid()
      && Wrote(old(buffer[..]), old(offset), buffer[..], offset, enc, r.Ok?)
      && r == if old(offset) + |enc| <= bufferSize then Ok else Thrown(BufferOverrun)
    }

    method CheckCapacity(needed: nat) returns (r: Status)
      requires Valid()
      ensures r == if offset + needed <= bufferSize then Ok else Thrown(BufferOverrun)
    {
      if offset + needed > bufferSize {
        return Thrown(BufferOverrun);
      }
      return Ok;
    }

    method PutByte(b: byte) returns (r: Status)
      requires Valid()
      modifies this`offset, buffer
      ensures Writes([b], r)
    {
      r := CheckCapacity(1);
      if r.Ok? {
        buffer[offset] := b;
        offset := offset + 1;
      }
    }

    /** The source's run of put_byte(byte(v, 0)) .. put_byte(byte(v, n - 1)). */
    method PutBytes(v: nat, n: nat) returns (r: Status)
      requires Valid()
      modifies this`offset, buffer
      ensures Writes(ToLittleEndian(v, n), r)
    {
      hide ByteAt;
      ghost var b0, from := buffer[..], offset;
      ghost var all := ToLittleEndian(v, n);
      r := Ok;
      for i := 0 to n
        invariant Valid() && r.Ok?
        invariant Wrote(b0, from, buffer[..], offset, all[..i], true)
      {
        LittleEndianByte(v, n, i);
        ghost var b1, mid := buffer[..], offset;
        r := PutByte(ByteAt(v, i));
        WroteThen(b0, from, b1, mid, all[..i], buffer[..], offset, [all[i]], r.Ok?);
        assert all[..i] + [all[i]] == all[..i + 1];
        if !r.Ok? {
          WroteLess(b0, from, buffer[..], offset, all[..i + 1], all[i + 1..]);
          assert all[..i + 1] + all[i + 1..] == all;
          return;
        }
      }
      assert all[..n] == all;
    }

    /** The branch on the magnitude: tag `base + n` and `n` bytes of `v`, for the first
        threshold 256^n above `v`. */
    method WriteHead(base: nat, v: nat) returns (r: Status)
      requires Valid() && base <= NEGATIVE_TAG && v < TWO_64
      modifies this`offset, buffer
      ensures Writes(EncTagged(base, v), r)
    {
      var n := WidthBranch(v);
      WidthByThreshold(v);
      ghost var b0, from := buffer[..], offset;
      r := PutByte(base + n);
      if r.Thrown? {
        WroteLess(b0, from, buffer[..], offset, [base + n], ToLittleEndian(v, n));
        return;
      }
      ghost var b1, mid := buffer[..], offset;
      r := PutBytes(v, n);
      WroteThen(b0, from, b1, mid, [base + n], buffer[..], offset, ToLittleEndian(v, n), r.Ok?);
    }

    method WriteNumber(val: int) returns (r: Status)
      requires Valid() && -TWO_63 <= val < TWO_64
      modifies this`offset, buffer
      ensures Writes(EncNumber(val), r)
    {
      var v := Magnitude(val);
      MagnitudeIsAbsolute(val);
      var n := BytesNeeded(v);
      r := CheckCapacity(1 + n);
      if r.Thrown? {
        WroteNothing(buffer[..], offset, EncNumber(val));
        return;
      }
      if val >= 0 {
        r := WriteHead(NUMBER_TAG, v);
      } else {
        r := WriteHead(NEGATIVE_TAG, v);
      }
    }

    method WriteText(s: bytes) returns (r: Status)
      requires Valid() && |s| < TWO_64
      modifies this`offset, buffer
      ensures Writes(EncText(s), r)
    {
      ghost var b0, from := buffer[..], offset;
      var n := BytesNeeded(|s|);
      r := CheckCapacity(1 + n + |s|);
      if r.Thrown? {
        WroteNothing(buffer[..], offset, EncText(s));
        return;
      }
      r := WriteHead(TEXT_TAG, |s|);
      ghost var b1, mid := buffer[..], offset;
      forall i | 0 <= i < |s| {
        buffer[offset + i] := s[i];
      }
      offset := offset + |s|;
      assert buffer[..] == b1[..mid] + s[..|s|] + b1[offset..];
      WroteThen(b0, from, b1, mid, EncTagged(TEXT_TAG, |s|), buffer[..], offset, s, true);
    }

    method WriteBool(b: bool) returns (r: Status)
      requires Valid()
      modifies this`offset, buffer
      ensures Writes(EncBool(b), r)
    {
      ghost var b0, from := buffer[..], offset;
      r := CheckCapacity(2);
      if r.Thrown? {
        WroteNothing(buffer[..], offset, EncBool(b));
        return;
      }
      r := PutByte(BOOLEAN_TAG);
      ghost var b1, mid := buffer[..], offset;
      var bit := if b then 1 else 0;
      r := PutByte(bit);
      WroteThen(b0, from, b1, mid, [BOOLEAN_TAG], buffer[..], offset, [bit], true);
      assert EncBool(b) == [BOOLEAN_TAG] + [bit];
    }

    method WriteContainerHead(tag: byte, size: nat) returns (r: Status)
      requires Valid() && size < TWO_64
      modifies this`offset, buffer
      ensures Writes([tag] + EncNumber(size), r)
    {
      ghost var b0, from := buffer[..], offset;
      r := PutByte(tag);
      if r.Thrown? {
        WroteLess(b0, from, buffer[..], offset, [tag], EncNumber(size));
        return;
      }
      ghost var b1, mid := buffer[..], offset;
      r := WriteNumber(size);
      WroteThen(b0, from, b1, mid, [tag], buffer[..], offset, EncNumber(size), r.Ok?);
    }

    method WriteList(items: seq<Value>) returns (r: Status)
      requires Valid() && WellFormed(List(items))
      modifies this`offset, buffer
      ensures Writes(Enc(List(items)), r)
      decreases items, 0
    {
      hide EncNumber;
      ghost var b0, from := buffer[..], offset;
      ghost var whole, done := Enc(List(items)), [VECTOR_TAG] + EncNumber(|items|);
      r := WriteContainerHead(VECTOR_TAG, |items|);
      if r.Thrown? {
        WroteLess(b0, from, buffer[..], offset, done, EncItems(items));
        return;
      }
      assert items[0..] == items;
      for i := 0 to |items|
        invariant Valid() && r.Ok?
        invariant Wrote(b0, from, buffer[..], offset, done, true)
        invariant done + EncItems(items[i..]) == whole
      {
        WellFormedItem(items, i);
        EncItemsAt(items, i);
        ghost var b1, mid := buffer[..], offset;
        r := Serialize(items[i]);
        WroteNext(b0, from, b1, mid, done, buffer[..], offset, Enc(items[i]), EncItems(items[i + 1..]), whole, r.Ok?);
        if r.Thrown? {
          return;
        }
        done := done + Enc(items[i]);
      }
      assert done == whole;
    }

    method WriteEntry(e: Entry) returns (r: Status)
      requires Valid() && |e.key| < TWO_64 && WellFormed(e.value)
      modifies this`offset, buffer
      ensures Writes(EncText(e.key) + Enc(e.value), r)
      decreases e, 0
    {
      ghost var b0, from := buffer[..], offset;
      r := WriteText(e.key);
      if r.Thrown? {
        WroteLess(b0, from, buffer[..], offset, EncText(e.key), Enc(e.value));
        return;
      }
      ghost var b1, mid := buffer[..], offset;
      r := Serialize(e.value);
      WroteThen(b0, from, b1, mid, EncText(e.key), buffer[..], offset, Enc(e.value), r.Ok?);
    }

    method WriteMap(es: seq<Entry>) returns (r: Status)
      requires Valid() && WellFormed(Map(es))
      modifies this`offset, buffer
      ensures Writes(Enc(Map(es)), r)
      decreases es, 0
    {
      hide EncText, EncNumber;
      ghost var b0, from := buffer[..], offset;
      ghost var whole, done := Enc(Map(es)), [MAP_TAG] + EncNumber(|es|);
      r := WriteContainerHead(MAP_TAG, |es|);
      if r.Thrown? {
        WroteLess(b0, from, buffer[..], offset, done, EncEntries(es));
        return;
      }
      assert es[0..] == es;
      for i := 0 to |es|
        invariant Valid() && r.Ok?
        invariant Wrote(b0, from, buffer[..], offset, done, true)
        invariant done + EncEntries(es[i..]) == whole
      {
        WellFormedEntry(es, i);
        EncEntriesAt(es, i);
        ghost var enc := EncText(es[i].key) + Enc(es[i].value);
        ghost var b1, mid := buffer[..], offset;
        r := WriteEntry(es[i]);
        WroteNext(b0, from, b1, mid, done, buffer[..], offset, enc, EncEntries(es[i + 1..]), whole, r.Ok?);
        if r.Thrown? {
          return;
        }
        done := done + enc;
      }
      assert done == whole;
    }

    /** The recursive core of store(). */
    method Serialize(v: Value) returns (r: Status)
      requires Valid() && WellFormed(v)
      modifies this`offset, buffer
      ensures Writes(Enc(v), r)
      decreases v, 1
    {
      match v
      case Text(s) => r := WriteText(s);
      case I64(i) => r := WriteNumber(i);
      case U64(u) => r := WriteNumber(ToInt64(u));
      case Bool(b) => r := WriteBool(b);
      case List(items) => r := WriteList(items);
      case Map(entries) => r := WriteMap(entries);
    }

    /** store(): all or nothing from the caller's point of view, and usable only once. */
    method Store(v: Value) returns (r: Result<(), StreamError>)
      requires Valid() && WellFormed(v)
      modifies this`offset, buffer
      ensures Valid()
      ensures old(offset) != 0 ==> r == Failure(Reused) && buffer[..] == old(buffer[..])
      ensures old(offset) == 0 ==>
                r == if |Frame(v)| <= bufferSize then Success(()) else Failure(Grammatical(BufferOverrun))
      ensures r.Success? ==> offset == |Frame(v)| && buffer[..] == Stored(old(buffer[..]), v)
      ensures SameFrom(old(buffer[..]), buffer[..], bufferSize)
    {
      if offset != 0 {
        return Failure(Reused);
      }
      ghost var b0 := buffer[..];
      var stored := StoreFresh(v);
      if stored.Thrown? {
        return Failure(Grammatical(stored.error));
      }
      StoredInside(b0, v, bufferSize);
      return Success(());
    }

    method StoreFresh(v: Value) returns (r: Status)
      requires Valid() && WellFormed(v) && offset == 0
      modifies this`offset, buffer
      ensures Valid()
      ensures r == if HEADER + |Enc(v)| <= bufferSize then Ok else Thrown(BufferOverrun)
      ensures r.Ok? ==> offset == HEADER + |Enc(v)| && buffer[..] == Stored(old(buffer[..]), v)
      ensures r.Thrown? ==> SameFrom(old(buffer[..]), buffer[..], bufferSize)
    {
      hide Enc, Stored, Backfilled, Frame;
      r := ReserveHeader();
      if r.Thrown? {
        return;
      }
      ghost var b := buffer[..];
      r := Serialize(v);
      if r.Thrown? {
        WroteInside(b, HEADER, buffer[..], offset, Enc(v), false, bufferSize);
        return;
      }
      ghost var written := buffer[..];
      Backfill(1, offset - HEADER);
      FrameAssembled(old(buffer[..]), b, written, v);
    }

    /** The version byte, and room for the length and the checksum. */
    method ReserveHeader() returns (r: Status)
      requires Valid() && offset == 0
      modifies this`offset, buffer
      ensures Valid() && r == if HEADER <= bufferSize then Ok else Thrown(BufferOverrun)
      ensures r.Ok? ==> offset == HEADER && buffer[..] == [WIRE_VERSION] + old(buffer[..])[1..]
      ensures SameFrom(old(buffer[..]), buffer[..], bufferSize)
    {
      r := PutByte(WIRE_VERSION);
      if r.Thrown? {
        return;
      }
      r := CheckCapacity(12);
      if r.Thrown? {
        return;
      }
      offset := offset + 12;
    }

    /** Fills the reserved length and checksum fields in. */
    method Backfill(headerPos: nat, payloadLen: nat)
      requires headerPos + 12 + payloadLen <= buffer.Length
      modifies buffer
      ensures buffer[..] == Backfilled(old(buffer[..]), headerPos, payloadLen)
    {
      hide Crc32.ToField, Crc32.Checksum, ToLittleEndian;
      var crc := Crc32.Compute(buffer, headerPos + 12, payloadLen);
      var field := ToLittleEndian(payloadLen, 8) + Crc32.ToField(crc);
      forall i | 0 <= i < 12 {
        buffer[headerPos + i] := field[i];
      }
    }

    // ----- reading -----

    ghost function Rest(): bytes
      reads this, buffer
      requires Valid()
    {
      buffer[offset..bufferSize]
    }

    /** The outcome of a reader, when `spec` is the parse of the bytes that were in front of it. */
    ghost predicate Reads<T>(spec: Parsed<T>, r: Result<T, WireError>)
      reads this, buffer
    {
      && Valid()
      && match spec
         case Bad(e) => r == Failure(e)
         case Good(v, rest) => r == Success(v) && Rest() == rest
    }

    method ReadByte() returns (r: Result<byte, WireError>)
      requires Valid()
      modifies this`offset
      ensures Reads(ParseByte(old(Rest())), r)
    {
      var ok := CheckCapacity(1);
      if ok.Thrown? {
        return Failure(ok.error);
      }
      r := Success(buffer[offset]);
      offset := offset + 1;
    }

    /** read_integer: its 64 bits as an unsigned number. */
    method ReadInteger(n: nat) returns (r: Result<nat, WireError>)
      requires Valid() && n <= 8
      modifies this`offset
      ensures Reads(ParseUnsigned(old(Rest()), n), r)
    {
      ghost var start := Rest();
      var ret: nat := 0;
      for i := 0 to n
        invariant Valid() && i <= |start|
        invariant Rest() == start[i..]
        invariant ret == FromLittleEndian(start[..i])
      {
        var b := ReadByte();
        if b.Failure? {
          return Failure(b.error);
        }
        FromLittleEndianSnoc(start[..i], b.value);
        assert start[..i + 1] == start[..i] + [b.value];
        ret := ret + b.value * Pow256(i);
      }
      return Success(ret);
    }

    method ReadText(n: nat) returns (r: Result<bytes, WireError>)
      requires Valid() && n <= 8
      modifies this`offset
      ensures Reads(ParseText(old(Rest()), n), r)
    {
      hide ParseUnsigned;
      var len := ReadInteger(n);
      if len.Failure? {
        return Failure(len.error);
      }
      var ok := CheckCapacity(len.value);
      if ok.Thrown? {
        return Failure(ok.error);
      }
      ghost var rest := Rest();
      r := Success(buffer[offset..offset + len.value]);
      offset := offset + len.value;
      assert rest[..len.value] == r.value && rest[len.value..] == Rest();
    }

    method ReadLength() returns (r: Result<nat, WireError>)
      requires Valid()
      modifies this`offset
      ensures Reads(ParseLength(old(Rest())), r)
    {
      hide ParseUnsigned;
      var tag := ReadByte();
      if tag.Failure? {
        return Failure(tag.error);
      }
      if NUMBER_TAG < tag.value <= NUMBER_TAG + 8 {
        r := ReadInteger(tag.value - NUMBER_TAG);
      } else {
        r := Failure(InvalidLengthTag(tag.value));
      }
    }

    method ReadKey() returns (r: Result<bytes, WireError>)
      requires Valid()
      modifies this`offset
      ensures Reads(ParseKey(old(Rest())), r)
    {
      hide ParseText;
      var tag := ReadByte();
      if tag.Failure? {
        return Failure(tag.error);
      }
      if TEXT_TAG < tag.value <= TEXT_TAG + 8 {
        r := ReadText(tag.value - TEXT_TAG);
      } else {
        r := Failure(InvalidKeyTag(tag.value));
      }
    }

    method ReadVector() returns (r: Result<seq<Value>, WireError>)
      requires Valid()
      modifies this`offset
      ensures Reads(ParseVectorBody(old(Rest())), r)
      decreases bufferSize - offset, 2
    {
      var n := ReadLength();
      if n.Failure? {
        return Failure(n.error);
      }
      r := ReadItems(n.value);
    }

    method ReadItems(n: nat) returns (r: Result<seq<Value>, WireError>)
      requires Valid()
      modifies this`offset
      ensures Reads(ParseItems(old(Rest()), n), r)
      decreases bufferSize - offset, 1
    {
      ghost var spec, left := ParseItems(Rest(), n), n;
      var vec: seq<Value> := [];
      PrependNothing(spec);
      for i := 0 to n
        invariant Valid() && offset >= old(offset) && left == n - i
        invariant spec == Prepend(vec, ParseItems(Rest(), left))
      {
        ghost var before := Rest();
        var item := Deserialize();
        if item.Failure? {
          return Failure(item.error);
        }
        ghost var here := Rest();
        ItemsStep(vec, before, left, item.value, here);
        left, vec := left - 1, vec + [item.value];
        assert spec == Prepend(vec, ParseItems(here, left));
      }
      assert vec + [] == vec;
      return Success(vec);
    }

    method ReadMap() returns (r: Result<seq<Entry>, WireError>)
      requires Valid()
      modifies this`offset
      ensures Reads(ParseMapBody(old(Rest())), r)
      decreases bufferSize - offset, 2
    {
      var n := ReadLength();
      if n.Failure? {
        return Failure(n.error);
      }
      r := ReadEntries(n.value);
    }

    /** The loop of read_map. */
    method ReadEntries(n: nat) returns (r: Result<seq<Entry>, WireError>)
      requires Valid()
      modifies this`offset
      ensures Reads(ParseCollected(old(Rest()), n), r)
      decreases bufferSize - offset, 1
    {
      hide ParseEntry;
      ghost var spec, left := ParseEntries(Rest(), n), n;
      ghost var seen: seq<Entry> := [];
      var m: seq<Entry> := [];
      PrependNothing(spec);
      for i := 0 to n
        invariant Valid() && offset >= old(offset)
        invariant left == n - i && m == Collect(seen)
        invariant spec == Prepend(seen, ParseEntries(Rest(), left))
      {
        ghost var before := Rest();
        var e := ReadEntry();
        if e.Failure? {
          return Failure(e.error);
        }
        CollectSnoc(seen, e.value);
        m := Emplace(m, e.value);
        ghost var here := Rest();
        EntriesStep(seen, before, left, e.value, here);
        left, seen := left - 1, seen + [e.value];
        assert spec == Prepend(seen, ParseEntries(here, left));
      }
      assert seen + [] == seen;
      return Success(m);
    }

    method ReadEntry() returns (r: Result<Entry, WireError>)
      requires Valid()
      modifies this`offset
      ensures Reads(ParseEntry(old(Rest())), r)
      decreases bufferSize - offset, 0
    {
      var key := ReadKey();
      if key.Failure? {
        return Failure(key.error);
      }
      var item := Deserialize();
      return if item.Failure? then Failure(item.error) else Success(Entry(key.value, item.value));
    }

    /** The recursive core of load(); the bytes left inside the bound are its measure. */
    method Deserialize() returns (r: Result<Value, WireError>)
      requires Valid()
      modifies this`offset
      ensures Reads(Parse(old(Rest())), r)
      decreases bufferSize - offset, 0
    {
      var tag := ReadByte();
      if tag.Failure? {
        return Failure(tag.error);
      }
      if tag.value == VECTOR_TAG {
        var vec := ReadVector();
        return if vec.Failure? then Failure(vec.error) else Success(List(vec.value));
      } else if tag.value == MAP_TAG {
        var m := ReadMap();
        return if m.Failure? then Failure(m.error) else Success(Map(m.value));
      }
      r := ReadScalar(tag.value);
    }

    /** The remaining cases of the switch on the tag. */
    method ReadScalar(t: byte) returns (r: Result<Value, WireError>)
      requires Valid()
      modifies this`offset
      ensures Reads(ParseScalar(t, old(Rest())), r)
    {
      hide ParseText, ParseUnsigned, ParseByte, ToInt64;
      if t == NULL_TAG {
        return Success(Text([]));
      } else if t <= TEXT_TAG + 8 {
        var text := ReadText(t - TEXT_TAG);
        return if text.Failure? then Failure(text.error) else Success(Text(text.value));
      } else if t <= NUMBER_TAG + 8 {
        var u := ReadInteger(t - NUMBER_TAG);
        return if u.Failure? then Failure(u.error) else Success(I64(ToInt64(u.value)));
      } else if t <= NEGATIVE_TAG + 8 {
        var u := ReadInteger(t - NEGATIVE_TAG);
        return if u.Failure? then Failure(u.error) else Success(I64(ToInt64(-(u.value as int))));
      } else if t == BOOLEAN_TAG {
        var b := ReadByte();
        return if b.Failure? then Failure(b.error) else Success(Bool(b.value != 0));
      } else {
        return Failure(InvalidTag(t));
      }
    }

    /** load(): the meaning of the bytes inside the bound; the buffer itself is left alone, and
        success has consumed exactly the declared payload. */
    method Load() returns (r: Result<Value, StreamError>)
      requires Valid()
      modifies this`offset, this`bufferSize
      ensures old(offset) != 0 ==> r == Failure(Reused)
      ensures old(offset) == 0 ==> r == Unframe(buffer[..old(bufferSize)])
      ensures r.Success? ==> old(bufferSize) >= HEADER
      ensures r.Success? ==> offset == bufferSize == HEADER + FromLittleEndian(buffer[1..9])
    {
      if offset != 0 {
        return Failure(Reused);
      }
      r := LoadFresh();
    }

    method LoadFresh() returns (r: Result<Value, StreamError>)
      requires Valid() && offset == 0
      modifies this`offset, this`bufferSize
      ensures r == Unframe(buffer[..old(bufferSize)])
      ensures r.Success? ==> old(bufferSize) >= HEADER
      ensures r.Success? ==> offset == bufferSize == HEADER + FromLittleEndian(buffer[1..9])
    {
      hide UnframePayload;
      ghost var all := buffer[..bufferSize];
      assert Rest() == all;
      var version := ReadByte();
      if version.Failure? {
        return Failure(Grammatical(version.error));
      }
      if version.value != WIRE_VERSION {
        return Failure(VersionMismatch(version.value));
      }
      var ok := CheckCapacity(12);
      if ok.Thrown? {
        return Failure(Grammatical(ok.error));
      }
      var payloadLen := FromLittleEndian(buffer[offset..offset + 8]);
      var expected := buffer[offset + 8..offset + 12];
      offset := offset + 12;
      assert all[1..9] == buffer[1..9] && all[9..13] == expected;
      ok := CheckCapacity(payloadLen);
      if ok.Thrown? {
        return Failure(Grammatical(ok.error));
      }
      assert all[HEADER..HEADER + payloadLen] == buffer[offset..offset + payloadLen];
      r := LoadPayload(payloadLen, expected);
    }

    /** From the narrowed bound on. */
    method LoadPayload(payloadLen: nat, expected: bytes) returns (r: Result<Value, StreamError>)
      requires Valid() && offset + payloadLen <= bufferSize
      modifies this`offset, this`bufferSize
      ensures r == UnframePayload(expected, buffer[old(offset)..old(offset) + payloadLen])
      ensures r.Success? ==> offset == bufferSize == old(offset) + payloadLen
    {
      hide Parse, Crc32.ToField, Crc32.Checksum;
      bufferSize := offset + payloadLen;
      var crc := Crc32.Compute(buffer, offset, payloadLen);
      if Crc32.ToField(crc) != expected {
        return Failure(ChecksumMismatch);
      }
      ghost var spec := Parse(Rest());
      var payloadPos := offset;
      var result := Deserialize();
      if result.Failure? {
        return Failure(Grammatical(result.error));
      }
      assert spec.Good? && |spec.rest| == bufferSize - offset;
      if offset != payloadPos + payloadLen {
        return Failure(TrailingBytes(payloadPos + payloadLen - offset));
      }
      return Success(result.value);
    }
  }

  function Prepend<T>(done: seq<T>, p: Parsed<seq<T>>): Parsed<seq<T>>
  {
    match p
    case Bad(e) => Bad(e)
    case Good(items, rest) => Good(done + items, rest)
  }

  lemma PrependNothing<T>(p: Parsed<seq<T>>)
    ensures Prepend([], p) == p
  {
    if p.Good? {
      assert [] + p.value == p.value;
    }
  }

  lemma ItemsStep(done: seq<Value>, s: bytes, n: nat, v: Value, rest: bytes)
    requires n > 0 && Parse(s) == Good(v, rest)
    ensures Prepend(done, ParseItems(s, n)) == Prepend(done + [v], ParseItems(rest, n - 1))
  {
    var p := ParseItems(rest, n - 1);
    if p.Good? {
      assert done + [v] + p.value == done + ([v] + p.value);
    }
  }

  lemma EntriesStep(done: seq<Entry>, s: bytes, n: nat, e: Entry, rest: bytes)
    requires n > 0 && ParseEntry(s) == Good(e, rest)
    ensures Prepend(done, ParseEntries(s, n)) == Prepend(done + [e], ParseEntries(rest, n - 1))
  {
    var p := ParseEntries(rest, n - 1);
    if p.Good? {
      assert done + [e] + p.value == done + ([e] + p.value);
    }
  }

  /** bytes_needed. */
  method BytesNeeded(v: nat) returns (n: nat)
    ensures n == Width(v)
  {
    n := 1;
    while n < 8 && v >= Pow256(n)
      invariant 1 <= n <= 8
      invariant WidthFrom(v, n) == Width(v)
      decreases 8 - n
    {
      n := n + 1;
    }
  }

  /** The thresholds of the writing branches. */
  function WidthBranch(v: nat): nat
  {
    if v < 0x100 then 1
    else if v < 0x1_0000 then 2
    else if v < 0x100_0000 then 3
    else if v < 0x1_0000_0000 then 4
    else if v < 0x100_0000_0000 then 5
    else if v < 0x1_0000_0000_0000 then 6
    else if v < 0x100_0000_0000_0000 then 7
    else 8
  }

  /** The capacity reserved up front is the width the branch then writes. */
  lemma WidthByThreshold(v: nat)
    requires v < TWO_64
    ensures WidthBranch(v) == Width(v)
  {
    Pow256Values();
    WidthFromIsLeast(v, 1);
    var w := Width(v);
    assert w > 1 ==> v >= Pow256(w - 1);
  }

  /** `val >= 0 ? val : -static_cast<uint64_t>(val)`. */
  function Magnitude(val: int): nat
  {
    if val >= 0 then val else -(val % TWO_64) % TWO_64
  }

  lemma MagnitudeIsAbsolute(val: int)
    requires -TWO_63 <= val < TWO_64
    ensures Magnitude(val) == if val >= 0 then val else -val
  {
    if val < 0 {
      assert val % TWO_64 == val + TWO_64;
      assert -(val + TWO_64) % TWO_64 == -val;
    }
  }

  lemma EncItemsAt(items: seq<Value>, i: nat)
    requires i < |items|
    ensures EncItems(items[i..]) == Enc(items[i]) + EncItems(items[i + 1..])
  {
    assert items[i..][1..] == items[i + 1..];
  }

  lemma EncEntriesAt(es: seq<Entry>, i: nat)
    requires i < |es|
    ensures EncEntries(es[i..]) == EncText(es[i].key) + Enc(es[i].value) + EncEntries(es[i + 1..])
  {
    assert es[i..][1..] == es[i + 1..];
  }

  lemma {:induction false} WellFormedItem(items: seq<Value>, i: nat)
    requires WellFormedItems(items) && i < |items|
    ensures WellFormed(items[i])
  {
    if i > 0 {
      WellFormedItem(items[1..], i - 1);
    }
  }

  lemma {:induction false} WellFormedEntry(es: seq<Entry>, i: nat)
    requires WellFormedEntries(es) && i < |es|
    ensures |es[i].key| < TWO_64 && WellFormed(es[i].value)
  {
    if i > 0 {
      WellFormedEntry(es[1..], i - 1);
    }
  }
}
