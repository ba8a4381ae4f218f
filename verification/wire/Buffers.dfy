// Whole stored buffers: what store() followed by load() means, what load() rejects, and the
// buffer that grows until a value fits.
module Buffers {
  import opened Wrappers
  import opened ByteOrder
  import opened Parameters
  import opened Grammar
  import opened ByteStream
  import Crc32
  import opened CrcBurst

  /** load() after store(), whatever bytes follow the payload in the buffer. */
  lemma StoreLoad(v: Value, junk: bytes)
    requires WellFormed(v) && |Enc(v)| < TWO_64
    ensures Unframe(Frame(v) + junk) == Success(Norm(v))
  {
    hide Enc, Norm, Parse, Crc32.ToField, Crc32.Checksum, ToLittleEndian, FromLittleEndian;
    FrameFields(v, junk);
    PayloadLoads(v);
  }

  lemma FrameFields(v: Value, junk: bytes)
    requires |Enc(v)| < TWO_64
    ensures var s := Frame(v) + junk;
            && |s| >= HEADER + |Enc(v)| && s[0] == WIRE_VERSION
            && FromLittleEndian(s[1..9]) == |Enc(v)|
            && s[9..13] == Crc32.ToField(Crc32.Checksum(Enc(v)))
            && s[HEADER..HEADER + |Enc(v)|] == Enc(v)
  {
    hide Enc, Crc32.ToField, Crc32.Checksum, ToLittleEndian, FromLittleEndian;
    var s := Frame(v) + junk;
    assert s[1..9] == ToLittleEndian(|Enc(v)|, 8);
    Pow256Values();
    LittleEndianRoundTrip(|Enc(v)|, 8);
  }

  lemma PayloadLoads(v: Value)
    requires WellFormed(v)
    ensures UnframePayload(Crc32.ToField(Crc32.Checksum(Enc(v))), Enc(v)) == Success(Norm(v))
  {
    hide Enc, Norm, Parse, Crc32.ToField, Crc32.Checksum;
    ParseEnc(v, []);
    assert Enc(v) + [] == Enc(v);
  }

  /** The round trip of a parameter with its maps' order forgotten: whichever iteration order the
      writer met, the reader gets the same maps. */
  lemma StoreLoadAnyOrder(p: Param, v: Value, junk: bytes)
    requires IterationOf(v, p) && |Enc(v)| < TWO_64
    ensures Unframe(Frame(v) + junk).Success?
    ensures IterationOf(Unframe(Frame(v) + junk).value, NormParam(p))
  {
    StoreLoad(v, junk);
    NormWellFormed(v);
    ForgetNorm(v);
  }

  /** Burst detection at the level of buffers: change the payload of a stored buffer in any way
      inside 32 consecutive bits, and load() reports a checksum mismatch. */
  lemma BurstRejected(v: Value, bad: bytes, k: nat, junk: bytes)
    requires |Enc(v)| < TWO_64 && SameOutside(Enc(v), bad, k) && bad != Enc(v)
    ensures Unframe(Frame(v)[..HEADER] + bad + junk) == Failure(ChecksumMismatch)
  {
    hide Enc, Parse, Crc32.ToField, Crc32.Checksum, ToLittleEndian, FromLittleEndian;
    SameOutsideSize(Enc(v), bad, k);
    hide SameOutside;
    FrameFields(v, junk);
    SameHeader(Frame(v), bad, junk);
    Crc32.BurstDetected(Enc(v), bad, k);
    if Crc32.ToField(Crc32.Checksum(bad)) == Crc32.ToField(Crc32.Checksum(Enc(v))) {
      Crc32.ToFieldInjective(Crc32.Checksum(bad), Crc32.Checksum(Enc(v)));
    }
  }

  lemma SameOutsideSize(s: bytes, t: bytes, k: nat)
    requires SameOutside(s, t, k)
    ensures |s| == |t|
  {
  }

  /** In particular, any change of up to four consecutive bytes. */
  lemma ByteBurstRejected(v: Value, front: bytes, was: bytes, now: bytes, back: bytes, junk: bytes)
    requires |Enc(v)| < TWO_64 && Enc(v) == front + was + back
    requires |was| == |now| <= 4 && was != now
    ensures Unframe(Frame(v)[..HEADER] + (front + now + back) + junk) == Failure(ChecksumMismatch)
  {
    hide Enc, Frame, Unframe, SameOutside;
    ByteWindow(front, was, now, back);
    assert was == (front + was + back)[|front|..|front + was|];
    assert now == (front + now + back)[|front|..|front + now|];
    BurstRejected(v, front + now + back, 8 * |front|, junk);
  }

  lemma SameHeader(frame: bytes, bad: bytes, junk: bytes)
    requires |frame| == HEADER + |bad|
    ensures var s, t := frame + junk, frame[..HEADER] + bad + junk;
            && |t| == |s| && t[0] == s[0] && t[1..9] == s[1..9] && t[9..13] == s[9..13]
            && t[HEADER..HEADER + |bad|] == bad
  {
  }

  /** load() looks at nothing outside the declared payload. */
  lemma LoadIgnoresTail(s: bytes, t: bytes)
    requires |s| >= HEADER && |t| >= HEADER && s[..HEADER] == t[..HEADER]
    requires var end := HEADER + FromLittleEndian(s[1..9]); end <= |s| && end <= |t| && s[..end] == t[..end]
    ensures Unframe(s) == Unframe(t)
  {
    hide FromLittleEndian, UnframePayload;
    assert s[1..9] == s[..HEADER][1..9] == t[1..9];
    assert s[9..13] == s[..HEADER][9..13] == t[9..13];
    var end := HEADER + FromLittleEndian(s[1..9]);
    assert s[HEADER..end] == s[..end][HEADER..] == t[HEADER..end];
  }

  /** Whatever bytes load() accepts, it hands out a value that is well formed, carries no unsigned
      alternative, and comes back unchanged if it is stored again. */
  lemma AcceptedIsStable(s: bytes, junk: bytes)
    requires Unframe(s).Success?
    ensures var v := Unframe(s).value;
            && WellFormed(v) && Norm(v) == v
            && (|Enc(v)| < TWO_64 ==> Unframe(Frame(v) + junk) == Success(v))
  {
    hide Enc, Norm, Parse, WellFormed, Crc32.ToField, Crc32.Checksum, Frame, FromLittleEndian;
    var payload := s[HEADER..HEADER + FromLittleEndian(s[1..9])];
    ParseWellFormed(payload);
    if |Enc(Unframe(s).value)| < TWO_64 {
      StoreLoad(Unframe(s).value, junk);
    }
  }

  /** The comparison check_capacity makes: the sum is taken in size_t. */
  predicate OverrunInSizeT(offset: uint64, needed: uint64, bufferSize: uint64)
  {
    (offset + needed) % TWO_64 > bufferSize
  }

  /** It refuses exactly the overruns, except when a claimed length makes the sum wrap to a
      value inside the buffer: that is the whole set of inputs the unbounded sum of this model
      leaves out. */
  lemma CapacityCheckExact(offset: uint64, needed: uint64, bufferSize: uint64)
    requires offset <= bufferSize
    ensures (OverrunInSizeT(offset, needed, bufferSize) <==> offset + needed > bufferSize)
       <==> !(offset + needed >= TWO_64 && offset + needed - TWO_64 <= bufferSize)
  {
    if offset + needed >= TWO_64 {
      assert (offset + needed) % TWO_64 == offset + needed - TWO_64;
    }
  }

  /** For load(), after the version byte: the check of the claimed payload length refuses exactly
      the overruns if and only if the claim is below 2^64 - 13. */
  lemma LoadCheckExact(s: bytes)
    requires HEADER <= |s| < TWO_64
    ensures var claimed := FromLittleEndian(s[1..9]);
            && claimed < TWO_64
            && ((OverrunInSizeT(HEADER, claimed, |s|) <==> HEADER + claimed > |s|) <==> claimed < TWO_64 - HEADER)
  {
    hide FromLittleEndian;
    Pow256Values();
    FromLittleEndianBound(s[1..9]);
    CapacityCheckExact(HEADER, FromLittleEndian(s[1..9]), |s|);
  }

  /** The version byte, a claim of 2^64 - 13 payload bytes, and any checksum. */
  const WRAPPING_HEADER: bytes := [WIRE_VERSION, 0xF3, 0xFF, 0xFF, 0xFF, 0xFF, 0xFF, 0xFF, 0xFF, 0, 0, 0, 0]

  /** A whole buffer on which the two differ: load() as modelled reports the overrun, and the check
      made in size_t lets the claim pass. */
  lemma LoadCheckFails()
    ensures var s := WRAPPING_HEADER;
            && |s| == HEADER && FromLittleEndian(s[1..9]) == TWO_64 - HEADER
            && Unframe(s) == Failure(Grammatical(BufferOverrun))
            && !OverrunInSizeT(HEADER, FromLittleEndian(s[1..9]), |s|)
  {
    var s := WRAPPING_HEADER;
    Pow256Values();
    LittleEndianRoundTrip(TWO_64 - HEADER, 8);
    WrappingClaim();
    assert s[1..9] == ToLittleEndian(TWO_64 - HEADER, 8);
  }

  lemma WrappingClaim()
    ensures ToLittleEndian(TWO_64 - HEADER, 8) == WRAPPING_HEADER[1..9]
  {
    var t := ToLittleEndian(TWO_64 - HEADER, 8);
    forall i | 0 <= i < 8
      ensures t[i] == if i == 0 then 0xF3 else 0xFF
    {
      LittleEndianByte(TWO_64 - HEADER, 8, i);
      ClaimByte(i);
    }
  }

  lemma ClaimByte(i: nat)
    requires i < 8
    ensures ByteAt(TWO_64 - HEADER, i) == if i == 0 then 0xF3 else 0xFF
  {
    Pow256Values();
  }

  // ----- store_growing -----

  const INITIAL_CAPACITY: nat := 4096
  const MAX_CAPACITY: nat := 16 * 1024 * 1024

  /** One attempt: a zeroed buffer of the given capacity, cut to what was written. */
  method StoreInto(v: Value, capacity: nat) returns (r: Result<bytes, ()>)
    requires WellFormed(v) && capacity < TWO_64
    ensures r == if |Frame(v)| <= capacity then Success(Frame(v)) else Failure(())
  {
    hide Frame;
    var buffer := new byte[capacity](_ => 0);
    var stream := new ParameterByteStream(buffer, capacity);
    var stored := stream.Store(v);
    if stored.Failure? {
      return Failure(());
    }
    assert buffer[..stream.offset] == buffer[..][..|Frame(v)|] == Frame(v);
    return Success(buffer[..stream.offset]);
  }

  /** Doubling buffers until the value fits: the result is the frame itself, independent of the
      capacity that happened to be large enough, and fails exactly above the maximum. */
  method StoreGrowing(v: Value) returns (r: Result<bytes, ()>)
    requires WellFormed(v)
    ensures r == if |Frame(v)| <= MAX_CAPACITY then Success(Frame(v)) else Failure(())
  {
    hide Frame;
    var capacity := INITIAL_CAPACITY;
    while capacity <= MAX_CAPACITY
      invariant Doubled(capacity)
      invariant capacity > INITIAL_CAPACITY ==> |Frame(v)| > capacity / 2
      decreases MAX_CAPACITY - capacity
    {
      r := StoreInto(v, capacity);
      if r.Success? {
        return;
      }
      capacity := capacity * 2;
    }
    return Failure(());
  }

  predicate Doubled(c: nat)
  {
    c in [4096, 8192, 16384, 32768, 65536, 131072, 262144, 524288, 1048576, 2097152, 4194304, 8388608, 16777216, 33554432]
  }

  /** Storing and loading through one buffer with a fresh instance each, as the two sides of the
      boundary do. */
  method StoreThenLoad(v: Value, buffer: array<byte>) returns (r: Result<Value, StreamError>)
    requires WellFormed(v) && buffer.Length < TWO_64
    modifies buffer
    ensures r == if |Frame(v)| <= buffer.Length then Success(Norm(v)) else Failure(Grammatical(BufferOverrun))
  {
    hide Frame, Enc, Norm, Unframe;
    var writer := new ParameterByteStream(buffer, buffer.Length);
    var stored := writer.Store(v);
    if stored.Failure? {
      return Failure(stored.error);
    }
    ghost var before := old(buffer[..]);
    StoreLoad(v, before[|Frame(v)|..]);
    var reader := new ParameterByteStream(buffer, buffer.Length);
    assert buffer[..buffer.Length] == Stored(before, v);
    r := reader.Load();
  }
}
