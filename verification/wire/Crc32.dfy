// The bitwise CRC-32 of a payload, and the guarantee that it notices every change confined to
// 32 consecutive bits.
module Crc32 {
  import opened ByteOrder
  import opened CrcRegister
  import opened CrcBurst

  /** The checksum of a payload. */
  function Checksum(s: bytes): bv32
  {
    Complement(AbsorbAll(ALL_ONES, s))
  }

  // ----- the loops -----

  method Compute(data: array<byte>, pos: nat, len: nat) returns (crc: bv32)
    requires pos + len <= data.Length
    ensures crc == Checksum(data[pos..pos + len])
  {
    hide AbsorbByte;
    crc := ALL_ONES;
    for i := 0 to len
      invariant crc == AbsorbAll(ALL_ONES, data[pos..pos + i])
    {
      assert data[pos..pos + i + 1] == data[pos..pos + i] + [data[pos + i]];
      AbsorbAllSnoc(ALL_ONES, data[pos..pos + i], data[pos + i]);
      crc := UpdateByte(crc, data[pos + i]);
    }
    crc := Complement(crc);
  }

  method UpdateByte(c: bv32, b: byte) returns (crc: bv32)
    ensures crc == AbsorbByte(c, b)
  {
    crc := ShiftLoop(Mix(c, Widen(b)));
  }

  // ----- bursts -----

  /** Burst detection: a payload changed only inside 32 consecutive bits, wherever they start,
      has a different checksum. */
  lemma BurstDetected(s: bytes, t: bytes, k: nat)
    requires SameOutside(s, t, k) && s != t
    ensures Checksum(s) != Checksum(t)
  {
    hide Complement, AbsorbAll, SameOutside;
    if Checksum(s) == Checksum(t) {
      ComplementInjective(AbsorbAll(ALL_ONES, s), AbsorbAll(ALL_ONES, t));
      BurstShows(ALL_ONES, s, t, k);
    }
  }

  // ----- the 32-bit header field -----

  /** The checksum as four little-endian bytes. */
  function ToField(c: bv32): (s: bytes)
    ensures |s| == 4
  {
    [((c & 0xFF) as bv8) as int, (((c >> 8) & 0xFF) as bv8) as int,
     (((c >> 16) & 0xFF) as bv8) as int, (((c >> 24) & 0xFF) as bv8) as int]
  }

  /** Two 32-bit words are equal exactly when their four bytes are. */
  lemma ToFieldInjective(c: bv32, d: bv32)
    requires ToField(c) == ToField(d)
    ensures c == d
  {
    var s, t := ToField(c), ToField(d);
    assert s[0] == t[0] && s[1] == t[1] && s[2] == t[2] && s[3] == t[3];
    SameBits((c & 0xFF) as bv8, (d & 0xFF) as bv8);
    SameBits(((c >> 8) & 0xFF) as bv8, ((d >> 8) & 0xFF) as bv8);
    SameBits(((c >> 16) & 0xFF) as bv8, ((d >> 16) & 0xFF) as bv8);
    SameBits(((c >> 24) & 0xFF) as bv8, ((d >> 24) & 0xFF) as bv8);
  }

  lemma SameBits(a: bv8, b: bv8)
    requires a as int == b as int
    ensures a == b
  {
  }
}
