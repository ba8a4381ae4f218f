// zlib_compress and zlib_decompress: the size prefix and its cap around zlib itself, which stays
// abstract.
module Compression {
  import opened Wrappers
  import opened ByteOrder

  const SIZE_PREFIX: nat := 8
  const MAX_UNCOMPRESSED: nat := 256 * 1024 * 1024

  /** compress2 and uncompress: the second is told how much room the output has. */
  datatype Zlib = Zlib(deflate: bytes -> bytes, inflate: (bytes, nat) -> Option<bytes>)

  /** Given exactly the original size, uncompress undoes compress2. */
  ghost predicate Inverse(z: Zlib)
  {
    forall d: bytes :: z.inflate(z.deflate(d), |d|) == Some(d)
  }

  datatype Inflated = Payload(data: bytes) | TooShortForPrefix | ImplausiblyLarge | Corrupt

  /** append_u64_le. */
  method AppendU64LE(out: bytes, v: uint64) returns (r: bytes)
    ensures r == out + ToLittleEndian(v, 8)
  {
    r := out;
    for i := 0 to 8
      invariant r == out + ToLittleEndian(v, 8)[..i]
    {
      LittleEndianByte(v, 8, i);
      r := r + [ByteAt(v, i)];
    }
  }

  /** read_u64_le. */
  method ReadU64LE(b: bytes) returns (v: uint64)
    requires |b| >= 8
    ensures v == FromLittleEndian(b[..8])
  {
    hide FromLittleEndian, Pow256;
    var sum: nat := 0;
    assert FromLittleEndian(b[..0]) == 0 by { NoBytes(b[..0]); }
    for i := 0 to 8
      invariant sum == FromLittleEndian(b[..i])
    {
      FromLittleEndianSnoc(b[..i], b[i]);
      assert b[..i] + [b[i]] == b[..i + 1];
      sum := sum + b[i] * Pow256(i);
    }
    FromLittleEndianBound(b[..8]);
    Pow256Values();
    v := sum;
  }

  lemma NoBytes(b: bytes)
    requires b == []
    ensures FromLittleEndian(b) == 0
  {
  }

  function Compressed(z: Zlib, d: bytes): bytes
    requires |d| < TWO_64
  {
    ToLittleEndian(|d|, 8) + z.deflate(d)
  }

  method ZlibCompress(z: Zlib, data: bytes) returns (framed: bytes)
    requires |data| < TWO_64
    ensures framed == Compressed(z, data)
  {
    var compressed := z.deflate(data);
    framed := AppendU64LE([], |data|);
    framed := framed + compressed;
  }

  function Decompressed(z: Zlib, s: bytes): Inflated
  {
    if |s| < SIZE_PREFIX then TooShortForPrefix
    else
      var size := FromLittleEndian(s[..SIZE_PREFIX]);
      if size > MAX_UNCOMPRESSED then ImplausiblyLarge
      else match z.inflate(s[SIZE_PREFIX..], size)
        case Some(d) => Payload(d)
        case None => Corrupt
  }

  method ZlibDecompress(z: Zlib, data: bytes) returns (r: Inflated)
    ensures r == Decompressed(z, data)
  {
    if |data| < SIZE_PREFIX {
      return TooShortForPrefix;
    }
    var originalSize := ReadU64LE(data);
    if originalSize > MAX_UNCOMPRESSED {
      return ImplausiblyLarge;
    }
    var out := z.inflate(data[SIZE_PREFIX..], originalSize);
    r := match out
      case Some(d) => Payload(d)
      case None => Corrupt;
  }

  /** Decompression undoes compression up to the cap; past it the library's own output is refused. */
  lemma DecompressCompress(z: Zlib, d: bytes)
    requires Inverse(z) && |d| < TWO_64
    ensures Decompressed(z, Compressed(z, d)) == if |d| <= MAX_UNCOMPRESSED then Payload(d) else ImplausiblyLarge
  {
    hide ToLittleEndian, FromLittleEndian;
    Pow256Values();
    LittleEndianRoundTrip(|d|, 8);
    var s := Compressed(z, d);
    assert s[..8] == ToLittleEndian(|d|, 8) && s[8..] == z.deflate(d);
  }
}
