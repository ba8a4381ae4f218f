// Bytes, 64-bit machine integers and the little-endian layout used by every
// fixed- or variable-width field of the wire format.
module ByteOrder {
  type byte = x: int | 0 <= x < 256
  type bytes = seq<byte>

  const TWO_63: int := 0x8000_0000_0000_0000
  const TWO_64: int := 0x1_0000_0000_0000_0000

  type int64 = x: int | -TWO_63 <= x < TWO_63
  type uint64 = x: int | 0 <= x < TWO_64
  type int32 = x: int | -0x8000_0000 <= x < 0x8000_0000

  /** The characters of a literal as bytes. */
  function Ascii(s: string): (t: bytes)
    ensures |t| == |s| && forall i :: 0 <= i < |s| ==> t[i] == s[i] as int % 256
  {
    seq(|s|, i requires 0 <= i < |s| => s[i] as int % 256)
  }

  /** `static_cast<int64_t>` of any integer: the two's-complement reading of its low 64 bits. */
  function ToInt64(u: int): (i: int64)
    ensures i % TWO_64 == u % TWO_64
  {
    var low := u % TWO_64;
    if low < TWO_63 then low else low - TWO_64
  }

  lemma ToInt64Same(i: int64)
    ensures ToInt64(i) == i
  {
  }

  /** `static_cast<int>` of a 64-bit value. */
  function ToInt32(v: int): (i: int32)
    ensures i % 0x1_0000_0000 == v % 0x1_0000_0000
  {
    var low := v % 0x1_0000_0000;
    if low < 0x8000_0000 then low else low - 0x1_0000_0000
  }

  function Pow256(n: nat): (p: nat)
    ensures p > 0
  {
    if n == 0 then 1 else 256 * Pow256(n - 1)
  }

  /** The powers the format uses, spelled out. */
  lemma Pow256Values()
    ensures Pow256(1) == 0x100 && Pow256(2) == 0x1_0000 && Pow256(3) == 0x100_0000
    ensures Pow256(4) == 0x1_0000_0000 && Pow256(5) == 0x100_0000_0000
    ensures Pow256(6) == 0x1_0000_0000_0000 && Pow256(7) == 0x100_0000_0000_0000
    ensures Pow256(8) == TWO_64
  {
    assert Pow256(1) == 256 && Pow256(2) == 256 * Pow256(1) && Pow256(3) == 256 * Pow256(2);
    assert Pow256(4) == 256 * Pow256(3) && Pow256(5) == 256 * Pow256(4);
    assert Pow256(6) == 256 * Pow256(5) && Pow256(7) == 256 * Pow256(6) && Pow256(8) == 256 * Pow256(7);
  }

  /** The `n` low bytes of `v`, least significant first. */
  function ToLittleEndian(v: nat, n: nat): (s: bytes)
    ensures |s| == n
  {
    if n == 0 then [] else [v % 256] + ToLittleEndian(v / 256, n - 1)
  }

  function FromLittleEndian(s: bytes): nat
  {
    if s == [] then 0 else s[0] + 256 * FromLittleEndian(s[1..])
  }

  lemma {:induction false} LittleEndianRoundTrip(v: nat, n: nat)
    requires v < Pow256(n)
    ensures FromLittleEndian(ToLittleEndian(v, n)) == v
  {
    if n > 0 {
      assert v / 256 < Pow256(n - 1);
      LittleEndianRoundTrip(v / 256, n - 1);
      assert ToLittleEndian(v, n)[1..] == ToLittleEndian(v / 256, n - 1);
    }
  }

  lemma {:induction false} FromLittleEndianBound(s: bytes)
    ensures FromLittleEndian(s) < Pow256(|s|)
  {
    if s != [] {
      FromLittleEndianBound(s[1..]);
    }
  }

  /** Appending the next more significant byte, as the reading loop does. */
  lemma {:induction false} FromLittleEndianSnoc(s: bytes, b: byte)
    ensures FromLittleEndian(s + [b]) == FromLittleEndian(s) + b * Pow256(|s|)
  {
    if s == [] {
      assert s + [b] == [b];
    } else {
      assert (s + [b])[1..] == s[1..] + [b];
      FromLittleEndianSnoc(s[1..], b);
      assert b * Pow256(|s|) == 256 * (b * Pow256(|s| - 1));
    }
  }

  /** `(v >> (8 * i)) & 0xFF`. */
  function ByteAt(v: nat, i: nat): byte
  {
    v / Pow256(i) % 256
  }

  lemma {:induction false} DivPow256(v: nat, i: nat)
    ensures v / 256 / Pow256(i) == v / Pow256(i + 1)
  {
    var p := Pow256(i);
    var q := v / 256 / p;
    var r := v / 256 % p;
    assert v / 256 == q * p + r;
    assert v == (q * p + r) * 256 + v % 256;
    var low := r * 256 + v % 256;
    assert 0 <= low < 256 * p;
    assert v == q * (256 * p) + low;
    assert v / (256 * p) == q by { QuotientUnique(v, 256 * p, q, low); }
  }

  lemma QuotientUnique(v: int, d: int, q: int, r: int)
    requires d > 0 && 0 <= r < d && v == q * d + r
    ensures v / d == q && v % d == r
  {
    var q', r' := v / d, v % d;
    MultipleTooBig(q - q', d, r' - r);
  }

  lemma MultipleTooBig(k: int, d: int, r: int)
    requires k * d == r && -d < r < d
    ensures k == 0
  {
    if k > 0 {
      ProductAtLeast(k, d);
    } else if k < 0 {
      ProductAtLeast(-k, d);
    }
  }

  lemma ProductAtLeast(k: int, d: int)
    requires k >= 1 && d >= 0
    ensures k * d >= d
  {
  }

  /** The i-th byte of the layout is the i-th shifted-and-masked byte of the value. */
  lemma {:induction false} LittleEndianByte(v: nat, n: nat, i: nat)
    requires i < n
    ensures ToLittleEndian(v, n)[i] == ByteAt(v, i)
  {
    if i > 0 {
      LittleEndianByte(v / 256, n - 1, i - 1);
      DivPow256(v, i - 1);
    }
  }
}
