// Regrouping octets into six-bit groups and back: the value level of base64 (RFC 4648, section 4).
module Sextets {
  import opened ByteOrder

  type sextet = x: int | 0 <= x < 64

  /** A 24-bit word and its parts, as the shifts and masks take it apart. */
  function Octets(n: nat): (d: bytes)
    ensures |d| == 3
  {
    [n / 0x10000 % 256, n / 0x100 % 256, n % 256]
  }

  function Groups(n: nat): (s: seq<sextet>)
    ensures |s| == 4
  {
    [n / 0x40000 % 64, n / 0x1000 % 64, n / 64 % 64, n % 64]
  }

  function OctetWord(a: int, b: int, c: int): int
  {
    a * 0x10000 + b * 0x100 + c
  }

  function GroupWord(a: int, b: int, c: int, e: int): int
  {
    a * 0x40000 + b * 0x1000 + c * 64 + e
  }

  /** The six-bit groups of a byte string, the last one filled up with zero bits. */
  function Pack(d: bytes): (s: seq<sextet>)
  {
    if |d| == 0 then []
    else if |d| == 1 then Groups(OctetWord(d[0], 0, 0))[..2]
    else if |d| == 2 then Groups(OctetWord(d[0], d[1], 0))[..3]
    else Groups(OctetWord(d[0], d[1], d[2])) + Pack(d[3..])
  }

  /** The whole octets in a string of six-bit groups; left-over bits are dropped. */
  function Unpack(s: seq<sextet>): (d: bytes)
  {
    if |s| < 2 then []
    else if |s| == 2 then Octets(GroupWord(s[0], s[1], 0, 0))[..1]
    else if |s| == 3 then Octets(GroupWord(s[0], s[1], s[2], 0))[..2]
    else Octets(GroupWord(s[0], s[1], s[2], s[3])) + Unpack(s[4..])
  }

  lemma DivDiv(n: nat, a: nat, b: nat)
    requires a > 0 && b > 0 && a * b > 0
    ensures n / a / b == n / (a * b)
  {
    var q, r := n / a / b, n / a % b;
    assert n == (q * b + r) * a + n % a;
    assert (q * b + r) * a == q * (a * b) + r * a;
    ProductAtLeast(a, b - r);
    assert r * a + n % a < a * b by {
      assert a * b - r * a == a * (b - r);
    }
    assert 0 <= r * a;
    QuotientUnique(n, a * b, q, r * a + n % a);
  }

  /** Every 24-bit word is the word of its octets and the word of its groups. */
  lemma WordOfOctets(n: nat)
    requires n < 0x100_0000
    ensures var d := Octets(n); OctetWord(d[0], d[1], d[2]) == n
  {
    DivDiv(n, 256, 256);
  }

  lemma WordOfGroups(n: nat)
    requires n < 0x100_0000
    ensures var s := Groups(n); GroupWord(s[0], s[1], s[2], s[3]) == n
  {
    DivDiv(n, 64, 64);
    DivDiv(n, 0x1000, 64);
    var q := n / 64;
    Recombine(n, q, q / 64, q / 64 / 64, n % 64, q % 64, q / 64 % 64);
  }

  lemma Recombine(n: nat, q: nat, q': nat, q'': nat, r: nat, r': nat, r'': nat)
    requires n < 0x100_0000 && n == q * 64 + r && q == q' * 64 + r' && q' == q'' * 64 + r''
    ensures GroupWord(q'', r'', r', r) == n && q'' < 64
  {
  }

  lemma OctetsOfWord(a: byte, b: byte, c: byte)
    ensures 0 <= OctetWord(a, b, c) < 0x100_0000 && Octets(OctetWord(a, b, c)) == [a, b, c]
  {
    var n := OctetWord(a, b, c);
    QuotientUnique(n, 0x10000, a, b * 0x100 + c);
    QuotientUnique(n, 0x100, a * 0x100 + b, c);
    QuotientUnique(a * 0x100 + b, 0x100, a, b);
  }

  lemma GroupsOfWord(a: sextet, b: sextet, c: sextet, e: sextet)
    ensures 0 <= GroupWord(a, b, c, e) < 0x100_0000 && Groups(GroupWord(a, b, c, e)) == [a, b, c, e]
  {
    var n := GroupWord(a, b, c, e);
    QuotientUnique(n, 0x40000, a, b * 0x1000 + c * 64 + e);
    QuotientUnique(n, 0x1000, a * 64 + b, c * 64 + e);
    QuotientUnique(a * 64 + b, 64, a, b);
    QuotientUnique(n, 64, a * 0x1000 + b * 64 + c, e);
    QuotientUnique(a * 0x1000 + b * 64 + c, 64, a * 64 + b, c);
  }

  lemma PackLength(d: bytes)
    ensures |Pack(d)| == (4 * |d| + 2) / 3
  {
  }

  /** Regrouping loses nothing. */
  lemma {:induction false} UnpackPack(d: bytes)
    ensures Unpack(Pack(d)) == d
  {
    if |d| >= 3 {
      OctetsOfWord(d[0], d[1], d[2]);
      var n := OctetWord(d[0], d[1], d[2]);
      WordOfGroups(n);
      hide Octets, Groups, OctetWord;
      UnpackPack(d[3..]);
      assert (Groups(n) + Pack(d[3..]))[4..] == Pack(d[3..]);
      assert d == [d[0], d[1], d[2]] + d[3..];
    } else if d != [] {
      ShortUnpackPack(d);
    }
  }

  lemma LowGroupsZero(n: nat)
    ensures n % 64 == 0 ==> Groups(n)[3] == 0
    ensures n % 0x1000 == 0 ==> Groups(n)[2] == 0 && Groups(n)[3] == 0
  {
    if n % 0x1000 == 0 {
      QuotientUnique(n, 64, n / 0x1000 * 64, 0);
    }
  }

  lemma LastGroupsZero(a: nat, b: nat)
    ensures Groups(OctetWord(a, b, 0))[3] == 0
    ensures b == 0 ==> Groups(OctetWord(a, b, 0))[2] == 0
  {
    QuotientUnique(OctetWord(a, b, 0), 64, a * 1024 + b * 4, 0);
    QuotientUnique(OctetWord(a, 0, 0), 0x1000, a * 16, 0);
    LowGroupsZero(OctetWord(a, b, 0));
  }

  lemma ShortUnpackPack(d: bytes)
    requires 1 <= |d| <= 2
    ensures Unpack(Pack(d)) == d
  {
    hide Octets, Groups, OctetWord, GroupWord;
    var b := if |d| == 2 then d[1] else 0;
    OctetsOfWord(d[0], b, 0);
    var n := OctetWord(d[0], b, 0);
    WordOfGroups(n);
    LastGroupsZero(d[0], b);
    assert Pack(d) == Groups(n)[..|d| + 1];
    assert Unpack(Pack(d)) == Octets(n)[..|d|];
  }

  /** The bits of the last group that belong to no octet are zero. */
  predicate TrailingBitsZero(s: seq<sextet>)
  {
    (|s| % 4 == 2 ==> s[|s| - 1] % 16 == 0) && (|s| % 4 == 3 ==> s[|s| - 1] % 4 == 0)
  }

  /** Going the other way, regrouping restores the groups exactly when the unused bits are zero. */
  lemma {:induction false} PackUnpack(s: seq<sextet>)
    requires |s| % 4 != 1
    ensures Pack(Unpack(s)) == s <==> TrailingBitsZero(s)
  {
    hide Octets, Groups, GroupWord, OctetWord;
    if |s| >= 4 {
      GroupsOfWord(s[0], s[1], s[2], s[3]);
      var n := GroupWord(s[0], s[1], s[2], s[3]);
      WordOfOctets(n);
      PackUnpack(s[4..]);
      assert (Octets(n) + Unpack(s[4..]))[3..] == Unpack(s[4..]);
      assert s == [s[0], s[1], s[2], s[3]] + s[4..];
      LastOfTail(s);
    } else if |s| == 2 {
      TwoPackUnpack(s[0], s[1]);
      assert s == [s[0], s[1]];
    } else if |s| == 3 {
      ThreePackUnpack(s[0], s[1], s[2]);
      assert s == [s[0], s[1], s[2]];
    }
  }

  lemma LastOfTail(s: seq<sextet>)
    requires |s| >= 4
    ensures TrailingBitsZero(s) <==> TrailingBitsZero(s[4..])
  {
  }

  lemma TwoPackUnpack(a: sextet, b: sextet)
    ensures Pack(Unpack([a, b])) == [a, b] <==> b % 16 == 0
  {
    hide Octets, Groups, GroupWord, OctetWord;
    GroupsOfWord(a, b, 0, 0);
    var n := GroupWord(a, b, 0, 0);
    WordOfOctets(n);
    var d := Octets(n);
    var m := OctetWord(d[0], 0, 0);
    assert Unpack([a, b]) == [d[0]];
    OctetsOfWord(d[0], 0, 0);
    assert Pack([d[0]]) == Groups(m)[..2];
    LastGroupsZero(d[0], 0);
    WordOfGroups(m);
    UnusedBits2(a, b, d[0], d[1], d[2]);
  }

  lemma ThreePackUnpack(a: sextet, b: sextet, c: sextet)
    ensures Pack(Unpack([a, b, c])) == [a, b, c] <==> c % 4 == 0
  {
    hide Octets, Groups, GroupWord, OctetWord;
    GroupsOfWord(a, b, c, 0);
    var n := GroupWord(a, b, c, 0);
    WordOfOctets(n);
    var d := Octets(n);
    var m := OctetWord(d[0], d[1], 0);
    assert Unpack([a, b, c]) == [d[0], d[1]];
    OctetsOfWord(d[0], d[1], 0);
    assert Pack([d[0], d[1]]) == Groups(m)[..3];
    LastGroupsZero(d[0], d[1]);
    WordOfGroups(m);
    UnusedBits3(a, b, c, d[0], d[1], d[2]);
  }

  /** The octets past the whole ones are zero exactly when the unused bits are. */
  lemma UnusedBits2(a: nat, b: nat, x: nat, y: nat, z: nat)
    requires y < 256 && z < 256 && GroupWord(a, b, 0, 0) == OctetWord(x, y, z)
    ensures OctetWord(x, 0, 0) == GroupWord(a, b, 0, 0) <==> b % 16 == 0
  {
    var n := OctetWord(x, y, z);
    QuotientUnique(n, 0x10000, x, y * 0x100 + z);
    QuotientUnique(n, 0x10000, a * 4 + b / 16, b % 16 * 0x1000);
  }

  lemma UnusedBits3(a: nat, b: nat, c: nat, x: nat, y: nat, z: nat)
    requires y < 256 && z < 256 && GroupWord(a, b, c, 0) == OctetWord(x, y, z)
    ensures OctetWord(x, y, 0) == GroupWord(a, b, c, 0) <==> c % 4 == 0
  {
    var n := OctetWord(x, y, z);
    QuotientUnique(n, 0x100, x * 0x100 + y, z);
    QuotientUnique(n, 0x100, a * 0x400 + b * 16 + c / 4, c % 4 * 64);
  }

  // ----- the bit stream, as an independent reading of the regrouping -----

  function Two(k: nat): (p: nat)
    ensures p > 0
  {
    if k == 0 then 1 else 2 * Two(k - 1)
  }

  /** Bit `k` of a byte string, most significant first. */
  function OctetBit(d: bytes, k: nat): int
    requires k < 8 * |d|
  {
    d[k / 8] / Two(7 - k % 8) % 2
  }

  function GroupBit(s: seq<sextet>, k: nat): int
    requires k < 6 * |s|
  {
    s[k / 6] / Two(5 - k % 6) % 2
  }

  lemma {:induction false} TwoSum(a: nat, b: nat)
    ensures Two(a + b) == Two(a) * Two(b)
  {
    if a > 0 {
      TwoSum(a - 1, b);
      assert 2 * (Two(a - 1) * Two(b)) == 2 * Two(a - 1) * Two(b);
    }
  }

  lemma TwoEven(a: nat)
    requires a > 0
    ensures Two(a) % 2 == 0
  {
  }

  lemma Twos()
    ensures Two(0) == 1 && Two(6) == 64 && Two(8) == 256 && Two(12) == 0x1000 && Two(16) == 0x10000 && Two(18) == 0x40000
  {
    assert Two(1) == 2 && Two(2) == 4 && Two(3) == 8 && Two(4) == 16 && Two(5) == 32;
    TwoSum(4, 4);
    TwoSum(6, 6);
    TwoSum(8, 8);
    TwoSum(12, 6);
  }

  /** A bit below position `a + b` of a number survives the shift by `a` and the mask. */
  lemma BitOfPart(n: nat, a: nat, b: nat, w: nat)
    requires b < w
    ensures n / Two(a) % Two(w) / Two(b) % 2 == n / Two(a + b) % 2
  {
    hide Two;
    var m := n / Two(a);
    DivDiv(n, Two(a), Two(b));
    TwoSum(a, b);
    TwoSum(b, w - b);
    TwoEven(w - b);
    MaskKeepsBit(m, Two(b), Two(w - b));
  }

  lemma MaskKeepsBit(m: nat, b: nat, c: nat)
    requires b > 0 && c > 0 && c % 2 == 0 && b * c > 0
    ensures m % (b * c) / b % 2 == m / b % 2
  {
    var q, r := m / (b * c), m % (b * c);
    assert m == q * (b * c) + r;
    var x := r / b;
    assert q * (b * c) == q * c * b;
    assert m == (q * c + x) * b + r % b;
    QuotientUnique(m, b, q * c + x, r % b);
    assert q * c == 2 * (q * (c / 2));
  }

  lemma WordOctetBit(n: nat, k: nat)
    requires k < 24
    ensures OctetBit(Octets(n), k) == n / Two(23 - k) % 2
  {
    hide Two;
    Twos();
    var a := 16 - k / 8 * 8;
    assert Octets(n)[k / 8] == n / Two(a) % Two(8);
    assert a + (7 - k % 8) == 23 - k;
    BitOfPart(n, a, 7 - k % 8, 8);
  }

  lemma WordGroupBit(n: nat, k: nat)
    requires k < 24
    ensures GroupBit(Groups(n), k) == n / Two(23 - k) % 2
  {
    hide Two;
    Twos();
    var a := 18 - k / 6 * 6;
    assert Groups(n)[k / 6] == n / Two(a) % Two(6);
    assert a + (5 - k % 6) == 23 - k;
    BitOfPart(n, a, 5 - k % 6, 6);
  }

  /** The octets and the groups of a word hold the same 24 bits. */
  lemma WordBits(n: nat, k: nat)
    requires k < 24
    ensures OctetBit(Octets(n), k) == GroupBit(Groups(n), k)
  {
    WordOctetBit(n, k);
    WordGroupBit(n, k);
  }

  lemma LaterBits(front: bytes, d: bytes, groups: seq<sextet>, s: seq<sextet>, k: nat)
    requires |front| == 3 && |groups| == 4 && k >= 24
    ensures k < 8 * |front + d| ==> OctetBit(front + d, k) == OctetBit(d, k - 24)
    ensures k < 6 * |groups + s| ==> GroupBit(groups + s, k) == GroupBit(s, k - 24)
  {
    assert (k - 24) / 8 == k / 8 - 3 && (k - 24) % 8 == k % 8;
    assert (k - 24) / 6 == k / 6 - 4 && (k - 24) % 6 == k % 6;
  }

  /** The groups hold the very bits of the octets, in order, followed by zeros. */
  lemma {:induction false} PackBits(d: bytes, k: nat)
    requires k < 6 * |Pack(d)|
    ensures GroupBit(Pack(d), k) == if k < 8 * |d| then OctetBit(d, k) else 0
  {
    hide Groups, OctetWord, GroupBit, OctetBit;
    if |d| >= 3 && k >= 24 {
      PackBits(d[3..], k - 24);
      OctetsOfWord(d[0], d[1], d[2]);
      LaterBits(d[..3], d[3..], Groups(OctetWord(d[0], d[1], d[2])), Pack(d[3..]), k);
      assert d == d[..3] + d[3..];
    } else {
      PackLength(d);
      FirstBits(d, k);
    }
  }

  lemma FirstBits(d: bytes, k: nat)
    requires d != [] && k < 6 * |Pack(d)| && k < 24
    ensures GroupBit(Pack(d), k) == if k < 8 * |d| then OctetBit(d, k) else 0
  {
    hide Groups, OctetWord, Octets, Two;
    var padded := d + [0, 0];
    OctetsOfWord(padded[0], padded[1], padded[2]);
    var n := OctetWord(padded[0], padded[1], padded[2]);
    WordBits(n, k);
    assert Pack(d)[k / 6] == Groups(n)[k / 6];
    assert Octets(n)[k / 8] == padded[k / 8];
    ZeroBit(Two(7 - k % 8));
  }

  lemma ZeroBit(p: nat)
    requires p > 0
    ensures 0 / p % 2 == 0
  {
    QuotientUnique(0, p, 0, 0);
  }
}
