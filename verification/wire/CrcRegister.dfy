// The 32-bit register of the bitwise CRC-32 (reflected IEEE 802.3 polynomial), and the same
// register fed one message bit at a time.
module CrcRegister {
  import opened ByteOrder

  const POLYNOMIAL: bv32 := 0xEDB8_8320
  const ALL_ONES: bv32 := 0xFFFF_FFFF

  /** One bit: shift right, and fold the polynomial in when a one drops out. */
  function Shift1(c: bv32): bv32
  {
    (c >> 1) ^ (POLYNOMIAL & (0 - (c & 1)))
  }

  function Rounds(c: bv32, n: nat): bv32
    decreases n
  {
    if n == 0 then c else Rounds(Shift1(c), n - 1)
  }

  /** The inner loop, over the bits of one byte. */
  method ShiftLoop(c: bv32) returns (crc: bv32)
    ensures crc == Rounds(c, 8)
  {
    crc := c;
    var bit := 0;
    while bit < 8
      invariant bit <= 8
      invariant Rounds(crc, 8 - bit) == Rounds(c, 8)
    {
      var mask := 0 - (crc & 1);
      crc := (crc >> 1) ^ (POLYNOMIAL & mask);
      bit := bit + 1;
    }
  }

  // ----- bits -----

  function One(bit: bool): (p: bv32)
    ensures p <= 1
  {
    if bit then 1 else 0
  }

  /** Up to 32 bits as a register value, the first one lowest. */
  function Word(s: seq<bool>): bv32
  {
    if s == [] then 0 else Push(Word(s[1..]), One(s[0]))
  }

  function Push(w: bv32, p: bv32): bv32
  {
    (w << 1) | p
  }

  function Mix(c: bv32, w: bv32): bv32
  {
    c ^ w
  }

  function Complement(c: bv32): bv32
  {
    !c
  }

  lemma ComplementInjective(a: bv32, b: bv32)
    requires Complement(a) == Complement(b)
    ensures a == b
  {
  }

  predicate TopFree(w: bv32)
  {
    w <= 0x7FFF_FFFF
  }

  /** The `n` low bits of a number, lowest first. */
  function LowBits(v: nat, n: nat): (s: seq<bool>)
    ensures |s| == n
  {
    if n == 0 then [] else [v % 2 == 1] + LowBits(v / 2, n - 1)
  }

  /** A byte converted to uint32_t. */
  function Widen(b: byte): bv32
  {
    Word(LowBits(b, 8))
  }

  /** The bits of a message in the order in which they enter the register. */
  function Bits(s: bytes): (bits: seq<bool>)
    ensures |bits| == 8 * |s|
  {
    if s == [] then [] else LowBits(s[0], 8) + Bits(s[1..])
  }

  function Absorb(c: bv32, bit: bool): bv32
  {
    Shift1(Mix(c, One(bit)))
  }

  function AbsorbBits(c: bv32, s: seq<bool>): bv32
    decreases s
  {
    if s == [] then c else AbsorbBits(Absorb(c, s[0]), s[1..])
  }

  // ----- single steps -----

  lemma ShiftInjective(x: bv32, y: bv32)
    requires Shift1(x) == Shift1(y)
    ensures x == y
  {
  }

  lemma MixCancel(c: bv32, d: bv32, w: bv32)
    requires Mix(c, w) == Mix(d, w)
    ensures c == d
  {
  }

  lemma MixCancelLeft(c: bv32, w: bv32, v: bv32)
    requires Mix(c, w) == Mix(c, v)
    ensures w == v
  {
  }

  lemma MixZero(c: bv32)
    ensures Mix(c, 0) == c
  {
  }

  /** Bits that are still to come may be folded in before the shift or after it. */
  lemma ShiftSplit(c: bv32, w: bv32, p: bv32)
    requires TopFree(w) && p <= 1
    ensures Shift1(Mix(c, Push(w, p))) == Mix(Shift1(Mix(c, p)), w)
  {
    hide Mix, Push;
    MixPush(c, w, p);
    MixIs(c, p);
    SameShift(c, w, p, Mix(c, Push(w, p)), Mix(c, p));
  }

  lemma SameShift(c: bv32, w: bv32, p: bv32, x: bv32, y: bv32)
    requires x == c ^ ((w << 1) | p) && y == c ^ p && TopFree(w) && p <= 1
    ensures Shift1(x) == Mix(Shift1(y), w)
  {
  }

  lemma MixPush(c: bv32, w: bv32, p: bv32)
    ensures Mix(c, Push(w, p)) == c ^ ((w << 1) | p)
  {
  }

  lemma MixIs(c: bv32, w: bv32)
    ensures Mix(c, w) == c ^ w
  {
  }

  lemma PushInjective(w: bv32, p: bv32, v: bv32, q: bv32)
    requires TopFree(w) && TopFree(v) && p <= 1 && q <= 1
    requires Push(w, p) == Push(v, q)
    ensures w == v && p == q
  {
  }

  lemma MixedPush(w: bv32, v: bv32, p: bv32, q: bv32, x: bv32, y: bv32)
    requires p <= 1 && q <= 1 && x == (w << 1) | p && y == (v << 1) | q
    ensures Mix(x, y) == Push(Mix(w, v), p ^ q)
  {
  }

  lemma OneXor(a: bool, b: bool)
    ensures One(a) ^ One(b) == One(a != b)
  {
  }

  lemma PushIs(w: bv32, p: bv32)
    ensures Push(w, p) == (w << 1) | p
  {
  }

  lemma MixPushes(w: bv32, v: bv32, a: bool, b: bool)
    ensures Mix(Push(w, One(a)), Push(v, One(b))) == Push(Mix(w, v), One(a != b))
  {
    hide Mix, Push, One;
    PushIs(w, One(a));
    PushIs(v, One(b));
    MixedPush(w, v, One(a), One(b), Push(w, One(a)), Push(v, One(b)));
    OneXor(a, b);
  }

  lemma PushNothing()
    ensures Push(0, One(false)) == 0
  {
  }

  lemma MixLow(w: bv32, a: bool, b: bool)
    ensures Mix(Push(w, One(a)), One(b)) == Push(w, One(a != b))
  {
    hide Mix, Push, One;
    PushIs(w, One(a));
    MixIs((w << 1) | One(a), One(b));
    LowXor(w, One(a), One(b));
    OneXor(a, b);
    PushIs(w, One(a != b));
  }

  lemma LowXor(w: bv32, p: bv32, q: bv32)
    requires p <= 1 && q <= 1
    ensures ((w << 1) | p) ^ q == (w << 1) | (p ^ q)
  {
  }

  lemma ShiftEven(w: bv32)
    requires TopFree(w)
    ensures Shift1(Push(w, 0)) == w
  {
  }

  lemma ShiftOdd(w: bv32)
    requires TopFree(w)
    ensures Shift1(Push(w, 1)) == Mix(w, POLYNOMIAL)
  {
  }

  /** One round on a register whose lowest bit is `a`, fed the bit `b`. */
  lemma ShiftPushed(w: bv32, a: bool, b: bool)
    requires TopFree(w)
    ensures Shift1(Mix(Push(w, One(a)), One(b))) == if a != b then Mix(w, POLYNOMIAL) else w
  {
    hide Shift1, Mix, Push;
    MixLow(w, a, b);
    if a != b {
      ShiftOdd(w);
    } else {
      ShiftEven(w);
    }
  }

  // ----- a widened byte is the byte's number -----

  function Next(w: bv32): bv32
  {
    w + 1
  }

  lemma PushZero(w: bv32)
    ensures Push(w, 1) == Next(Push(w, 0))
  {
  }

  lemma PushCarry(w: bv32)
    ensures Push(Next(w), 0) == Next(Push(w, 1))
  {
  }

  /** Counting up by one in the number counts up by one in the register. */
  lemma {:induction false} WordSuccessor(v: nat, n: nat)
    requires v + 1 < Power(n)
    ensures Word(LowBits(v + 1, n)) == Next(Word(LowBits(v, n)))
    decreases n
  {
    hide Push, Next;
    assert n > 0;
    assert LowBits(v, n)[1..] == LowBits(v / 2, n - 1) && LowBits(v + 1, n)[1..] == LowBits((v + 1) / 2, n - 1);
    if v % 2 == 0 {
      assert (v + 1) / 2 == v / 2;
      PushZero(Word(LowBits(v / 2, n - 1)));
    } else {
      assert (v + 1) / 2 == v / 2 + 1;
      WordSuccessor(v / 2, n - 1);
      PushCarry(Word(LowBits(v / 2, n - 1)));
    }
  }

  function Power(n: nat): nat
  {
    if n == 0 then 1 else 2 * Power(n - 1)
  }

  lemma Successor(w: bv32, k: int)
    requires w as int == k && k < 255
    ensures Next(w) as int == k + 1
  {
  }

  lemma WidenZero()
    ensures Widen(0) == 0
  {
  }

  /** Widening a byte is the conversion of its number. */
  lemma {:induction false} WidenIsNumber(b: byte)
    ensures Widen(b) as int == b
  {
    hide Word, LowBits, Next;
    if b == 0 {
      WidenZero();
    } else {
      assert Power(8) == 256 by { assert Power(4) == 16; }
      WidenIsNumber(b - 1);
      WordSuccessor(b - 1, 8);
      Successor(Widen(b - 1), b - 1);
    }
  }

  // ----- at most 31 bits leave the top bit of a word free -----

  function HalfOf(l: bv32): bv32
  {
    l >> 1
  }

  /** 2 to the power `n`, for n up to 31. */
  function Limit(n: nat): bv32
    decreases 31 - n
  {
    if n >= 31 then 0x8000_0000 else HalfOf(Limit(n + 1))
  }

  predicate Below(w: bv32, l: bv32)
  {
    w < l <= 0x8000_0000
  }

  lemma HalfSmaller(l: bv32)
    requires l <= 0x8000_0000
    ensures HalfOf(l) <= 0x8000_0000
  {
  }

  lemma {:induction false} LimitBound(n: nat)
    ensures Limit(n) <= 0x8000_0000
    decreases 31 - n
  {
    hide HalfOf;
    if n < 31 {
      LimitBound(n + 1);
      HalfSmaller(Limit(n + 1));
    }
  }

  lemma HalfFour(l: bv32)
    ensures HalfOf(HalfOf(HalfOf(HalfOf(l)))) == l >> 4
  {
  }

  lemma FourTimes(n: nat)
    requires n + 4 <= 31
    ensures Limit(n) == HalfOf(HalfOf(HalfOf(HalfOf(Limit(n + 4)))))
  {
    hide HalfOf;
    assert Limit(n + 2) == HalfOf(HalfOf(Limit(n + 4)));
    assert Limit(n) == HalfOf(HalfOf(Limit(n + 2)));
  }

  lemma LimitFour(n: nat, l: bv32)
    requires n + 4 <= 31 && Limit(n + 4) == l
    ensures Limit(n) == l >> 4
  {
    hide HalfOf, Limit;
    FourTimes(n);
    HalfFour(l);
  }

  lemma LimitZero()
    ensures Limit(0) == 1
  {
    hide Limit;
    assert Limit(31) == 0x8000_0000 by { LimitTop(); }
    LimitFour(27, 0x8000_0000);
    LimitFour(23, 0x800_0000);
    LimitFour(19, 0x80_0000);
    LimitFour(15, 0x8_0000);
    LimitFour(11, 0x8000);
    LimitFour(7, 0x800);
    LimitFour(3, 0x80);
    LastThree();
  }

  lemma LimitTop()
    ensures Limit(31) == 0x8000_0000
  {
  }

  lemma LastThree()
    requires Limit(3) == 8
    ensures Limit(0) == 1
  {
    assert Limit(1) == HalfOf(HalfOf(Limit(3)));
  }

  lemma BelowDouble(w: bv32, p: bv32, l: bv32)
    requires Below(w, HalfOf(l)) && l <= 0x8000_0000 && p <= 1
    ensures Below(Push(w, p), l)
  {
  }

  lemma BelowIsFree(w: bv32, l: bv32)
    requires Below(w, l)
    ensures TopFree(w)
  {
  }

  lemma NothingBelow()
    ensures Below(0, Limit(0))
  {
    hide Limit;
    LimitZero();
  }

  lemma {:induction false} WordBelow(s: seq<bool>)
    requires |s| <= 31
    ensures Below(Word(s), Limit(|s|))
  {
    hide Below, HalfOf, Push;
    if s == [] {
      NothingBelow();
    } else {
      WordBelow(s[1..]);
      LimitBound(|s|);
      BelowDouble(Word(s[1..]), One(s[0]), Limit(|s|));
    }
  }

  lemma WordFree(s: seq<bool>)
    requires |s| <= 31
    ensures TopFree(Word(s))
  {
    hide Below, TopFree, Word, Limit;
    WordBelow(s);
    BelowIsFree(Word(s), Limit(|s|));
  }

  // ----- words against bits -----

  lemma OneInjective(a: bool, b: bool)
    requires One(a) == One(b)
    ensures a == b
  {
  }

  lemma {:induction false} WordInjective(s: seq<bool>, t: seq<bool>)
    requires |s| == |t| <= 32 && Word(s) == Word(t)
    ensures s == t
  {
    hide TopFree, Push, One;
    if s != [] {
      WordFree(s[1..]);
      WordFree(t[1..]);
      PushInjective(Word(s[1..]), One(s[0]), Word(t[1..]), One(t[0]));
      OneInjective(s[0], t[0]);
      WordInjective(s[1..], t[1..]);
      assert s == [s[0]] + s[1..] && t == [t[0]] + t[1..];
    }
  }

  /** Folding a word in at once and shifting it out is feeding its bits one by one. */
  lemma {:induction false} RoundsAreBits(c: bv32, s: seq<bool>)
    requires |s| <= 32
    ensures Rounds(Mix(c, Word(s)), |s|) == AbsorbBits(c, s)
    decreases s
  {
    hide TopFree, Push, One, Mix, Shift1;
    if s == [] {
      MixZero(c);
    } else {
      WordFree(s[1..]);
      ShiftSplit(c, Word(s[1..]), One(s[0]));
      RoundsAreBits(Absorb(c, s[0]), s[1..]);
    }
  }

  lemma {:induction false} RoundsInjective(x: bv32, y: bv32, n: nat)
    requires Rounds(x, n) == Rounds(y, n)
    ensures x == y
    decreases n
  {
    hide Shift1;
    if n > 0 {
      RoundsInjective(Shift1(x), Shift1(y), n - 1);
      ShiftInjective(x, y);
    }
  }
}
