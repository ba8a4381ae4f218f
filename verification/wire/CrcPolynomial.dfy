// The checksum as arithmetic on polynomials over two elements: what the register loop computes is
// the remainder of a division by the generator of IEEE 802.3.
//
// A polynomial is the sequence of its coefficients, the highest power first; a message's polynomial
// takes the bits in the order in which they are sent, the lowest bit of each byte first.
module CrcPolynomial {
  import opened ByteOrder
  import opened CrcRegister
  import opened CrcBurst
  import opened Crc32

  // ----- polynomials -----

  function Xor(s: seq<bool>, t: seq<bool>): (r: seq<bool>)
    requires |s| == |t|
    ensures |r| == |s| && forall i :: 0 <= i < |s| ==> r[i] == (s[i] != t[i])
  {
    seq(|s|, i requires 0 <= i < |s| => s[i] != t[i])
  }

  function Nothing(n: nat): (r: seq<bool>)
    ensures |r| == n && forall i :: 0 <= i < n ==> !r[i]
  {
    seq(n, _ => false)
  }

  /** x^32 + x^26 + x^23 + x^22 + x^16 + x^12 + x^11 + x^10 + x^8 + x^7 + x^5 + x^4 + x^2 + x + 1. */
  function Generator(): (g: seq<bool>)
    ensures |g| == 33 && g[0]
  {
    seq(33, i requires 0 <= i < 33 => 32 - i in {32, 26, 23, 22, 16, 12, 11, 10, 8, 7, 5, 4, 2, 1, 0})
  }

  /** The generator times a polynomial. */
  function Times(q: seq<bool>): (p: seq<bool>)
    ensures |p| == |q| + 32
  {
    if q == [] then Nothing(32)
    else Xor((if q[0] then Generator() else Nothing(33)) + Nothing(|q| - 1), [false] + Times(q[1..]))
  }

  /** `r` is what is left of `a` when a multiple of the generator is taken away. */
  ghost predicate IsRemainder(a: seq<bool>, r: seq<bool>)
  {
    && |r| == 32 <= |a|
    && exists q: seq<bool> :: |q| == |a| - 32 && a == Xor(Times(q), Nothing(|q|) + r)
  }

  /** There is only one remainder. */
  lemma RemainderUnique(a: seq<bool>, r: seq<bool>, r': seq<bool>)
    requires IsRemainder(a, r) && IsRemainder(a, r')
    ensures r == r'
  {
    hide Times, Xor, Nothing;
    var q: seq<bool> :| |q| == |a| - 32 && a == Xor(Times(q), Nothing(|q|) + r);
    var q': seq<bool> :| |q'| == |a| - 32 && a == Xor(Times(q'), Nothing(|q'|) + r');
    SameQuotient(q, q', r, r');
  }

  lemma {:induction false} SameQuotient(q: seq<bool>, q': seq<bool>, r: seq<bool>, r': seq<bool>)
    requires |q| == |q'| && |r| == |r'| == 32
    requires Xor(Times(q), Nothing(|q|) + r) == Xor(Times(q'), Nothing(|q'|) + r')
    ensures r == r'
  {
    hide Generator, Times, Xor, Nothing;
    var left, right := Xor(Times(q), Nothing(|q|) + r), Xor(Times(q'), Nothing(|q'|) + r');
    if q == [] {
      assert q == q';
      forall i | 0 <= i < 32
        ensures r[i] == r'[i]
      {
        assert (Nothing(0) + r)[i] == r[i] && (Nothing(0) + r')[i] == r'[i];
        assert left[i] == (Times(q)[i] != r[i]) && right[i] == (Times(q)[i] != r'[i]);
      }
    } else {
      TimesStep(q[0], q[1..]);
      TimesStep(q'[0], q'[1..]);
      assert q == [q[0]] + q[1..] && q' == [q'[0]] + q'[1..];
      assert left[0] == q[0] && right[0] == q'[0];
      var next, next' := Xor(Times(q[1..]), Nothing(|q| - 1) + r), Xor(Times(q'[1..]), Nothing(|q| - 1) + r');
      forall i | 0 <= i < |q| + 31
        ensures next[i] == next'[i]
      {
        assert left[i + 1] == right[i + 1];
      }
      SameQuotient(q[1..], q'[1..], r, r');
    }
  }

  // ----- long division -----

  /** One step takes the generator away when the leading coefficient is one. */
  function Divide(a: seq<bool>): (r: seq<bool>)
    requires |a| >= 32
    ensures |r| == 32
    decreases |a|
  {
    if |a| == 32 then a else Divide(Reduced(a))
  }

  function Reduced(a: seq<bool>): (b: seq<bool>)
    requires |a| >= 33
    ensures |b| == |a| - 1
  {
    if a[0] then Xor(a[1..33], Generator()[1..]) + a[33..] else a[1..]
  }

  lemma {:induction false} DivideIsRemainder(a: seq<bool>)
    requires |a| >= 32
    ensures IsRemainder(a, Divide(a))
    decreases |a|
  {
    hide Generator;
    if |a| == 32 {
      var q: seq<bool> := [];
      assert a == Xor(Times(q), Nothing(|q|) + a);
    } else {
      var b := Reduced(a);
      DivideIsRemainder(b);
      var q: seq<bool> :| |q| == |b| - 32 && b == Xor(Times(q), Nothing(|q|) + Divide(b));
      OneMoreTerm(a, b, q, Divide(b));
    }
  }

  lemma OneMoreTerm(a: seq<bool>, b: seq<bool>, q: seq<bool>, r: seq<bool>)
    requires |a| >= 33 && b == Reduced(a) && |r| == 32
    requires |q| == |b| - 32 && b == Xor(Times(q), Nothing(|q|) + r)
    ensures IsRemainder(a, r)
  {
    hide Generator, Times, Xor, Nothing, Reduced;
    var q' := [a[0]] + q;
    var right := Xor(Times(q'), Nothing(|q'|) + r);
    forall i | 0 <= i < |a|
      ensures a[i] == right[i]
    {
      TermAt(a, q, r, i);
    }
    assert a == right;
  }

  lemma TermAt(a: seq<bool>, q: seq<bool>, r: seq<bool>, i: nat)
    requires |a| >= 33 && |r| == 32 && i < |a| == |q| + 33
    requires Reduced(a) == Xor(Times(q), Nothing(|q|) + r)
    ensures a[i] == Xor(Times([a[0]] + q), Nothing(|q| + 1) + r)[i]
  {
    hide Generator, Times, Reduced;
    TimesStep(a[0], q);
    ReducedAt(a);
    var p, high, low := Times([a[0]] + q), Nothing(|q| + 1) + r, Nothing(|q|) + r;
    assert Xor(p, high)[i] == (p[i] != high[i]);
    if i > 0 {
      ShiftedIn(|q|, r, i);
      assert Reduced(a)[i - 1] == (Times(q)[i - 1] != low[i - 1]);
      assert p[i] == (Times(q)[i - 1] != (a[0] && i < 33 && Generator()[i]));
    }
  }

  lemma ShiftedIn(n: nat, r: seq<bool>, i: nat)
    requires 0 < i < n + 1 + |r|
    ensures (Nothing(n + 1) + r)[i] == (Nothing(n) + r)[i - 1]
  {
  }

  lemma TimesStep(first: bool, q: seq<bool>)
    ensures var p := Times([first] + q);
            && p[0] == first
            && forall i :: 1 <= i < |p| ==> p[i] == (Times(q)[i - 1] != (first && i < 33 && Generator()[i]))
  {
    hide Generator;
    assert ([first] + q)[1..] == q;
  }

  lemma ReducedAt(a: seq<bool>)
    requires |a| >= 33
    ensures forall i :: 0 <= i < |a| - 1 ==> Reduced(a)[i] == (a[i + 1] != (a[0] && i < 32 && Generator()[i + 1]))
  {
    hide Generator;
  }

  // ----- the register is the division -----

  /** A polynomial with `r` added to its first 32 coefficients. */
  function AddFirst(a: seq<bool>, r: seq<bool>): (b: seq<bool>)
    requires |r| == 32 <= |a|
    ensures |b| == |a|
  {
    Xor(a[..32], r) + a[32..]
  }

  lemma {:induction false} WordXor(s: seq<bool>, t: seq<bool>)
    requires |s| == |t|
    ensures Word(Xor(s, t)) == Mix(Word(s), Word(t))
  {
    hide Push, Mix, One;
    if s == [] {
      MixZero(0);
    } else {
      WordXor(s[1..], t[1..]);
      assert Xor(s, t)[1..] == Xor(s[1..], t[1..]);
      MixPushes(Word(s[1..]), Word(t[1..]), s[0], t[0]);
    }
  }

  lemma {:induction false} WordTopZero(s: seq<bool>)
    ensures Word(s + [false]) == Word(s)
  {
    hide Push;
    if s == [] {
      assert (s + [false])[1..] == [];
      PushNothing();
    } else {
      assert (s + [false])[1..] == s[1..] + [false];
      WordTopZero(s[1..]);
    }
  }

  /** The register whose bits are `r`, after one message bit. */
  function NextBits(r: seq<bool>, bit: bool): (r': seq<bool>)
    requires |r| == 32
    ensures |r'| == 32
  {
    if r[0] != bit then Xor(r[1..] + [false], Generator()[1..]) else r[1..] + [false]
  }

  lemma AbsorbIsNext(r: seq<bool>, bit: bool)
    requires |r| == 32
    ensures Absorb(Word(r), bit) == Word(NextBits(r, bit))
  {
    hide Shift1, Mix, Push, One, Generator, Xor;
    var w := Word(r[1..]);
    WordFree(r[1..]);
    WordTopZero(r[1..]);
    ShiftPushed(w, r[0], bit);
    if r[0] != bit {
      WordXor(r[1..] + [false], Generator()[1..]);
      GeneratorWord();
    }
  }

  lemma StepDivides(r: seq<bool>, bits: seq<bool>)
    requires |r| == 32 && bits != []
    ensures Reduced(AddFirst(bits + Nothing(32), r)) == AddFirst(bits[1..] + Nothing(32), NextBits(r, bits[0]))
  {
    hide Generator;
    var a := AddFirst(bits + Nothing(32), r);
    var b := AddFirst(bits[1..] + Nothing(32), NextBits(r, bits[0]));
    assert a[0] == (bits[0] != r[0]);
    forall i | 0 <= i < |b|
      ensures Reduced(a)[i] == b[i]
    {
      assert (bits[1..] + Nothing(32))[i] == (bits + Nothing(32))[i + 1];
    }
  }

  /** Feeding bits to the register is dividing them, followed by 32 zeros, by the generator. */
  lemma {:induction false} RegisterDivides(r: seq<bool>, bits: seq<bool>)
    requires |r| == 32
    ensures AbsorbBits(Word(r), bits) == Word(Divide(AddFirst(bits + Nothing(32), r)))
    decreases bits
  {
    hide Absorb, Word, Generator, NextBits, Reduced;
    if bits == [] {
      assert AddFirst(bits + Nothing(32), r) == r;
    } else {
      AbsorbIsNext(r, bits[0]);
      StepDivides(r, bits);
      RegisterDivides(NextBits(r, bits[0]), bits[1..]);
    }
  }

  // ----- constants -----

  /** A word with four more coefficients below it, the first one lowest. */
  function Four(w: bv32, a: bool, b: bool, c: bool, d: bool): bv32
  {
    Push(Push(Push(Push(w, One(d)), One(c)), One(b)), One(a))
  }

  lemma WordFour(s: seq<bool>, i: nat, a: bool, b: bool, c: bool, d: bool)
    requires i + 4 <= |s| && s[i] == a && s[i + 1] == b && s[i + 2] == c && s[i + 3] == d
    ensures Word(s[i..]) == Four(Word(s[i + 4..]), a, b, c, d)
  {
    hide Push, One;
    assert s[i + 3..][1..] == s[i + 4..] && s[i + 2..][1..] == s[i + 3..];
    assert s[i + 1..][1..] == s[i + 2..] && s[i..][1..] == s[i + 1..];
    assert Word(s[i + 3..]) == Push(Word(s[i + 4..]), One(d));
    assert Word(s[i + 2..]) == Push(Word(s[i + 3..]), One(c));
    assert Word(s[i + 1..]) == Push(Word(s[i + 2..]), One(b));
  }

  lemma NoWord(s: seq<bool>)
    requires s == []
    ensures Word(s) == 0
  {
  }

  /** The coefficients of the generator below x^32. */
  lemma Coefficients()
    ensures !Generator()[1] && !Generator()[2] && !Generator()[3] && !Generator()[4] && !Generator()[5] && Generator()[6] && !Generator()[7] && !Generator()[8]
    ensures Generator()[9] && Generator()[10] && !Generator()[11] && !Generator()[12] && !Generator()[13] && !Generator()[14] && !Generator()[15] && Generator()[16]
    ensures !Generator()[17] && !Generator()[18] && !Generator()[19] && Generator()[20] && Generator()[21] && Generator()[22] && !Generator()[23] && Generator()[24]
    ensures Generator()[25] && !Generator()[26] && Generator()[27] && Generator()[28] && !Generator()[29] && Generator()[30] && Generator()[31] && Generator()[32]
  {
  }

  lemma GeneratorWord()
    ensures Word(Generator()[1..]) == POLYNOMIAL
  {
    var g := Generator()[1..];
    Coefficients();
    hide Word, Generator, Four;
    NoWord(g[32..]);
    WordFour(g, 28, false, true, true, true);
    WordFour(g, 24, true, false, true, true);
    WordFour(g, 20, true, true, false, true);
    WordFour(g, 16, false, false, false, true);
    WordFour(g, 12, false, false, false, true);
    WordFour(g, 8, true, true, false, false);
    WordFour(g, 4, false, true, false, false);
    WordFour(g, 0, false, false, false, false);
    assert g[0..] == g;
    GeneratorNibbles();
  }

  lemma GeneratorNibbles()
    ensures Four(Four(Four(Four(Four(Four(Four(Four(0, false, true, true, true),
              true, false, true, true),
              true, true, false, true),
              false, false, false, true),
              false, false, false, true),
              true, true, false, false),
              false, true, false, false),
              false, false, false, false) == POLYNOMIAL
  {
  }

  function Ones(): (s: seq<bool>)
    ensures |s| == 32 && forall i :: 0 <= i < 32 ==> s[i]
  {
    seq(32, _ => true)
  }

  lemma OnesWord()
    ensures Word(Ones()) == ALL_ONES
  {
    var s := Ones();
    hide Word, Ones, Four;
    NoWord(s[32..]);
    WordFour(s, 28, true, true, true, true);
    WordFour(s, 24, true, true, true, true);
    WordFour(s, 20, true, true, true, true);
    WordFour(s, 16, true, true, true, true);
    WordFour(s, 12, true, true, true, true);
    WordFour(s, 8, true, true, true, true);
    WordFour(s, 4, true, true, true, true);
    WordFour(s, 0, true, true, true, true);
    assert s[0..] == s;
    OnesNibbles();
  }

  lemma OnesNibbles()
    ensures Four(Four(Four(Four(Four(Four(Four(Four(0, true, true, true, true),
              true, true, true, true),
              true, true, true, true),
              true, true, true, true),
              true, true, true, true),
              true, true, true, true),
              true, true, true, true),
              true, true, true, true) == ALL_ONES
  {
  }

  // ----- the checksum -----

  /** The message's polynomial times x^32, with its first 32 coefficients complemented. */
  function Dividend(s: bytes): (a: seq<bool>)
    ensures |a| == 8 * |s| + 32
  {
    AddFirst(Bits(s) + Nothing(32), Ones())
  }

  /** The checksum is the complemented remainder of the message modulo the generator, its lowest bit
      the coefficient of x^31. */
  lemma ChecksumIsRemainder(s: bytes, r: seq<bool>)
    requires |r| == 32
    ensures IsRemainder(Dividend(s), r) <==> Checksum(s) == Complement(Word(r))
  {
    hide Complement, Word, AbsorbBits, Checksum, Divide, Dividend, IsRemainder;
    var d := Divide(Dividend(s));
    ChecksumDivides(s);
    DivideIsRemainder(Dividend(s));
    if IsRemainder(Dividend(s), r) {
      RemainderUnique(Dividend(s), r, d);
    }
    if Checksum(s) == Complement(Word(r)) {
      ComplementInjective(Word(r), Word(d));
      WordInjective(r, d);
    }
  }

  lemma ChecksumDivides(s: bytes)
    ensures Checksum(s) == Complement(Word(Divide(Dividend(s))))
  {
    hide Complement, Word, AbsorbBits, Bits, AbsorbAll, Divide, AddFirst, Nothing;
    BytesAreBits(ALL_ONES, s);
    OnesWord();
    RegisterDivides(Ones(), Bits(s));
  }

  // ----- the published check value -----

  const CHECK_INPUT: bytes := [49, 50, 51, 52, 53, 54, 55, 56, 57]

  function Eight(c: bv32): bv32
  {
    Shift1(Shift1(Shift1(Shift1(Shift1(Shift1(Shift1(Shift1(c))))))))
  }

  lemma RoundsEight(c: bv32)
    ensures Rounds(c, 8) == Eight(c)
  {
    hide Shift1;
    var d := Shift1(Shift1(c));
    var e := Shift1(Shift1(d));
    assert Rounds(c, 8) == Rounds(d, 6);
    assert Rounds(d, 6) == Rounds(e, 4);
    assert Rounds(e, 4) == Rounds(Shift1(Shift1(e)), 2);
  }

  /** The bits of the first digit, and the successors of their value. */
  lemma WideOne()
    ensures Widen(49) == 0x31
  {
    hide Word, Four;
    assert LowBits(3, 4) == [true, true, false, false] by {
      assert LowBits(3, 4) == [true] + ([true] + LowBits(0, 2));
    }
    assert LowBits(12, 6) == [false] + ([false] + LowBits(3, 4));
    assert LowBits(49, 8) == [true] + ([false] + LowBits(12, 6));
    var s := LowBits(49, 8);
    assert s == [true, false, false, false, true, true, false, false];
    NoWord(s[8..]);
    WordFour(s, 4, true, true, false, false);
    WordFour(s, 0, true, false, false, false);
    assert s[0..] == s;
    OneNibbles();
  }

  lemma OneNibbles()
    ensures Four(Four(0, true, true, false, false), true, false, false, false) == 0x31
  {
  }

  lemma WideNext(b: byte, w: bv32)
    requires b < 255 && Widen(b) == w
    ensures Widen(b + 1) == Next(w)
  {
    hide Word, LowBits;
    assert Power(8) == 256 by { assert Power(4) == 16; }
    WordSuccessor(b, 8);
  }

  lemma Digit(c: bv32, b: byte, w: bv32, d: bv32)
    requires Widen(b) == w && Eight(c ^ w) == d
    ensures AbsorbByte(c, b) == d
  {
    hide Eight, Rounds, Widen, Mix;
    MixIs(c, w);
    RoundsEight(c ^ w);
  }

  lemma NineBytes(c: bv32, s: bytes)
    requires |s| == 9
    ensures AbsorbAll(c, s) == AbsorbByte(AbsorbByte(AbsorbByte(AbsorbByte(AbsorbByte(AbsorbByte(AbsorbByte(AbsorbByte(
              AbsorbByte(c, s[0]), s[1]), s[2]), s[3]), s[4]), s[5]), s[6]), s[7]), s[8])
  {
    hide AbsorbByte;
    assert s[0..][0] == s[0] && s[0..][1..] == s[1..];
    assert s[1..][0] == s[1] && s[1..][1..] == s[2..];
    assert s[2..][0] == s[2] && s[2..][1..] == s[3..];
    assert s[3..][0] == s[3] && s[3..][1..] == s[4..];
    assert s[4..][0] == s[4] && s[4..][1..] == s[5..];
    assert s[5..][0] == s[5] && s[5..][1..] == s[6..];
    assert s[6..][0] == s[6] && s[6..][1..] == s[7..];
    assert s[7..][0] == s[7] && s[7..][1..] == s[8..];
    assert s[8..][0] == s[8] && s[8..][1..] == s[9..];
    var c1 := AbsorbByte(c, s[0]);
    var c2 := AbsorbByte(c1, s[1]);
    var c3 := AbsorbByte(c2, s[2]);
    var c4 := AbsorbByte(c3, s[3]);
    var c5 := AbsorbByte(c4, s[4]);
    var c6 := AbsorbByte(c5, s[5]);
    var c7 := AbsorbByte(c6, s[6]);
    var c8 := AbsorbByte(c7, s[7]);
    assert s[0..] == s && AbsorbAll(c, s) == AbsorbAll(c1, s[1..]);
    assert AbsorbAll(c1, s[1..]) == AbsorbAll(c2, s[2..]);
    assert AbsorbAll(c2, s[2..]) == AbsorbAll(c3, s[3..]);
    assert AbsorbAll(c3, s[3..]) == AbsorbAll(c4, s[4..]);
    assert AbsorbAll(c4, s[4..]) == AbsorbAll(c5, s[5..]);
    assert AbsorbAll(c5, s[5..]) == AbsorbAll(c6, s[6..]);
    assert AbsorbAll(c6, s[6..]) == AbsorbAll(c7, s[7..]);
    assert AbsorbAll(c7, s[7..]) == AbsorbAll(c8, s[8..]);
    assert AbsorbAll(c8, s[8..]) == AbsorbAll(AbsorbByte(c8, s[8]), s[9..]);
    assert s[9..] == [];
  }

  lemma AbsorbDigits()
    ensures AbsorbAll(ALL_ONES, CHECK_INPUT) == 0x340B_C6D9
  {
    hide AbsorbByte, AbsorbAll, Widen, Eight;
    NineBytes(ALL_ONES, CHECK_INPUT);
    FirstDigits();
    LastDigits();
  }

  lemma FirstDigits()
    ensures AbsorbByte(AbsorbByte(AbsorbByte(AbsorbByte(AbsorbByte(ALL_ONES, 49), 50), 51), 52), 53) == 0x340A_C5E3
  {
    hide AbsorbByte, Widen, Eight;
    WideDigits();
    EightSteps();
    Digit(0xFFFF_FFFF, 49, 0x31, 0x7C23_1048);
    Digit(0x7C23_1048, 50, 0x32, 0xB0AC_BB32);
    Digit(0xB0AC_BB32, 51, 0x33, 0x77B7_9C2D);
    Digit(0x77B7_9C2D, 52, 0x34, 0x641C_1F5C);
    Digit(0x641C_1F5C, 53, 0x35, 0x340A_C5E3);
  }

  lemma LastDigits()
    ensures AbsorbByte(AbsorbByte(AbsorbByte(AbsorbByte(0x340A_C5E3, 54), 55), 56), 57) == 0x340B_C6D9
  {
    hide AbsorbByte, Widen, Eight;
    WideDigits();
    EightSteps();
    Digit(0x340A_C5E3, 54, 0x36, 0xF68D_2C9E);
    Digit(0xF68D_2C9E, 55, 0x37, 0xAFFC_9660);
    Digit(0xAFFC_9660, 56, 0x38, 0x651F_2550);
    Digit(0x651F_2550, 57, 0x39, 0x340B_C6D9);
  }

  lemma WideDigits()
    ensures Widen(49) == 0x31 && Widen(50) == 0x32 && Widen(51) == 0x33 && Widen(52) == 0x34 && Widen(53) == 0x35
    ensures Widen(54) == 0x36 && Widen(55) == 0x37 && Widen(56) == 0x38 && Widen(57) == 0x39
  {
    hide Widen;
    WideOne();
    WideNext(49, 0x31);
    WideNext(50, 0x32);
    WideNext(51, 0x33);
    WideNext(52, 0x34);
    WideNext(53, 0x35);
    WideNext(54, 0x36);
    WideNext(55, 0x37);
    WideNext(56, 0x38);
  }

  lemma EightSteps()
    ensures Eight(0xFFFF_FFFF ^ 0x31) == 0x7C23_1048
    ensures Eight(0x7C23_1048 ^ 0x32) == 0xB0AC_BB32
    ensures Eight(0xB0AC_BB32 ^ 0x33) == 0x77B7_9C2D
    ensures Eight(0x77B7_9C2D ^ 0x34) == 0x641C_1F5C
    ensures Eight(0x641C_1F5C ^ 0x35) == 0x340A_C5E3
    ensures Eight(0x340A_C5E3 ^ 0x36) == 0xF68D_2C9E
    ensures Eight(0xF68D_2C9E ^ 0x37) == 0xAFFC_9660
    ensures Eight(0xAFFC_9660 ^ 0x38) == 0x651F_2550
    ensures Eight(0x651F_2550 ^ 0x39) == 0x340B_C6D9
  {
  }

  /** The check value of the IEEE 802.3 CRC-32: the checksum of the nine digits "123456789". */
  lemma CheckValue()
    ensures Checksum(CHECK_INPUT) == 0xCBF4_3926
  {
    hide AbsorbAll;
    AbsorbDigits();
  }
}
