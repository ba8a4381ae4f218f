// Messages as streams of bits: what a change inside 32 consecutive bits does to the register.
module CrcBurst {
  import opened ByteOrder
  import opened CrcRegister

  // ----- bytes against bits -----

  /** The register after the bytes of `s`, as the two nested loops compute it. */
  function AbsorbAll(c: bv32, s: bytes): bv32
    decreases s
  {
    if s == [] then c else AbsorbAll(AbsorbByte(c, s[0]), s[1..])
  }

  function AbsorbByte(c: bv32, b: byte): bv32
  {
    Rounds(Mix(c, Widen(b)), 8)
  }

  lemma {:induction false} AbsorbAllSnoc(c: bv32, s: bytes, b: byte)
    ensures AbsorbAll(c, s + [b]) == AbsorbByte(AbsorbAll(c, s), b)
    decreases s
  {
    hide AbsorbByte;
    if s == [] {
      assert (s + [b])[1..] == [];
    } else {
      assert (s + [b])[1..] == s[1..] + [b];
      AbsorbAllSnoc(AbsorbByte(c, s[0]), s[1..], b);
    }
  }

  lemma {:induction false} AbsorbBitsAppend(c: bv32, s: seq<bool>, t: seq<bool>)
    ensures AbsorbBits(c, s + t) == AbsorbBits(AbsorbBits(c, s), t)
    decreases s
  {
    hide Absorb;
    if s == [] {
      assert s + t == t;
    } else {
      assert (s + t)[1..] == s[1..] + t;
      AbsorbBitsAppend(Absorb(c, s[0]), s[1..], t);
    }
  }

  /** The byte loop is the bit stream. */
  lemma {:induction false} BytesAreBits(c: bv32, s: bytes)
    ensures AbsorbAll(c, s) == AbsorbBits(c, Bits(s))
    decreases s
  {
    hide Rounds, Mix, Word, LowBits, AbsorbBits;
    if s == [] {
      NoBits(c);
    } else {
      RoundsAreBits(c, LowBits(s[0], 8));
      AbsorbBitsAppend(c, LowBits(s[0], 8), Bits(s[1..]));
      BytesAreBits(AbsorbByte(c, s[0]), s[1..]);
    }
  }

  lemma NoBits(c: bv32)
    ensures AbsorbBits(c, []) == c
  {
  }

  lemma {:induction false} LowBitsInjective(a: nat, b: nat, n: nat)
    requires LowBits(a, n) == LowBits(b, n) && a < Power(n) && b < Power(n)
    ensures a == b
  {
    if n > 0 {
      assert LowBits(a, n)[1..] == LowBits(a / 2, n - 1);
      assert LowBits(b, n)[1..] == LowBits(b / 2, n - 1);
      LowBitsInjective(a / 2, b / 2, n - 1);
      assert LowBits(a, n)[0] == LowBits(b, n)[0];
    }
  }

  lemma {:induction false} BitsInjective(s: bytes, t: bytes)
    requires |s| == |t| && Bits(s) == Bits(t)
    ensures s == t
  {
    if s != [] {
      assert Bits(s)[..8] == LowBits(s[0], 8) && Bits(s)[8..] == Bits(s[1..]);
      assert Bits(t)[..8] == LowBits(t[0], 8) && Bits(t)[8..] == Bits(t[1..]);
      assert Power(8) == 256 by { assert Power(4) == 16; }
      LowBitsInjective(s[0], t[0], 8);
      BitsInjective(s[1..], t[1..]);
      assert s == [s[0]] + s[1..] && t == [t[0]] + t[1..];
    }
  }

  lemma {:induction false} BitsAppend(s: bytes, t: bytes)
    ensures Bits(s + t) == Bits(s) + Bits(t)
  {
    if s == [] {
      assert s + t == t;
    } else {
      assert (s + t)[1..] == s[1..] + t;
      BitsAppend(s[1..], t);
    }
  }

  // ----- the register loses no information, and 32 bits fill it exactly -----

  lemma AbsorbInjective(c: bv32, d: bv32, bit: bool)
    requires Absorb(c, bit) == Absorb(d, bit)
    ensures c == d
  {
    hide Shift1, Mix, One;
    ShiftInjective(Mix(c, One(bit)), Mix(d, One(bit)));
    MixCancel(c, d, One(bit));
  }

  lemma {:induction false} AbsorbBitsInjective(c: bv32, d: bv32, s: seq<bool>)
    requires AbsorbBits(c, s) == AbsorbBits(d, s)
    ensures c == d
    decreases s
  {
    hide Absorb;
    if s != [] {
      AbsorbBitsInjective(Absorb(c, s[0]), Absorb(d, s[0]), s[1..]);
      AbsorbInjective(c, d, s[0]);
    }
  }

  /** Up to 32 bits fed to one register are determined by where the register ends. */
  lemma WindowInjective(c: bv32, s: seq<bool>, t: seq<bool>)
    requires |s| == |t| <= 32 && AbsorbBits(c, s) == AbsorbBits(c, t)
    ensures s == t
  {
    hide Rounds, Mix, Word, AbsorbBits;
    RoundsAreBits(c, s);
    RoundsAreBits(c, t);
    RoundsInjective(Mix(c, Word(s)), Mix(c, Word(t)), |s|);
    MixCancelLeft(c, Word(s), Word(t));
    WordInjective(s, t);
  }

  lemma ThreeParts(c: bv32, front: seq<bool>, mid: seq<bool>, back: seq<bool>)
    ensures AbsorbBits(c, front + mid + back) == AbsorbBits(AbsorbBits(AbsorbBits(c, front), mid), back)
  {
    AbsorbBitsAppend(c, front + mid, back);
    AbsorbBitsAppend(c, front, mid);
  }

  /** A window of at most 32 bits still shows after any following bits. */
  lemma WindowSurvives(c: bv32, front: seq<bool>, was: seq<bool>, now: seq<bool>, back: seq<bool>)
    requires |was| == |now| <= 32
    requires AbsorbBits(c, front + was + back) == AbsorbBits(c, front + now + back)
    ensures was == now
  {
    hide AbsorbBits;
    ThreeParts(c, front, was, back);
    ThreeParts(c, front, now, back);
    var d := AbsorbBits(c, front);
    AbsorbBitsInjective(AbsorbBits(d, was), AbsorbBits(d, now), back);
    WindowInjective(d, was, now);
  }

  // ----- bursts -----

  /** The messages differ only inside the 32 bits from bit `k` on. */
  ghost predicate SameOutside(s: bytes, t: bytes, k: nat)
  {
    |s| == |t| && forall i :: 0 <= i < 8 * |s| && !(k <= i < k + 32) ==> Bits(s)[i] == Bits(t)[i]
  }

  lemma BurstShows(c: bv32, s: bytes, t: bytes, k: nat)
    requires SameOutside(s, t, k) && AbsorbAll(c, s) == AbsorbAll(c, t)
    ensures s == t
  {
    hide AbsorbAll, AbsorbBits;
    BytesAreBits(c, s);
    BytesAreBits(c, t);
    var a, b := Bits(s), Bits(t);
    var from := if k <= |a| then k else |a|;
    var to := if k + 32 <= |a| then k + 32 else |a|;
    assert a == a[..from] + a[from..to] + a[to..];
    assert b == a[..from] + b[from..to] + a[to..];
    WindowSurvives(c, a[..from], a[from..to], b[from..to], a[to..]);
    assert a == b;
    BitsInjective(s, t);
  }

  /** Four consecutive bytes are 32 consecutive bits. */
  lemma ByteWindow(front: bytes, was: bytes, now: bytes, back: bytes)
    requires |was| == |now| <= 4
    ensures SameOutside(front + was + back, front + now + back, 8 * |front|)
  {
    BitsAppend(front + was, back);
    BitsAppend(front, was);
    BitsAppend(front + now, back);
    BitsAppend(front, now);
  }
}
