// Envelopes and base64 texts in literal characters, apart from the functions that build them.
module Layouts {
  import opened Wrappers
  import opened ByteOrder
  import opened Sextets
  import opened Base64
  import opened Compression
  import opened Envelopes

  // ----- base64 -----

  /** The test vectors of RFC 4648, section 10, for "f", "fo" and "foo", and the same without padding. */
  lemma TestVectors()
    ensures Encoded(Standard, Ascii("f")) == Ascii("Zg==") && Encoded(UrlSafe, Ascii("f")) == Ascii("Zg")
    ensures Encoded(Standard, Ascii("fo")) == Ascii("Zm8=") && Encoded(UrlSafe, Ascii("fo")) == Ascii("Zm8")
    ensures Encoded(Standard, Ascii("foo")) == Ascii("Zm9v") && Encoded(UrlSafe, Ascii("foo")) == Ascii("Zm9v")
  {
    hide Ascii, Pack, Symbols, Symbol;
    VectorBytes();
    VectorGroups();
    VectorSymbols(Standard);
    VectorSymbols(UrlSafe);
  }

  /** The two characters in which the alphabets differ. */
  lemma LastTwoSymbols()
    ensures Encoded(Standard, [0xFB, 0xFF]) == Ascii("+/8=")
    ensures Encoded(UrlSafe, [0xFB, 0xFF]) == Ascii("-_8")
  {
    hide Ascii, Pack, Symbols, Symbol;
    VectorBytes();
    VectorGroups();
    LastSymbols();
  }

  lemma VectorBytes()
    ensures Ascii("f") == [102] && Ascii("fo") == [102, 111] && Ascii("foo") == [102, 111, 111]
    ensures Ascii("Zg==") == [90, 103] + [PAD, PAD] && Ascii("Zg") == [90, 103] && Ascii("Zm8=") == [90, 109, 56] + [PAD]
    ensures Ascii("Zm8") == [90, 109, 56] && Ascii("Zm9v") == [90, 109, 57, 118]
    ensures Ascii("+/8=") == [43, 47, 56] + [PAD] && Ascii("-_8") == [45, 95, 56]
  {
  }

  lemma VectorGroups()
    ensures Pack([102]) == [25, 32] && Pack([102, 111]) == [25, 38, 60] && Pack([102, 111, 111]) == [25, 38, 61, 47]
    ensures Pack([0xFB, 0xFF]) == [62, 63, 60]
  {
    assert [102, 111, 111][3..] == [];
  }

  lemma VectorSymbols(a: Alphabet)
    ensures Symbols(a, [25, 32]) == [90, 103] && Symbols(a, [25, 38, 60]) == [90, 109, 56]
    ensures Symbols(a, [25, 38, 61, 47]) == [90, 109, 57, 118]
  {
  }

  lemma LastSymbols()
    ensures Symbols(Standard, [62, 63, 60]) == [43, 47, 56] && Symbols(UrlSafe, [62, 63, 60]) == [45, 95, 56]
  {
  }

  /** Which refusal a text gets: first for more than two "=" at its end, then for a number of other
      characters that leaves one over, and then for a character outside the alphabet. */
  lemma TextRefused(a: Alphabet, s: bytes, pads: bytes)
    requires (s == [] || s[|s| - 1] != 61) && forall i :: 0 <= i < |pads| ==> pads[i] == 61
    ensures |pads| > 2 ==> DecodedAs(a, s + pads) == TooMuchPadding
    ensures |pads| <= 2 && |s| % 4 == 1 ==> DecodedAs(a, s + pads) == InvalidLength
    ensures |pads| <= 2 && |s| % 4 != 1 && (exists i :: 0 <= i < |s| && Value(a, s[i]) < 0) ==>
              DecodedAs(a, s + pads) == InvalidCharacter
  {
    hide Value, Unpack, Values, Stripped;
    StrippedIs(s + pads, |s|);
    assert (s + pads)[..|s|] == s;
  }

  // ----- envelopes -----

  /** What an envelope that is not text looks like: "ENV1", a byte with bit 0 for compressed, bit 1 for
      encrypted and bit 2 for signed, the body, and behind a signed one the tag over all of it. */
  lemma EnvelopeLayout(c: Config, p: Primitives, nonce: bytes, d: bytes)
    requires |d| < TWO_64 && c.mode.Plain? && Wrapped(c, p, Some(nonce), d).Success?
    ensures var s := Wrapped(c, p, Some(nonce), d).value;
            var body := SealedBody(c, p, nonce, if c.compress then ToLittleEndian(|d|, 8) + p.zlib.deflate(d) else d);
            var framed := Ascii("ENV1") + [(if c.compress then 1 else 0) + (if c.encrypt then 2 else 0) + (if c.sign then 4 else 0)] + body;
            s == if c.sign then framed + p.hmac(c.signKey, framed) else framed
  {
    Magic();
    hide Ascii, Encrypted;
    BodyIs(c, p, nonce, d);
  }

  lemma BodyIs(c: Config, p: Primitives, nonce: bytes, d: bytes)
    requires |d| < TWO_64 && (c.encrypt ==> c.encryptKey.Some?)
    ensures Body(c, p, nonce, d) == SealedBody(c, p, nonce, if c.compress then ToLittleEndian(|d|, 8) + p.zlib.deflate(d) else d)
  {
    hide ToLittleEndian;
  }

  lemma Magic()
    ensures Ascii("ENV1") == MAGIC
  {
  }

  function SealedBody(c: Config, p: Primitives, nonce: bytes, d: bytes): bytes
  {
    if c.encrypt && c.encryptKey.Some? then
      var s := p.lock(c.encryptKey.value, nonce, d);
      nonce + s.ciphertext + s.tag
    else d
  }

  /** What is refused for its header, whatever the receiver's configuration. */
  lemma HeaderRefused(c: Config, p: Primitives, s: bytes)
    requires c.mode.Plain?
    ensures |s| < 5 ==> Unwrapped(c, p, s) == Failure(TooShort)
    ensures |s| >= 5 && s[..4] != Ascii("ENV1") ==> Unwrapped(c, p, s) == Failure(BadMagic)
  {
    Magic();
  }

  /** A header without any of the three bits opens as what follows it, whatever the other five are. */
  lemma NoLayers(c: Config, p: Primitives, mask: byte, d: bytes)
    requires c.mode.Plain? && mask % 8 == 0
    ensures Unwrapped(c, p, Ascii("ENV1") + [mask] + d) == Success(d)
  {
    var s := Ascii("ENV1") + [mask] + d;
    Magic();
    assert s[..4] == MAGIC && s[4] == mask && s[5..|s|] == d;
    assert !HasBit(mask, 4) && !HasBit(mask, 2) && !HasBit(mask, 1);
  }

  /** The cap on what a size prefix may claim is 256 MiB. */
  lemma CapIs(z: Zlib, s: bytes)
    requires |s| >= 8
    ensures FromLittleEndian(s[..8]) > 0x1000_0000 <==> Decompressed(z, s) == ImplausiblyLarge
  {
    hide FromLittleEndian;
  }
}
