// envelope_t: compress, encrypt, sign and base64, each optional, behind a self-describing header.
module Envelopes {
  import opened Wrappers
  import opened ByteOrder
  import opened Base64
  import opened Compression

  // ----- the primitives, as far as the envelope relies on them -----

  const NONCE_SIZE: nat := 12
  const GCM_TAG_SIZE: nat := 16
  const HMAC_TAG_SIZE: nat := 32

  datatype Sealed = Sealed(ciphertext: bytes, tag: bytes)

  /** AES-256-GCM over (key, nonce, text), and HMAC-SHA256 over (key, text). */
  datatype Primitives = Primitives(
    zlib: Zlib,
    lock: (bytes, bytes, bytes) -> Sealed,
    unlock: (bytes, bytes, Sealed) -> Option<bytes>,
    hmac: (bytes, bytes) -> bytes)

  ghost predicate Sound(p: Primitives)
  {
    && Inverse(p.zlib)
    && (forall k: bytes, n: bytes, d: bytes :: |p.lock(k, n, d).tag| == GCM_TAG_SIZE)
    && (forall k: bytes, n: bytes, d: bytes :: p.unlock(k, n, p.lock(k, n, d)) == Some(d))
    && (forall k: bytes, d: bytes :: |p.hmac(k, d)| == HMAC_TAG_SIZE)
  }

  datatype Mode = Plain | Text(alphabet: Alphabet)

  datatype Config = Config(mode: Mode, compress: bool, encrypt: bool, encryptKey: Option<bytes>, sign: bool, signKey: bytes)

  datatype EnvelopeError =
    | NoEncryptKey
    | NoSignKey
    | NoNonce
    | BadText(why: Decoded)
    | TooShort
    | BadMagic
    | SignedWithoutKey
    | TooShortForTag
    | BadSignature
    | EncryptedWithoutKey
    | TooShortForNonce
    | BadCiphertext
    | BadCompression(cause: Inflated)

  type Outcome = Result<bytes, EnvelopeError>

  const MAGIC: bytes := ['E' as int, 'N' as int, 'V' as int, '1' as int]
  const HEADER_SIZE: nat := 5

  function MaskOf(c: Config): (m: byte)
  {
    (if c.compress then 1 else 0) + (if c.encrypt then 2 else 0) + (if c.sign then 4 else 0)
  }

  predicate HasBit(mask: byte, bit: int)
    requires bit > 0
  {
    mask / bit % 2 == 1
  }

  // ----- aes_gcm_encrypt and aes_gcm_decrypt around the cipher -----

  function Encrypted(p: Primitives, key: bytes, nonce: bytes, d: bytes): bytes
  {
    var s := p.lock(key, nonce, d);
    nonce + s.ciphertext + s.tag
  }

  function Decrypted(p: Primitives, key: bytes, s: bytes): Outcome
  {
    if |s| < NONCE_SIZE + GCM_TAG_SIZE then Failure(TooShortForNonce)
    else match p.unlock(key, s[..NONCE_SIZE], Sealed(s[NONCE_SIZE..|s| - GCM_TAG_SIZE], s[|s| - GCM_TAG_SIZE..]))
      case Some(d) => Success(d)
      case None => Failure(BadCiphertext)
  }

  lemma DecryptEncrypt(p: Primitives, key: bytes, nonce: bytes, d: bytes)
    requires Sound(p) && |nonce| == NONCE_SIZE
    ensures Decrypted(p, key, Encrypted(p, key, nonce, d)) == Success(d)
  {
    var sealed := p.lock(key, nonce, d);
    var s := Encrypted(p, key, nonce, d);
    assert s[..NONCE_SIZE] == nonce;
    assert s[NONCE_SIZE..|s| - GCM_TAG_SIZE] == sealed.ciphertext;
    assert s[|s| - GCM_TAG_SIZE..] == sealed.tag;
  }

  // ----- wrap and unwrap, layer by layer -----

  /** What goes behind the header. */
  function Body(c: Config, p: Primitives, nonce: bytes, d: bytes): bytes
    requires |d| < TWO_64 && (c.encrypt ==> c.encryptKey.Some?)
  {
    var squeezed := if c.compress then Compressed(p.zlib, d) else d;
    if c.encrypt then Encrypted(p, c.encryptKey.value, nonce, squeezed) else squeezed
  }

  function Framed(c: Config, p: Primitives, nonce: bytes, d: bytes): bytes
    requires |d| < TWO_64 && (c.encrypt ==> c.encryptKey.Some?)
  {
    MAGIC + [MaskOf(c)] + Body(c, p, nonce, d)
  }

  /** The envelope of some data; the nonce is what RAND_bytes delivers, if it does. */
  function Wrapped(c: Config, p: Primitives, nonce: Option<bytes>, d: bytes): Outcome
    requires |d| < TWO_64
  {
    if c.encrypt && c.encryptKey.None? then Failure(NoEncryptKey)
    else if c.sign && c.signKey == [] then Failure(NoSignKey)
    else if c.encrypt && nonce.None? then Failure(NoNonce)
    else
      var framed := Framed(c, p, if nonce.Some? then nonce.value else [], d);
      var signed := if c.sign then framed + p.hmac(c.signKey, framed) else framed;
      Success(if c.mode.Text? then Encoded(c.mode.alphabet, signed) else signed)
  }

  /** From the header on: the mask alone says which layers there are. */
  function Opened(c: Config, p: Primitives, framed: bytes): Outcome
  {
    if |framed| < HEADER_SIZE then Failure(TooShort)
    else if framed[..4] != MAGIC then Failure(BadMagic)
    else
      var mask := framed[4];
      if HasBit(mask, 4) then
        if c.signKey == [] then Failure(SignedWithoutKey)
        else if |framed| < HEADER_SIZE + HMAC_TAG_SIZE then Failure(TooShortForTag)
        else
          var end := |framed| - HMAC_TAG_SIZE;
          if p.hmac(c.signKey, framed[..end]) != framed[end..] then Failure(BadSignature)
          else OpenedBody(c, p, mask, framed[HEADER_SIZE..end])
      else OpenedBody(c, p, mask, framed[HEADER_SIZE..|framed|])
  }

  function OpenedBody(c: Config, p: Primitives, mask: byte, payload: bytes): Outcome
  {
    if HasBit(mask, 2) then
      if c.encryptKey.None? then Failure(EncryptedWithoutKey)
      else match Decrypted(p, c.encryptKey.value, payload)
        case Success(d) => OpenedPayload(p, mask, d)
        case Failure(f) => Failure(f)
    else OpenedPayload(p, mask, payload)
  }

  function OpenedPayload(p: Primitives, mask: byte, payload: bytes): Outcome
  {
    if HasBit(mask, 1) then
      match Decompressed(p.zlib, payload)
      case Payload(d) => Success(d)
      case bad => Failure(BadCompression(bad))
    else Success(payload)
  }

  function Unwrapped(c: Config, p: Primitives, s: bytes): Outcome
  {
    if c.mode.Plain? then Opened(c, p, s)
    else match DecodedAs(c.mode.alphabet, s)
      case Data(framed) => Opened(c, p, framed)
      case bad => Failure(BadText(bad))
  }

  class Envelope {
    const config: Config

    constructor (config: Config)
      ensures this.config == config
    {
      this.config := config;
    }

    method Wrap(p: Primitives, nonce: Option<bytes>, data: bytes) returns (r: Outcome)
      requires |data| < TWO_64
      ensures r == Wrapped(config, p, nonce, data)
    {
      if config.encrypt && config.encryptKey.None? {
        return Failure(NoEncryptKey);
      }
      if config.sign && config.signKey == [] {
        return Failure(NoSignKey);
      }
      var payload := data;
      if config.compress {
        payload := ZlibCompress(p.zlib, payload);
      }
      if config.encrypt {
        if nonce.None? {
          return Failure(NoNonce);
        }
        payload := Encrypted(p, config.encryptKey.value, nonce.value, payload);
      }
      var framed := MAGIC;
      framed := framed + [MaskOf(config)];
      framed := framed + payload;
      if config.sign {
        var tag := p.hmac(config.signKey, framed);
        framed := framed + tag;
      }
      if config.mode.Text? {
        var text := Base64Encode(framed, config.mode.alphabet);
        return Success(text);
      }
      r := Success(framed);
    }

    method Unwrap(p: Primitives, data: bytes) returns (r: Outcome)
      ensures r == Unwrapped(config, p, data)
    {
      var framed := data;
      if config.mode.Text? {
        var decoded := Base64Decode(data, config.mode.alphabet);
        if !decoded.Data? {
          return Failure(BadText(decoded));
        }
        framed := decoded.data;
      }
      if |framed| < HEADER_SIZE {
        return Failure(TooShort);
      }
      if framed[..4] != MAGIC {
        return Failure(BadMagic);
      }
      var mask := framed[4];
      var bodyEnd := |framed|;
      if HasBit(mask, 4) {
        if config.signKey == [] {
          return Failure(SignedWithoutKey);
        }
        if |framed| < HEADER_SIZE + HMAC_TAG_SIZE {
          return Failure(TooShortForTag);
        }
        bodyEnd := |framed| - HMAC_TAG_SIZE;
        var expected := p.hmac(config.signKey, framed[..bodyEnd]);
        if expected != framed[bodyEnd..] {
          return Failure(BadSignature);
        }
      }
      var payload := framed[HEADER_SIZE..bodyEnd];
      if HasBit(mask, 2) {
        if config.encryptKey.None? {
          return Failure(EncryptedWithoutKey);
        }
        var decrypted := Decrypted(p, config.encryptKey.value, payload);
        if decrypted.Failure? {
          return decrypted;
        }
        payload := decrypted.value;
      }
      if HasBit(mask, 1) {
        var decompressed := ZlibDecompress(p.zlib, payload);
        if !decompressed.Payload? {
          return Failure(BadCompression(decompressed));
        }
        payload := decompressed.data;
      }
      r := Success(payload);
    }
  }

  // ----- what the pair promises -----

  /** The receiver has the base64 mode of the sender, and the keys of the layers the sender used. */
  predicate Agrees(sender: Config, receiver: Config)
  {
    && receiver.mode == sender.mode
    && (sender.encrypt ==> receiver.encryptKey == sender.encryptKey)
    && (sender.sign ==> receiver.signKey == sender.signKey)
  }

  lemma MaskBits(c: Config)
    ensures HasBit(MaskOf(c), 1) <==> c.compress
    ensures HasBit(MaskOf(c), 2) <==> c.encrypt
    ensures HasBit(MaskOf(c), 4) <==> c.sign
  {
  }

  /** Whatever layers the sender used and whatever the receiver's own switches say, a receiver that
      agrees on mode and keys gets the data back; only data beyond the decompression cap, sent
      compressed, is refused. */
  lemma UnwrapWrap(sender: Config, receiver: Config, p: Primitives, nonce: Option<bytes>, d: bytes)
    requires Sound(p) && |d| < TWO_64 && (nonce.Some? ==> |nonce.value| == NONCE_SIZE)
    requires Agrees(sender, receiver) && Wrapped(sender, p, nonce, d).Success?
    ensures Unwrapped(receiver, p, Wrapped(sender, p, nonce, d).value)
            == if sender.compress && |d| > MAX_UNCOMPRESSED then Failure(BadCompression(ImplausiblyLarge)) else Success(d)
  {
    hide Opened, Framed, Encoded, DecodedAs;
    var framed := Framed(sender, p, if nonce.Some? then nonce.value else [], d);
    var signed := if sender.sign then framed + p.hmac(sender.signKey, framed) else framed;
    if sender.mode.Text? {
      RoundTrip(sender.mode.alphabet, signed, []);
    }
    OpenFramed(sender, receiver, p, if nonce.Some? then nonce.value else [], d, signed);
  }

  lemma OpenFramed(sender: Config, receiver: Config, p: Primitives, nonce: bytes, d: bytes, signed: bytes)
    requires Sound(p) && |d| < TWO_64 && Agrees(sender, receiver)
    requires sender.encrypt ==> sender.encryptKey.Some? && |nonce| == NONCE_SIZE
    requires sender.sign ==> sender.signKey != []
    requires var framed := Framed(sender, p, nonce, d);
             signed == if sender.sign then framed + p.hmac(sender.signKey, framed) else framed
    ensures Opened(receiver, p, signed)
            == if sender.compress && |d| > MAX_UNCOMPRESSED then Failure(BadCompression(ImplausiblyLarge)) else Success(d)
  {
    hide Body, OpenedBody, MaskOf, HasBit;
    MaskBits(sender);
    OpenBody(sender, receiver, p, nonce, d);
    var framed := Framed(sender, p, nonce, d);
    assert signed[..4] == MAGIC && signed[4] == MaskOf(sender);
    assert signed[..|framed|] == framed;
    assert signed[HEADER_SIZE..|framed|] == Body(sender, p, nonce, d);
  }

  lemma OpenBody(sender: Config, receiver: Config, p: Primitives, nonce: bytes, d: bytes)
    requires Sound(p) && |d| < TWO_64 && Agrees(sender, receiver)
    requires sender.encrypt ==> sender.encryptKey.Some? && |nonce| == NONCE_SIZE
    ensures OpenedBody(receiver, p, MaskOf(sender), Body(sender, p, nonce, d))
            == if sender.compress && |d| > MAX_UNCOMPRESSED then Failure(BadCompression(ImplausiblyLarge)) else Success(d)
  {
    hide Encrypted, Decrypted, Compressed, Decompressed, MaskOf, HasBit;
    MaskBits(sender);
    if sender.compress {
      DecompressCompress(p.zlib, d);
    }
    if sender.encrypt {
      DecryptEncrypt(p, sender.encryptKey.value, nonce, if sender.compress then Compressed(p.zlib, d) else d);
    }
  }

  /** Wrapping fails only for a missing key or a missing nonce. */
  lemma WrapSucceeds(c: Config, p: Primitives, nonce: Option<bytes>, d: bytes)
    requires |d| < TWO_64
    ensures Wrapped(c, p, nonce, d).Success? <==>
              (c.encrypt ==> c.encryptKey.Some? && nonce.Some?) && (c.sign ==> c.signKey != [])
  {
  }

  /** Nothing behind a header whose sign bit is set is acted on unless the tag is the key's tag over
      every byte before it. */
  lemma SignedIsVerified(c: Config, p: Primitives, framed: bytes)
    requires |framed| >= HEADER_SIZE && HasBit(framed[4], 4) && Opened(c, p, framed).Success?
    ensures c.signKey != [] && |framed| >= HEADER_SIZE + HMAC_TAG_SIZE
    ensures var end := |framed| - HMAC_TAG_SIZE; framed[end..] == p.hmac(c.signKey, framed[..end])
  {
  }

  // ----- what the signature does for the mask -----

  /** Past the signature, no failure speaks of it. */
  lemma BodyFailures(c: Config, p: Primitives, mask: byte, payload: bytes)
    ensures OpenedBody(c, p, mask, payload) != Failure(SignedWithoutKey)
    ensures OpenedBody(c, p, mask, payload) != Failure(BadSignature)
  {
  }

  lemma BodyIgnoresSignKey(c: Config, p: Primitives, mask: byte, payload: bytes, k: bytes)
    ensures OpenedBody(c.(signKey := k), p, mask, payload) == OpenedBody(c, p, mask, payload)
  {
  }

  /** The signature key has a say in what unwrap does if and only if the header's own sign bit is
      set, whatever the receiver's configuration says about signing. */
  lemma KeyConsultedExactly(c: Config, p: Primitives, framed: bytes)
    requires |framed| >= HEADER_SIZE && framed[..4] == MAGIC
    ensures (forall k: bytes, l: bytes :: Opened(c.(signKey := k), p, framed) == Opened(c.(signKey := l), p, framed))
       <==> !HasBit(framed[4], 4)
  {
    hide OpenedBody, HasBit;
    if HasBit(framed[4], 4) {
      assert Opened(c.(signKey := []), p, framed) == Failure(SignedWithoutKey);
      if |framed| >= HEADER_SIZE + HMAC_TAG_SIZE {
        BodyFailures(c.(signKey := [0]), p, framed[4], framed[HEADER_SIZE..|framed| - HMAC_TAG_SIZE]);
      }
      assert Opened(c.(signKey := [0]), p, framed) != Failure(SignedWithoutKey);
    } else {
      forall k: bytes
        ensures Opened(c.(signKey := k), p, framed) == Opened(c, p, framed)
      {
        BodyIgnoresSignKey(c, p, framed[4], framed[HEADER_SIZE..|framed|], k);
      }
    }
  }

  /** A signed envelope whose mask byte has been replaced is refused for its signature if and only if
      the new mask has the sign bit and the changed header has another tag. */
  lemma ChangedMaskRefused(receiver: Config, p: Primitives, framed: bytes, m: byte)
    requires Sound(p) && |framed| >= HEADER_SIZE && framed[..4] == MAGIC && receiver.signKey != []
    ensures Opened(receiver, p, framed[4 := m] + p.hmac(receiver.signKey, framed)) == Failure(BadSignature)
       <==> HasBit(m, 4) && p.hmac(receiver.signKey, framed[4 := m]) != p.hmac(receiver.signKey, framed)
    ensures !HasBit(m, 4) ==>
              var s := framed[4 := m] + p.hmac(receiver.signKey, framed);
              Opened(receiver, p, s) == OpenedBody(receiver, p, m, s[HEADER_SIZE..])
  {
    hide OpenedBody, HasBit;
    var tag := p.hmac(receiver.signKey, framed);
    var changed := framed[4 := m];
    var s := changed + tag;
    assert s[..4] == framed[..4] && s[4] == m;
    assert s[..|changed|] == changed && s[|changed|..] == tag;
    assert s[HEADER_SIZE..|s|] == s[HEADER_SIZE..];
    BodyFailures(receiver, p, m, s[HEADER_SIZE..|changed|]);
    BodyFailures(receiver, p, m, s[HEADER_SIZE..]);
  }

  /** An input on which the documented refusal does not happen: an envelope that is signed and nothing
      else, with its mask set to zero, opens for every receiver as its payload followed by the tag. */
  lemma ZeroedMaskOpens(sender: Config, receiver: Config, p: Primitives, d: bytes)
    requires Sound(p) && |d| < TWO_64 && receiver.mode.Plain?
    requires sender == Config(Plain, false, false, None, true, sender.signKey) && sender.signKey != []
    ensures Wrapped(sender, p, None, d).Success?
    ensures var s := Wrapped(sender, p, None, d).value;
            && |s| == HEADER_SIZE + |d| + HMAC_TAG_SIZE
            && Unwrapped(receiver, p, s[4 := 0]) == Success(s[HEADER_SIZE..])
            && Unwrapped(receiver, p, s[4 := 0]) != Success(d)
  {
    var s := Wrapped(sender, p, None, d).value;
    var z := s[4 := 0];
    assert z[..4] == MAGIC && z[4] == 0;
    assert z[HEADER_SIZE..|z|] == s[HEADER_SIZE..];
    assert |s[HEADER_SIZE..]| == |d| + HMAC_TAG_SIZE;
  }

  // ----- the assumptions can be met, and the cap is reached -----

  function Zeros(n: nat): (s: bytes)
    ensures |s| == n
  {
    seq(n, _ => 0)
  }

  /** Primitives without any secrecy, which show that the assumptions are consistent. */
  const TRANSPARENT: Primitives := Primitives(
    Zlib((d: bytes) => d, (s: bytes, n: nat) => Some(s)),
    (k: bytes, n: bytes, d: bytes) => Sealed(d, Zeros(GCM_TAG_SIZE)),
    (k: bytes, n: bytes, s: Sealed) => Some(s.ciphertext),
    (k: bytes, d: bytes) => Zeros(HMAC_TAG_SIZE))

  lemma SoundPrimitivesExist()
    ensures exists p :: Sound(p)
  {
    assert Sound(TRANSPARENT);
  }

  /** One byte past the cap, sent compressed and otherwise plain, comes back as the refusal. */
  lemma RefusedPastCap(p: Primitives)
    requires Sound(p)
    ensures var c, d := Config(Plain, true, false, None, false, []), Zeros(MAX_UNCOMPRESSED + 1);
            && Wrapped(c, p, None, d).Success?
            && Unwrapped(c, p, Wrapped(c, p, None, d).value) == Failure(BadCompression(ImplausiblyLarge))
  {
    var c, d := Config(Plain, true, false, None, false, []), Zeros(MAX_UNCOMPRESSED + 1);
    hide Framed, Opened, Zeros;
    UnwrapWrap(c, c, p, None, d);
  }
}
