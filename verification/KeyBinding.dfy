/** What an envelope is bound to: its secret, its identifier, its keys and its metadata. */
module KeyBinding {
  import opened Common
  import opened Messages
  import opened Canonical
  import opened RequestIdentity
  import opened Protocol

  /** Under what a text is sealed. */
  datatype Context = Context(key: Bytes, nonce: Bytes, aad: Bytes)

  /** Nothing sealed under the one context opens under the other, unless they are the same. */
  ghost predicate Separates(c: Crypto, sealing: Context, opening: Context) {
    sealing != opening ==> forall text: Bytes ::
      c.open(opening.key, opening.nonce, c.seal(sealing.key, sealing.nonce, text, sealing.aad), opening.aad).None?
  }

  /** HKDF gives different keys for these two inputs, unless they are the same. */
  ghost predicate NoCollision(c: Crypto, material1: Bytes, salt1: Bytes, material2: Bytes, salt2: Bytes) {
    (material1, salt1) != (material2, salt2) ==> c.hkdf(material1, salt1) != c.hkdf(material2, salt2)
  }

  /** For any two contexts and any two inputs of HKDF there are functions with all these properties. */
  lemma SeparationIsConsistent(sealing: Context, opening: Context, material1: Bytes, salt1: Bytes, material2: Bytes,
                               salt2: Bytes)
    returns (c: Crypto)
    ensures Laws(c) && Separates(c, sealing, opening) && NoCollision(c, material1, salt1, material2, salt2)
  {
    var mark := (key: Bytes, nonce: Bytes, aad: Bytes) =>
      if Context(key, nonce, aad) == opening then Zeros(TAG_LENGTH) else [1] + Zeros(TAG_LENGTH - 1);
    c := Crypto(
      (key: Bytes, nonce: Bytes, text: Bytes, aad: Bytes) => text + mark(key, nonce, aad),
      (key: Bytes, nonce: Bytes, text: Bytes, aad: Bytes) =>
        if |text| < TAG_LENGTH || text[|text| - TAG_LENGTH..] != mark(key, nonce, aad) then None
        else Some(text[..|text| - TAG_LENGTH]),
      (key: Bytes, salt: Bytes) =>
        if (key, salt) == (material1, salt1) then Zeros(KEY_LENGTH) else [1] + Zeros(KEY_LENGTH - 1));
    forall key: Bytes, nonce: Bytes, text: Bytes, aad: Bytes
      ensures c.open(key, nonce, c.seal(key, nonce, text, aad), aad) == Some(text)
      ensures |c.seal(key, nonce, text, aad)| == |text| + TAG_LENGTH
    {
      var sealed := text + mark(key, nonce, aad);
      assert sealed[..|text|] == text && sealed[|text|..] == mark(key, nonce, aad);
    }
    forall text: Bytes | sealing != opening
      ensures var sealed := c.seal(sealing.key, sealing.nonce, text, sealing.aad);
              c.open(opening.key, opening.nonce, sealed, opening.aad).None?
    {
      var sealed := text + mark(sealing.key, sealing.nonce, sealing.aad);
      assert sealed[|text|..] == mark(sealing.key, sealing.nonce, sealing.aad);
      assert Zeros(TAG_LENGTH)[0] == 0;
    }
    assert Zeros(KEY_LENGTH)[0] == 0;
  }

  // ----- Another secret, another identifier -----

  /** The innermost text of an envelope, under the key that link material and identifier give. */
  lemma InnermostFails(c: Crypto, m: EnvelopeMetadata, finalKey: Bytes, otherKey: Bytes, options: EncryptOptions,
                       keys: DecryptOptions, payload: Bytes)
    requires Laws(c) && AcceptsMetadata(m)
    requires options.password.Some? == m.password.Some? && options.captchaKey.Some? == m.captcha.Some?
    requires options.password.Some? ==> |options.password.value.key| == KEY_LENGTH
    requires MatchingKeys(options, keys) && otherKey != finalKey
    requires Separates(c, Context(finalKey, m.payloadNonce, Aad(m)), Context(otherKey, m.payloadNonce, Aad(m)))
    ensures OpenLayers(c, m, otherKey, keys, SealLayers(c, m, finalKey, options, payload)) == Thrown(OpenFailed)
  {
    hide Laws, Aad, ParsePayload;
    var aad := Aad(m);
    var inner := c.seal(finalKey, m.payloadNonce, payload, aad);
    if m.password.Some? {
      OpensWhatItSealed(c, options.password.value.key, m.password.value.nonce, inner, aad, IncorrectPassword);
    }
    var middle := if m.password.None? then inner
                  else c.seal(options.password.value.key, m.password.value.nonce, inner, aad);
    if m.captcha.Some? {
      OpensWhatItSealed(c, options.captchaKey.value, m.captcha.value.nonce, middle, aad, OpenFailed);
    }
  }

  /**
   * An envelope opens under the secret and the identifier it was sealed for and under no others: with all layer keys
   * right, any other 32-byte secret or 8-byte identifier fails to open it. This holds unless HKDF collides on the two,
   * or the AEAD opens what was sealed under another key.
   */
  lemma OtherSecretFails(c: Crypto, content: PlainContent, id: Bytes, material: Bytes, options: EncryptOptions,
                         random: RandomSource, keys: DecryptOptions, otherId: Bytes, otherMaterial: Bytes)
    requires Laws(c) && MatchingKeys(options, keys) && Sealed(c, content, id, material, options, random).Ok?
    requires |otherId| == ID_LENGTH && |otherMaterial| == KEY_LENGTH
    requires otherId != id || otherMaterial != material
    requires var m := Sealed(c, content, id, material, options, random).value.metadata;
             m.Some? &&
             var nonce := m.value.payloadNonce;
             && NoCollision(c, material, id + nonce, otherMaterial, otherId + nonce)
             && Separates(c, Context(c.hkdf(material, id + nonce), nonce, Aad(m.value)),
                          Context(c.hkdf(otherMaterial, otherId + nonce), nonce, Aad(m.value)))
    ensures Opened(c, Sealed(c, content, id, material, options, random).value, otherId, otherMaterial, keys)
         == Thrown(OpenFailed)
  {
    hide PayloadOf, DrawMetadata, SealLayers, OpenLayers, ParsePayload, Separates, Laws, Aad, EncodePayload;
    var m := DrawMetadata(content, options, random).value;
    var payload := PayloadOf(content, random, NonceCount(options)).value;
    DrawnMetadataIsValid(content, options, random, id, material);
    DifferentSalts(id, otherId, m.payloadNonce);
    FinalKeyLength(c, material, id, m.payloadNonce);
    var finalKey, otherKey := c.hkdf(material, id + m.payloadNonce), c.hkdf(otherMaterial, otherId + m.payloadNonce);
    SealIsNotEmpty(c, m, finalKey, options, EncodePayload(payload));
    InnermostFails(c, m, finalKey, otherKey, options, keys, EncodePayload(payload));
  }

  lemma DifferentSalts(id: Bytes, otherId: Bytes, nonce: Bytes)
    requires |id| == |otherId|
    ensures id + nonce == otherId + nonce ==> id == otherId
  {
    assert (id + nonce)[..|id|] == id && (otherId + nonce)[..|id|] == otherId;
  }

  lemma SealIsNotEmpty(c: Crypto, m: EnvelopeMetadata, finalKey: Bytes, options: EncryptOptions, payload: Bytes)
    requires Laws(c) && AcceptsMetadata(m) && |finalKey| == KEY_LENGTH
    requires options.password.Some? == m.password.Some? && options.captchaKey.Some? == m.captcha.Some?
    requires options.password.Some? ==> |options.password.value.key| == KEY_LENGTH
    requires options.captchaKey.Some? ==> |options.captchaKey.value| == KEY_LENGTH
    ensures SealLayers(c, m, finalKey, options, payload) != []
  {
    hide Aad;
  }

  // ----- Other metadata -----

  /** Under what the outermost layer of an envelope was sealed. */
  ghost function Outermost(c: Crypto, m: EnvelopeMetadata, finalKey: Bytes, options: EncryptOptions): Context
    requires options.password.Some? == m.password.Some? && options.captchaKey.Some? == m.captcha.Some?
  {
    if m.captcha.Some? then Context(options.captchaKey.value, m.captcha.value.nonce, Aad(m))
    else if m.password.Some? then Context(options.password.value.key, m.password.value.nonce, Aad(m))
    else Context(finalKey, m.payloadNonce, Aad(m))
  }

  /** Under what an envelope with this metadata is opened first. */
  ghost function OpenedFirst(c: Crypto, m: EnvelopeMetadata, finalKey: Bytes, keys: DecryptOptions): Context
    requires (m.password.Some? ==> keys.passwordKey.Some?) && (m.captcha.Some? ==> keys.captchaKey.Some?)
  {
    if m.captcha.Some? then Context(keys.captchaKey.value, m.captcha.value.nonce, Aad(m))
    else if m.password.Some? then Context(keys.passwordKey.value, m.password.value.nonce, Aad(m))
    else Context(finalKey, m.payloadNonce, Aad(m))
  }

  lemma FirstLayerFails(c: Crypto, m: EnvelopeMetadata, finalKey: Bytes, options: EncryptOptions, payload: Bytes,
                        other: EnvelopeMetadata, otherKey: Bytes, keys: DecryptOptions)
    requires options.password.Some? == m.password.Some? && options.captchaKey.Some? == m.captcha.Some?
    requires (other.password.Some? ==> keys.passwordKey.Some?) && (other.captcha.Some? ==> keys.captchaKey.Some?)
    requires Outermost(c, m, finalKey, options) != OpenedFirst(c, other, otherKey, keys)
    requires Separates(c, Outermost(c, m, finalKey, options), OpenedFirst(c, other, otherKey, keys))
    ensures OpenLayers(c, other, otherKey, keys, SealLayers(c, m, finalKey, options, payload))
         == Thrown(if other.captcha.None? && other.password.Some? then IncorrectPassword else OpenFailed)
  {
    hide Aad, ParsePayload;
  }

  /**
   * No field of the metadata can be changed: put in front of the same ciphertext, other metadata, whatever keys,
   * secret and identifier go with it, does not open. This holds unless the AEAD opens the outermost layer under other
   * associated data.
   */
  lemma OtherMetadataFails(c: Crypto, content: PlainContent, id: Bytes, material: Bytes, options: EncryptOptions,
                           random: RandomSource, other: EnvelopeMetadata, otherId: Bytes, otherMaterial: Bytes,
                           keys: DecryptOptions)
    requires Laws(c) && Sealed(c, content, id, material, options, random).Ok?
    requires var e := Sealed(c, content, id, material, options, random).value;
             && e.metadata.Some? && Known(other) != e.metadata.value && |EncodeMetadata(e.metadata.value)| < TWO63
             && options.password.Some? == e.metadata.value.password.Some?
             && options.captchaKey.Some? == e.metadata.value.captcha.Some?
             && CheckDecryptInputs(e.(metadata := Some(other)), otherId, otherMaterial, keys).Ok?
             && var m := e.metadata.value;
                Separates(c, Outermost(c, m, c.hkdf(material, id + m.payloadNonce), options),
                          OpenedFirst(c, other, c.hkdf(otherMaterial, otherId + other.payloadNonce), keys))
    ensures var e := Sealed(c, content, id, material, options, random).value;
            Opened(c, e.(metadata := Some(other)), otherId, otherMaterial, keys)
            == Thrown(if other.captcha.None? && other.password.Some? then IncorrectPassword else OpenFailed)
  {
    hide PayloadOf, DrawMetadata, SealLayers, OpenLayers, ParsePayload, Separates, Laws, Aad, EncodePayload, Known;
    hide HasUnknownMetadata, AcceptsMetadata, CheckDecryptInputs;
    var m := DrawMetadata(content, options, random).value;
    var payload := PayloadOf(content, random, NonceCount(options)).value;
    DrawnMetadataIsValid(content, options, random, id, material);
    AadDiffers(m, other);
    FirstLayerFails(c, m, c.hkdf(material, id + m.payloadNonce), options, EncodePayload(payload), other,
      c.hkdf(otherMaterial, otherId + other.payloadNonce), keys);
  }

  lemma AadDiffers(m: EnvelopeMetadata, other: EnvelopeMetadata)
    requires !HasUnknownMetadata(m) && Known(m) == m && Known(other) != m && |EncodeMetadata(m)| < TWO63
    ensures Aad(m) != Aad(other)
  {
    hide EncodeMetadata;
    if Aad(m) == Aad(other) {
      assert Known(Known(other)) == Known(other) && !HasUnknownMetadata(Known(other));
      AadBindsMetadata(m, Known(other));
    }
  }
}
