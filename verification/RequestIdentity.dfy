/** Validation of create requests and the byte string whose hash identifies a request. */
module RequestIdentity {
  import opened Common
  import opened Wire
  import opened Messages
  import opened Canonical

  const PROTOCOL_VERSION := 2
  const CAPTCHA_FLAG: nat := 1
  const PASSWORD_FLAG: nat := 2
  const BURN_FLAG: nat := 4
  const KEY_LENGTH := 32
  const STORAGE_KEY_LENGTH := 16
  const NONCE_LENGTH := 24
  const SALT_LENGTH := 16
  const KIND_URL := 0
  const KIND_MARKDOWN := 1
  const PROFILE_ARGON2D_V1 := 1

  predicate HasFlag(flags: Uint32, flag: nat)
    requires flag > 0
  {
    flags / flag % 2 == 1
  }

  /** validateMetadata; the three known flags are the low three bits. */
  predicate ValidMetadata(m: EnvelopeMetadata, allowedTtls: set<Uint32>) {
    && m.protocolVersion == PROTOCOL_VERSION
    && m.featureFlags < 8
    && |m.payloadNonce| == NONCE_LENGTH
    && m.ttlSeconds in allowedTtls
    && HasFlag(m.featureFlags, PASSWORD_FLAG) == m.password.Some?
    && (m.password.Some? ==>
          && |m.password.value.salt| == SALT_LENGTH
          && |m.password.value.nonce| == NONCE_LENGTH
          && m.password.value.profile == PROFILE_ARGON2D_V1)
    && HasFlag(m.featureFlags, CAPTCHA_FLAG) == m.captcha.Some?
    && (m.captcha.Some? ==> |m.captcha.value.nonce| == NONCE_LENGTH)
    && (m.payloadKind == KIND_URL || m.payloadKind == KIND_MARKDOWN)
  }

  predicate CaptchaEnabled(m: CreateRequest)
    requires m.envelope.Some? && m.envelope.value.metadata.Some?
  {
    HasFlag(m.envelope.value.metadata.value.featureFlags, CAPTCHA_FLAG)
  }

  /** The checks of createEnvelope that come before the request hash. */
  predicate ValidRequest(m: CreateRequest, allowedTtls: set<Uint32>) {
    && |m.storageKey| == STORAGE_KEY_LENGTH
    && m.envelope.Some? && m.envelope.value.metadata.Some?
    && ValidMetadata(m.envelope.value.metadata.value, allowedTtls)
    && |m.captchaKey| == (if CaptchaEnabled(m) then KEY_LENGTH else 0)
    && m.envelope.value.ciphertext != []
  }

  /** What createEnvelope feeds to SHA-256. */
  function IdentityBytes(m: CreateRequest): Bytes
    requires m.envelope.Some? && m.envelope.value.metadata.Some?
  {
    m.storageKey + EncodeEnvelope(m.envelope.value) + (if CaptchaEnabled(m) then m.captchaKey else [])
  }

  lemma AppendToField(tag: Byte, v: Bytes, tail: Bytes, suffix: Bytes)
    ensures PutPresent(tag, v, tail) + suffix == PutPresent(tag, v, tail + suffix)
  {
    assert (v + tail) + suffix == v + (tail + suffix);
  }

  /** An encoded envelope starts with its metadata, length first, whatever follows it. */
  lemma EnvelopeStartsWithMetadata(e: Envelope, suffix: Bytes)
    requires e.metadata.Some? && |EncodeMetadata(e.metadata.value)| < TWO63
    ensures var d := EncodeEnvelope(e) + suffix;
            && d != []
            && TakeBytes(d[1..]).Some?
            && TakeBytes(d[1..]).value.0 == EncodeMetadata(e.metadata.value)
  {
    var metadata := EncodeMetadata(e.metadata.value);
    var fields := PutBytes(0x12, e.ciphertext, e.unknown);
    AppendToField(0x0a, metadata, fields, suffix);
    var d := PutPresent(0x0a, metadata, fields + suffix);
    assert d[1..] == Varint(|metadata|) + (metadata + (fields + suffix));
    TakeBytesInverts(metadata, fields + suffix);
  }

  lemma SameMetadata(e1: Envelope, e2: Envelope, suffix1: Bytes, suffix2: Bytes)
    requires e1.metadata.Some? && |EncodeMetadata(e1.metadata.value)| < TWO63
    requires e2.metadata.Some? && |EncodeMetadata(e2.metadata.value)| < TWO63
    requires !HasUnknownMetadata(e1.metadata.value) && !HasUnknownMetadata(e2.metadata.value)
    requires EncodeEnvelope(e1) + suffix1 == EncodeEnvelope(e2) + suffix2
    ensures e1.metadata == e2.metadata
  {
    EnvelopeStartsWithMetadata(e1, suffix1);
    EnvelopeStartsWithMetadata(e2, suffix2);
    MetadataRoundTrip(e1.metadata.value);
    MetadataRoundTrip(e2.metadata.value);
  }

  /** Concatenations whose second parts are equally long split in one way. */
  lemma SplitAtEqualSuffix(a: Bytes, x: Bytes, b: Bytes, y: Bytes)
    requires a + x == b + y && |x| == |y|
    ensures a == b && x == y
  {
    assert a == (a + x)[..|a|] && b == (b + y)[..|b|];
    assert x == (a + x)[|a|..] && y == (b + y)[|b|..];
  }

  /** Before hashing, the identity is injective: equal byte strings come from requests with the
      same storage key, envelope and CAPTCHA key. */
  lemma IdentityIsInjective(m1: CreateRequest, m2: CreateRequest, allowedTtls: set<Uint32>)
    requires ValidRequest(m1, allowedTtls) && ValidRequest(m2, allowedTtls)
    requires !HasUnknownRequest(m1) && !HasUnknownRequest(m2)
    requires |EncodeRequest(m1)| < TWO63 && |EncodeRequest(m2)| < TWO63
    requires IdentityBytes(m1) == IdentityBytes(m2)
    ensures m1.storageKey == m2.storageKey && m1.envelope == m2.envelope && m1.captchaKey == m2.captchaKey
  {
    var e1, e2 := m1.envelope.value, m2.envelope.value;
    var b1, b2 := EncodeEnvelope(e1), EncodeEnvelope(e2);
    IdentityParts(m1);
    IdentityParts(m2);
    SmallerThanRequest(m1);
    SmallerThanRequest(m2);
    SameMetadata(e1, e2, m1.captchaKey, m2.captchaKey);
    SplitAtEqualSuffix(b1, m1.captchaKey, b2, m2.captchaKey);
    EnvelopeRoundTrip(e1);
    EnvelopeRoundTrip(e2);
  }

  lemma IdentityParts(m: CreateRequest)
    requires m.envelope.Some? && m.envelope.value.metadata.Some?
    requires |m.storageKey| == STORAGE_KEY_LENGTH && |m.captchaKey| == (if CaptchaEnabled(m) then KEY_LENGTH else 0)
    ensures IdentityBytes(m)[..STORAGE_KEY_LENGTH] == m.storageKey
    ensures IdentityBytes(m)[STORAGE_KEY_LENGTH..] == EncodeEnvelope(m.envelope.value) + m.captchaKey
  {
    hide EncodeEnvelope, HasFlag;
    assert CaptchaEnabled(m) || m.captchaKey == [];
    assert IdentityBytes(m) == m.storageKey + (EncodeEnvelope(m.envelope.value) + m.captchaKey);
  }

  lemma SmallerThanRequest(m: CreateRequest)
    requires m.envelope.Some? && m.envelope.value.metadata.Some?
    ensures |EncodeMetadata(m.envelope.value.metadata.value)| <= |EncodeEnvelope(m.envelope.value)|
         <= |EncodeRequest(m)|
  {
    RequestSize(m);
    EnvelopeSize(m.envelope.value);
    MetadataSize(m.envelope.value.metadata.value);
  }

  /** A replay is the same request: unless the hash collides on the two, equal request hashes come from requests with
      the same storage key, envelope and CAPTCHA key. */
  lemma ReplayIsSameRequest(sha256: Bytes -> Bytes, m1: CreateRequest, m2: CreateRequest, allowedTtls: set<Uint32>)
    requires ValidRequest(m1, allowedTtls) && ValidRequest(m2, allowedTtls)
    requires !HasUnknownRequest(m1) && !HasUnknownRequest(m2)
    requires |EncodeRequest(m1)| < TWO63 && |EncodeRequest(m2)| < TWO63
    requires IdentityBytes(m1) != IdentityBytes(m2) ==> sha256(IdentityBytes(m1)) != sha256(IdentityBytes(m2))
    ensures sha256(IdentityBytes(m1)) == sha256(IdentityBytes(m2))
        <==> m1.storageKey == m2.storageKey && m1.envelope == m2.envelope && m1.captchaKey == m2.captchaKey
  {
    if IdentityBytes(m1) == IdentityBytes(m2) {
      IdentityIsInjective(m1, m2, allowedTtls);
    }
  }
}
