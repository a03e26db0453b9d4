/** From a decoded create request to the record it stores, and what a second request under its key is told. */
module CreateHandler {
  import opened Common
  import opened Messages
  import opened Canonical
  import opened RequestIdentity
  import opened Repository
  import opened Access
  import CreateRetry

  const SECOND := 1_000_000_000

  /** Zero seconds mean that the record does not expire. */
  function ExpirationTime(now: Time, ttlSeconds: Uint32): Option<Time> {
    if ttlSeconds == 0 then None else Some(now + ttlSeconds * SECOND)
  }

  /** SHA-256, and the entity tag made of the envelope's hash. */
  datatype Hashing = Hashing(sha256: Bytes -> Bytes, etag: Bytes -> string)

  function InputOf(h: Hashing, m: CreateRequest, now: Time): CreateInput
    requires m.envelope.Some? && m.envelope.value.metadata.Some?
  {
    var e := m.envelope.value;
    var metadata := e.metadata.value;
    CreateInput(
      EncodeMetadata(metadata), EncodeEnvelope(e), h.sha256(IdentityBytes(m)), h.etag(EncodeEnvelope(e)),
      metadata.featureFlags, ExpirationTime(now, metadata.ttlSeconds),
      if CaptchaEnabled(m) then Some(m.captchaKey) else None)
  }

  /** What createEnvelope passes to the repository for a valid request. */
  function ArtifactOf(h: Hashing, w: KeyWrapper, m: CreateRequest, now: Time, nonce: Bytes): CreateRetry.Artifact
    requires m.envelope.Some? && m.envelope.value.metadata.Some? && |m.storageKey| == STORAGE_KEY_LENGTH
  {
    CreateRetry.Artifact(m.storageKey, RecordOf(w, m.storageKey, InputOf(h, m, now), nonce))
  }

  /** Everything the stored record carries: metadata and envelope as they came, readable again; the hash of what
      identifies the request, the entity tag of the envelope, the flags of the metadata; the end of the TTL in
      nanoseconds, none for a TTL of zero; and the CAPTCHA key wrapped under the nonce, the storage key and version 2
      as associated data, if the flags ask for one. */
  lemma RecordCarries(h: Hashing, w: KeyWrapper, m: CreateRequest, now: Time, nonce: Bytes, allowedTtls: set<Uint32>)
    requires ValidRequest(m, allowedTtls) && !HasUnknownRequest(m) && |EncodeRequest(m)| < TWO63
    ensures var e := m.envelope.value;
            var a := ArtifactOf(h, w, m, now, nonce);
            var record, ttl := a.record, e.metadata.value.ttlSeconds;
            && a.key == m.storageKey
            && DecodeCanonicalMetadata(record.metadata) == e.metadata
            && DecodeCanonicalEnvelope(record.envelope) == Some(e)
            && record.requestHash == h.sha256(IdentityBytes(m)) && record.etag == h.etag(record.envelope)
            && record.featureFlags == e.metadata.value.featureFlags
            && record.expiresAt == (if ttl == 0 then None else Some(now + ttl * 1_000_000_000))
            && (if record.featureFlags % 2 == 1
                then record.captchaKeyNonce == nonce
                     && record.captchaKeyCiphertext == w.seal(nonce, m.captchaKey, m.storageKey + [0, 0, 0, 2])
                else record.captchaKeyNonce == [] && record.captchaKeyCiphertext == [])
  {
    hide EncodeRequest, EncodeEnvelope, EncodeMetadata, IdentityBytes, DecodeCanonicalMetadata, DecodeCanonicalEnvelope;
    var e := m.envelope.value;
    RequestSize(m);
    EnvelopeSize(e);
    MetadataSize(e.metadata.value);
    MetadataAcceptedIffCanonical(EncodeMetadata(e.metadata.value), e.metadata.value);
    EnvelopeAcceptedIffCanonical(EncodeEnvelope(e), e);
  }

  /** Validation lets nothing through that the store, or an access to the record, would refuse. */
  lemma ValidRequestIsStorable(h: Hashing, w: KeyWrapper, m: CreateRequest, now: Time, nonce: Bytes,
                               allowedTtls: set<Uint32>)
    requires WrapperLaws(w) && |nonce| == GCM_NONCE_LENGTH && ValidRequest(m, allowedTtls)
    ensures IsValidInput(InputOf(h, m, now)) && IsStorable(ArtifactOf(h, w, m, now, nonce).record)
  {
    EncodingsAreNotEmpty(m.envelope.value);
  }

  lemma EncodingsAreNotEmpty(e: Envelope)
    requires e.metadata.Some? && e.metadata.value.protocolVersion != 0
    ensures EncodeMetadata(e.metadata.value) != [] && EncodeEnvelope(e) != []
  {
    MetadataSize(e.metadata.value);
    EnvelopeSize(e);
  }

  /**
   * Once a valid request is stored, another one under its storage key, at any later time and with any nonce, is
   * answered as a replay with the stored expiry if both have the same envelope and CAPTCHA key, and as a conflict if
   * not; the store does not change either way. This holds unless SHA-256 collides on the two.
   */
  lemma ReplayedIffSameRequest(h: Hashing, w: KeyWrapper, records: Records, m1: CreateRequest, m2: CreateRequest,
                               now1: Time, now2: Time, nonce1: Bytes, nonce2: Bytes, allowedTtls: set<Uint32>)
    requires WrapperLaws(w) && |nonce1| == |nonce2| == GCM_NONCE_LENGTH
    requires ValidRequest(m1, allowedTtls) && ValidRequest(m2, allowedTtls)
    requires !HasUnknownRequest(m1) && !HasUnknownRequest(m2)
    requires |EncodeRequest(m1)| < TWO63 && |EncodeRequest(m2)| < TWO63
    requires IdentityBytes(m1) != IdentityBytes(m2) ==> h.sha256(IdentityBytes(m1)) != h.sha256(IdentityBytes(m2))
    requires m1.storageKey == m2.storageKey && m1.storageKey !in records
    ensures var first := ArtifactOf(h, w, m1, now1, nonce1);
            var stored := CreateRetry.Handle(records, first).0;
            var same := m1.envelope == m2.envelope && m1.captchaKey == m2.captchaKey;
            && stored == records[first.key := first.record]
            && CreateRetry.Handle(stored, ArtifactOf(h, w, m2, now2, nonce2))
               == (stored, if same then Done(CreateResult(first.record.expiresAt, true)) else Failed(Conflict))
  {
    hide IsValidInput, ValidRequest, CaptchaEnabled, IsStorable, IdentityBytes, EncodeMetadata, EncodeEnvelope;
    HasEnvelope(m1, allowedTtls);
    HasEnvelope(m2, allowedTtls);
    var first, second := ArtifactOf(h, w, m1, now1, nonce1), ArtifactOf(h, w, m2, now2, nonce2);
    ValidRequestIsStorable(h, w, m1, now1, nonce1, allowedTtls);
    ValidRequestIsStorable(h, w, m2, now2, nonce2, allowedTtls);
    CreateRetry.CreateAloneIsHandle(records, first);
    CreateRetry.CreateAloneIsHandle(records[first.key := first.record], second);
    ReplayIsSameRequest(h.sha256, m1, m2, allowedTtls);
  }

  lemma HasEnvelope(m: CreateRequest, allowedTtls: set<Uint32>)
    requires ValidRequest(m, allowedTtls)
    ensures m.envelope.Some? && m.envelope.value.metadata.Some? && |m.storageKey| == STORAGE_KEY_LENGTH
  {
  }
}
