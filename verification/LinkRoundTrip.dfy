/** From the content a client seals, over the wire and the store, back to the content another client opens. */
module LinkRoundTrip {
  import opened Common
  import opened Messages
  import opened Canonical
  import opened RequestIdentity
  import opened Protocol
  import opened SizeBudget
  import opened Repository
  import opened Access
  import opened CreateHandler
  import CreateRetry

  /** What a visitor leaves and is given whom nobody interferes with: an unprotected record is read, a protected one
      accessed. */
  function Visit(w: KeyWrapper, records: Records, key: Key, now: Time, token: string, verify: string -> bool)
    : (Records, AccessResult)
  {
    if !IsLive(records, key, now) then (records, Refused(StoreFailed(NotFound)))
    else if NeedsCaptcha(records[key]) || BurnAfterRead(records[key]) then
      AccessAlone(records, key, now, token, true, verify, w)
    else (records, Granted(records[key], None))
  }

  /** A visitor gets the record that was created and the CAPTCHA key that came with it. */
  lemma VisitGives(w: KeyWrapper, records: Records, key: Key, now: Time, token: string, verify: string -> bool,
                   input: CreateInput, nonce: Bytes)
    requires WrapperLaws(w) && IsValidInput(input) && |nonce| == GCM_NONCE_LENGTH
    requires IsLive(records, key, now) && records[key] == RecordOf(w, key, input, nonce)
    requires if input.captchaKey.Some? then verify(token) else token == ""
    ensures Visit(w, records, key, now, token, verify)
         == (if BurnAfterRead(records[key]) then records - {key} else records, Granted(records[key], input.captchaKey))
  {
    hide WrapperLaws, AccessAlone, HasFlag;
    if NeedsCaptcha(records[key]) || BurnAfterRead(records[key]) {
      AccessAloneGrants(w, records, key, now, token, verify, input, nonce);
    }
  }

  /** A valid request under a new key is stored as it came. */
  lemma RequestIsStored(h: Hashing, w: KeyWrapper, records: Records, m: CreateRequest, now: Time, nonce: Bytes,
                        allowedTtls: set<Uint32>)
    requires WrapperLaws(w) && |nonce| == GCM_NONCE_LENGTH && ValidRequest(m, allowedTtls)
    requires m.storageKey !in records
    ensures var a := ArtifactOf(h, w, m, now, nonce);
            CreateRetry.Handle(records, a).0 == records[a.key := a.record] && IsValidInput(InputOf(h, m, now))
  {
    hide WrapperLaws, IsValidInput, IsStorable;
    var a := ArtifactOf(h, w, m, now, nonce);
    ValidRequestIsStorable(h, w, m, now, nonce, allowedTtls);
    CreateRetry.CreateAloneIsHandle(records, a);
  }

  /** The envelope of a record is read back as it was sealed. */
  lemma EnvelopeIsReadBack(e: Envelope)
    requires !HasUnknownEnvelope(e) && |EncodeEnvelope(e)| < TWO63
    ensures DecodeCanonicalEnvelope(EncodeEnvelope(e)) == Some(e)
  {
    hide EncodeEnvelope, DecodeCanonicalEnvelope;
    EnvelopeAcceptedIffCanonical(EncodeEnvelope(e), e);
  }

  /** The CAPTCHA key that came back, with the password of the link, opens what was sealed. */
  lemma KeysMatch(c: Crypto, content: PlainContent, id: Bytes, material: Bytes, options: EncryptOptions,
                  random: RandomSource)
    requires Sealed(c, content, id, material, options, random).Ok?
    ensures MatchingKeys(options, DecryptOptions(PasswordOf(options), options.captchaKey))
  {
    hide DrawMetadata, PayloadOf, FinalKey, SealLayers, EncodePayload;
  }

  function PasswordOf(options: EncryptOptions): Option<Bytes> {
    if options.password.None? then None else Some(options.password.value.key)
  }

  /** What the request for a sealed envelope says about its CAPTCHA key. */
  lemma RequestKeepsCaptchaKey(h: Hashing, e: Envelope, storageKey: Bytes, options: EncryptOptions, token: Bytes,
                               now: Time, allowedTtls: set<Uint32>)
    requires ValidRequest(RequestFor(e, storageKey, options, token), allowedTtls)
    requires e.metadata.Some? && e.metadata.value.captcha.Some? == options.captchaKey.Some?
    ensures InputOf(h, RequestFor(e, storageKey, options, token), now).captchaKey == options.captchaKey
  {
    hide HasFlag, EncodeEnvelope, EncodeMetadata, IdentityBytes;
  }

  /** A new envelope carries the burn flag exactly when that was asked for. */
  lemma BurnFlagIsKept(c: Crypto, content: PlainContent, id: Bytes, material: Bytes, options: EncryptOptions,
                       random: RandomSource)
    requires Sealed(c, content, id, material, options, random).Ok?
    ensures var m := Sealed(c, content, id, material, options, random).value.metadata;
            m.Some? && HasFlag(m.value.featureFlags, BURN_FLAG) == options.burnAfterRead
  {
    hide PayloadOf, FinalKey, SealLayers, EncodePayload;
  }

  /**
   * For every content within the configured limits, every combination of password, CAPTCHA and burn options, and
   * every server state in which the storage key is new: the request that carries the sealed content is decoded to the
   * very message that was sent and stored, and whoever then visits the link in time, passes its CAPTCHA and knows its
   * password opens the content. A second visit finds nothing if the link burns, and the same store if it does not.
   */
  lemma SharedContentIsRead(c: Crypto, h: Hashing, w: KeyWrapper, content: PlainContent, id: Bytes, material: Bytes,
                            options: EncryptOptions, random: RandomSource, storageKey: Key, token: Bytes,
                            allowedTtls: set<Uint32>, urlLimit: nat, maxPaste: nat, records: Records, created: Time,
                            nonce: Bytes, visited: Time, answer: string, verify: string -> bool)
    requires Laws(c) && WrapperLaws(w) && Sealed(c, content, id, material, options, random).Ok?
    requires options.ttlSeconds in allowedTtls && options.ttlSeconds <= MAX_TTL_SECONDS
    requires MAX_URL_ENVELOPE_BYTES <= urlLimit < TWO63 - CREATE_REQUEST_OVERHEAD && maxPaste <= MAX_PASTE_BYTES_LIMIT
    requires content.MarkdownContent? ==> |content.deflated| <= maxPaste
    requires |token| <= MAX_CAPTCHA_TOKEN_BYTES && |nonce| == GCM_NONCE_LENGTH && storageKey !in records
    requires options.ttlSeconds == 0 || visited < created + options.ttlSeconds * SECOND
    requires if options.captchaKey.Some? then verify(answer) else answer == ""
    ensures var sent := RequestFor(Sealed(c, content, id, material, options, random).value, storageKey, options, token);
            var received := DecodeCanonicalRequest(EncodeRequest(sent));
            && received == Some(sent) && ValidRequest(sent, allowedTtls)
            && var stored := CreateRetry.Handle(records, ArtifactOf(h, w, sent, created, nonce)).0;
               var (after, given) := Visit(w, stored, storageKey, visited, answer, verify);
               && given.Granted?
               && after == (if options.burnAfterRead then stored - {storageKey} else stored)
               && var read := DecodeCanonicalEnvelope(given.record.envelope);
                  && read.Some?
                  && Opened(c, read.value, id, material, DecryptOptions(PasswordOf(options), given.captchaKey))
                     == Ok(Recovered(content))
  {
    hide Laws, WrapperLaws, Sealed, Opened, ValidRequest, EncodeRequest, DecodeCanonicalRequest, EncodeEnvelope;
    hide DecodeCanonicalEnvelope, IsValidInput, Recovered, HasFlag, Visit, MatchingKeys, CreateRetry.Handle;
    hide AcceptsMetadata, EncodeMetadata, IdentityBytes, HasUnknownEnvelope, PayloadOf;
    ClientRequestIsAccepted(c, content, id, material, options, random, storageKey, token, allowedTtls, urlLimit,
      maxPaste);
    SealedSize(c, content, id, material, options, random);
    var e := Sealed(c, content, id, material, options, random).value;
    var sent := RequestFor(e, storageKey, options, token);
    RequestIsStored(h, w, records, sent, created, nonce, allowedTtls);
    RequestKeepsCaptchaKey(h, e, storageKey, options, token, created, allowedTtls);
    var stored := CreateRetry.Handle(records, ArtifactOf(h, w, sent, created, nonce)).0;
    BurnFlagIsKept(c, content, id, material, options, random);
    VisitGives(w, stored, storageKey, visited, answer, verify, InputOf(h, sent, created), nonce);
    EnvelopeIsReadBack(e);
    KeysMatch(c, content, id, material, options, random);
    OpenedUndoesSealed(c, content, id, material, options, random,
      DecryptOptions(PasswordOf(options), options.captchaKey));
  }

  /** A link is gone once its TTL is over, to the nanosecond, whoever visits it. */
  lemma ExpiredLinkIsGone(h: Hashing, w: KeyWrapper, records: Records, m: CreateRequest, created: Time, nonce: Bytes,
                          allowedTtls: set<Uint32>, visited: Time, token: string, verify: string -> bool)
    requires WrapperLaws(w) && |nonce| == GCM_NONCE_LENGTH && ValidRequest(m, allowedTtls)
    requires m.storageKey !in records && m.envelope.value.metadata.value.ttlSeconds > 0
    requires visited >= created + m.envelope.value.metadata.value.ttlSeconds * 1_000_000_000
    ensures var stored := CreateRetry.Handle(records, ArtifactOf(h, w, m, created, nonce)).0;
            Visit(w, stored, m.storageKey, visited, token, verify) == (stored, Refused(StoreFailed(NotFound)))
  {
    hide WrapperLaws, HasFlag, EncodeEnvelope, EncodeMetadata, IdentityBytes, CreateRetry.Handle, AccessAlone;
    RequestIsStored(h, w, records, m, created, nonce, allowedTtls);
  }

  /** Nobody opens a link with CAPTCHA without passing it: the record is refused and stays as it is. */
  lemma CaptchaIsNeeded(h: Hashing, w: KeyWrapper, records: Records, m: CreateRequest, created: Time, nonce: Bytes,
                        allowedTtls: set<Uint32>, visited: Time, token: string, verify: string -> bool)
    requires WrapperLaws(w) && |nonce| == GCM_NONCE_LENGTH && ValidRequest(m, allowedTtls)
    requires m.storageKey !in records && m.envelope.value.metadata.value.captcha.Some? && !verify(token)
    ensures var stored := CreateRetry.Handle(records, ArtifactOf(h, w, m, created, nonce)).0;
            var (after, given) := Visit(w, stored, m.storageKey, visited, token, verify);
            after == stored && (given == Refused(CaptchaRejected) || given == Refused(StoreFailed(NotFound)))
  {
    hide EncodeEnvelope, EncodeMetadata, IdentityBytes, CreateRetry.Handle, AccessBetween;
    RequestIsStored(h, w, records, m, created, nonce, allowedTtls);
    var a := ArtifactOf(h, w, m, created, nonce);
    var stored := records[a.key := a.record];
    FlagsOfRecord(a.record);
    AccessEnds(stored, stored, NEVER, a.key, visited, token, true, verify, w);
  }
}
