/** The size limits of the client, the server and the database fit together. */
module SizeBudget {
  import opened Common
  import opened Wire
  import opened Messages
  import opened Canonical
  import opened RequestIdentity
  import opened Padding
  import opened Protocol

  /** The longest finite TTL the configuration allows, 720 hours. */
  const MAX_TTL_SECONDS: nat := 2_592_000
  const MAX_URL_ENVELOPE_BYTES: nat := 4263
  const PASTE_ENVELOPE_OVERHEAD: nat := 2048
  const CREATE_REQUEST_OVERHEAD: nat := 8192
  /** The check constraint of the database. */
  const MAX_STORED_ENVELOPE_BYTES: nat := 0x10_0000
  const MAX_PASTE_BYTES_LIMIT: nat := MAX_STORED_ENVELOPE_BYTES - PASTE_ENVELOPE_OVERHEAD
  const MAX_CAPTCHA_TOKEN_BYTES: nat := 4096

  function Max(a: nat, b: nat): nat {
    if a < b then b else a
  }

  /** The metadata of a new envelope: 113 bytes with both layers and a four-byte TTL, two more for a paste. */
  lemma MetadataFieldSize(m: EnvelopeMetadata)
    requires AcceptsMetadata(m) && !HasUnknownMetadata(m) && m.ttlSeconds <= MAX_TTL_SECONDS
    ensures SizeOfPresent(SizeMetadata(m)) <= if m.payloadKind == KIND_URL then 113 else 115
    ensures m.payloadKind == KIND_URL && m.password.Some? && m.captcha.Some? && m.ttlSeconds >= 0x20_0000
      ==> SizeOfPresent(SizeMetadata(m)) == 113
  {
    SizeOfVarintBounds(m.ttlSeconds);
    if m.password.Some? {
      assert SizePassword(m.password.value) == 46;
    }
    if m.captcha.Some? {
      assert SizeCaptcha(m.captcha.value) == 26;
    }
  }

  /** What a new envelope consists of, byte by byte. */
  lemma SealedSize(c: Crypto, content: PlainContent, id: Bytes, material: Bytes, options: EncryptOptions,
                   random: RandomSource)
    requires Laws(c) && Sealed(c, content, id, material, options, random).Ok?
    ensures PayloadOf(content, random, NonceCount(options)).Ok?
    ensures var e := Sealed(c, content, id, material, options, random).value;
            var payload := PayloadOf(content, random, NonceCount(options)).value;
            && e.metadata.Some? && AcceptsMetadata(e.metadata.value) && !HasUnknownEnvelope(e)
            && e.metadata.value.ttlSeconds == options.ttlSeconds
            && e.metadata.value.payloadKind == KindOf(content)
            && e.metadata.value.password.Some? == options.password.Some?
            && e.metadata.value.captcha.Some? == options.captchaKey.Some?
            && |e.ciphertext| == SizePayload(payload) + TAG_LENGTH * NonceCount(options)
            && |EncodeEnvelope(e)| == SizeOfPresent(SizeMetadata(e.metadata.value)) + SizeOfBytes(|e.ciphertext|)
  {
    hide PayloadOf, DrawMetadata, SealLayers, Laws;
    var e := Sealed(c, content, id, material, options, random).value;
    var payload := PayloadOf(content, random, NonceCount(options)).value;
    var m := DrawMetadata(content, options, random).value;
    DrawnMetadataIsValid(content, options, random, id, material);
    FinalKeyLength(c, material, id, m.payloadNonce);
    LayersAreUndone(c, m, FinalKey(c, material, id, m.payloadNonce), options,
      DecryptOptions(if options.password.Some? then Some(options.password.value.key) else None, options.captchaKey),
      EncodePayload(payload));
    PayloadSize(payload);
    EnvelopeSize(e);
  }

  /** Every URL envelope fits 4263 bytes. */
  lemma UrlEnvelopeFits(c: Crypto, content: PlainContent, id: Bytes, material: Bytes, options: EncryptOptions,
                        random: RandomSource)
    requires Laws(c) && content.UrlContent? && options.ttlSeconds <= MAX_TTL_SECONDS
    requires Sealed(c, content, id, material, options, random).Ok?
    ensures |EncodeEnvelope(Sealed(c, content, id, material, options, random).value)| <= MAX_URL_ENVELOPE_BYTES
  {
    hide PayloadOf, Sealed, Laws, EncodeEnvelope, SizeMetadata, AcceptsMetadata;
    var e := Sealed(c, content, id, material, options, random).value;
    SealedSize(c, content, id, material, options, random);
    var payload := PayloadOf(content, random, NonceCount(options)).value;
    PayloadShape(content, random, NonceCount(options));
    MetadataFieldSize(e.metadata.value);
    SizeOfVarintBounds(|payload.content.url|);
    SizeOfVarintBounds(|e.ciphertext|);
  }

  /** A URL of the maximal length under both layers and a long TTL needs all of them. */
  lemma UrlEnvelopeBoundIsAttained(c: Crypto, url: Bytes, id: Bytes, material: Bytes, options: EncryptOptions,
                                   random: RandomSource)
    requires Laws(c) && |url| == MAX_URL_BYTES && 0x20_0000 <= options.ttlSeconds <= MAX_TTL_SECONDS
    requires options.password.Some? && options.captchaKey.Some?
    requires Sealed(c, UrlContent(url), id, material, options, random).Ok?
    ensures |EncodeEnvelope(Sealed(c, UrlContent(url), id, material, options, random).value)|
         == MAX_URL_ENVELOPE_BYTES
  {
    hide PayloadOf, Sealed, Laws, EncodeEnvelope, SizeMetadata, AcceptsMetadata;
    var e := Sealed(c, UrlContent(url), id, material, options, random).value;
    SealedSize(c, UrlContent(url), id, material, options, random);
    var payload := PayloadOf(UrlContent(url), random, NonceCount(options)).value;
    PayloadShape(UrlContent(url), random, NonceCount(options));
    MetadataFieldSize(e.metadata.value);
    SizeOfVarintBounds(|payload.content.url|);
    SizeOfVarintBounds(|e.ciphertext|);
  }

  /** Such an envelope exists. */
  lemma UrlEnvelopeBoundIsReached() returns (c: Crypto, e: Envelope)
    ensures Laws(c) && |EncodeEnvelope(e)| == MAX_URL_ENVELOPE_BYTES
    ensures exists content: PlainContent, id: Bytes, material: Bytes, options: EncryptOptions, random: RandomSource ::
      options.ttlSeconds <= MAX_TTL_SECONDS && Sealed(c, content, id, material, options, random) == Ok(e)
  {
    c := LawsAreConsistent();
    hide Laws, EncodeEnvelope, SealLayers, FinalKey;
    var key := Zeros(KEY_LENGTH);
    var options := EncryptOptions(MAX_TTL_SECONDS, Some(PasswordKey(key, Zeros(SALT_LENGTH))), Some(key), false);
    var random: RandomSource := (call: nat) => Zeros(NONCE_LENGTH);
    var content := UrlContent(Zeros(MAX_URL_BYTES));
    var r := Sealed(c, content, Zeros(ID_LENGTH), key, options, random);
    assert r.Ok?;
    e := r.value;
    UrlEnvelopeBoundIsAttained(c, content.url, Zeros(ID_LENGTH), key, options, random);
  }

  /** Every paste fits its deflated size plus the overhead the server grants, and the database. */
  lemma PasteEnvelopeFits(c: Crypto, content: PlainContent, id: Bytes, material: Bytes, options: EncryptOptions,
                          random: RandomSource)
    requires Laws(c) && content.MarkdownContent? && |content.deflated| <= MAX_PASTE_BYTES_LIMIT
    requires options.ttlSeconds <= MAX_TTL_SECONDS
    requires Sealed(c, content, id, material, options, random).Ok?
    ensures var size := |EncodeEnvelope(Sealed(c, content, id, material, options, random).value)|;
            size <= |content.deflated| + PASTE_ENVELOPE_OVERHEAD && size <= MAX_STORED_ENVELOPE_BYTES
  {
    hide PayloadOf, Sealed, Laws, EncodeEnvelope, SizeMetadata, AcceptsMetadata, SizePayload;
    var e := Sealed(c, content, id, material, options, random).value;
    SealedSize(c, content, id, material, options, random);
    MetadataFieldSize(e.metadata.value);
    PaddedPasteSize(content, random, NonceCount(options));
    SizeOfVarintBounds(|e.ciphertext|);
  }

  lemma PaddedPasteSize(content: PlainContent, random: RandomSource, call: nat)
    requires content.MarkdownContent? && |content.deflated| <= MAX_PASTE_BYTES_LIMIT
    requires PayloadOf(content, random, call).Ok?
    ensures SizePayload(PayloadOf(content, random, call).value) <= |content.deflated| + 4 + 1154
    ensures SizePayload(PayloadOf(content, random, call).value) % MARKDOWN_PADDING_BUCKET == 0
  {
    hide IsMarkdownPadding;
    var payload := PayloadOf(content, random, call).value;
    var unpadded := Payload(MarkdownDeflate(content.deflated), [], []);
    PayloadSize(unpadded);
    MarkdownPaddingBound(SizePayload(unpadded), |payload.padding|);
    SizeOfVarintBounds(|content.deflated|);
    PaddingIsExact(SizePayload(unpadded), |payload.padding|);
  }

  lemma PaddingIsExact(unpadded: nat, padding: nat)
    requires IsMarkdownPadding(unpadded, padding)
    ensures Framed(unpadded, padding) % MARKDOWN_PADDING_BUCKET == 0
  {
  }

  /** A create request whose envelope is within the limits fits the body limit, token included. */
  lemma CreateRequestFits(m: CreateRequest, urlLimit: nat, pasteLimit: nat)
    requires |m.storageKey| == STORAGE_KEY_LENGTH && |m.captchaKey| <= KEY_LENGTH && m.unknown == []
    requires |m.captchaToken| <= MAX_CAPTCHA_TOKEN_BYTES && m.envelope.Some?
    requires |EncodeEnvelope(m.envelope.value)| <= Max(urlLimit, pasteLimit) < TWO63
    ensures |EncodeRequest(m)| <= Max(urlLimit, pasteLimit) + CREATE_REQUEST_OVERHEAD
  {
    hide EncodeRequest, EncodeEnvelope, SizeEnvelope;
    RequestSize(m);
    EnvelopeSize(m.envelope.value);
    SizeOfVarintSmall(|EncodeEnvelope(m.envelope.value)|);
    SizeOfVarintBounds(|m.captchaKey|);
    SizeOfVarintBounds(|m.captchaToken|);
    SizeOfVarintBounds(|m.storageKey|);
  }

  /** The request a client sends for a new envelope. */
  function RequestFor(e: Envelope, storageKey: Bytes, options: EncryptOptions, token: Bytes): CreateRequest {
    CreateRequest(storageKey, Some(e), if options.captchaKey.None? then [] else options.captchaKey.value, token, [])
  }

  /** How large an envelope of each kind the configured server accepts; no paste when pastes are disabled. */
  function EnvelopeLimit(kind: Int32, urlLimit: nat, maxPaste: nat): nat {
    if kind == KIND_URL then urlLimit
    else if maxPaste == 0 then 0 else maxPaste + PASTE_ENVELOPE_OVERHEAD
  }

  /** The limit on a create request's body. */
  function BodyLimit(urlLimit: nat, maxPaste: nat): nat {
    Max(urlLimit, EnvelopeLimit(KIND_MARKDOWN, urlLimit, maxPaste)) + CREATE_REQUEST_OVERHEAD
  }

  /**
   * Under every configuration that admits the URL envelopes of the protocol, the server reads back the very request
   * the client built from content within the configured limits, and it passes all checks before hashing: the body
   * limit, validation, and the limit on envelopes of its kind.
   */
  lemma ClientRequestIsAccepted(c: Crypto, content: PlainContent, id: Bytes, material: Bytes, options: EncryptOptions,
                                random: RandomSource, storageKey: Bytes, token: Bytes, allowedTtls: set<Uint32>,
                                urlLimit: nat, maxPaste: nat)
    requires Laws(c) && Sealed(c, content, id, material, options, random).Ok?
    requires options.ttlSeconds in allowedTtls && options.ttlSeconds <= MAX_TTL_SECONDS
    requires MAX_URL_ENVELOPE_BYTES <= urlLimit < TWO63 - CREATE_REQUEST_OVERHEAD && maxPaste <= MAX_PASTE_BYTES_LIMIT
    requires content.MarkdownContent? ==> |content.deflated| <= maxPaste
    requires |storageKey| == STORAGE_KEY_LENGTH && |token| <= MAX_CAPTCHA_TOKEN_BYTES
    ensures var e := Sealed(c, content, id, material, options, random).value;
            var m := RequestFor(e, storageKey, options, token);
            && ValidRequest(m, allowedTtls) && DecodeCanonicalRequest(EncodeRequest(m)) == Some(m)
            && e.metadata.Some?
            && |EncodeEnvelope(e)| <= EnvelopeLimit(e.metadata.value.payloadKind, urlLimit, maxPaste)
            && (content.MarkdownContent? ==> maxPaste > 0 && |EncodeEnvelope(e)| <= MAX_STORED_ENVELOPE_BYTES)
            && |EncodeRequest(m)| <= BodyLimit(urlLimit, maxPaste)
  {
    hide PayloadOf, Laws, EncodeRequest, EncodeEnvelope, SealLayers, DrawMetadata, DecodeRequest;
    var e := Sealed(c, content, id, material, options, random).value;
    SealedSize(c, content, id, material, options, random);
    var m := RequestFor(e, storageKey, options, token);
    if content.UrlContent? {
      UrlEnvelopeFits(c, content, id, material, options, random);
    } else {
      PasteIsNotEmpty(content, random, NonceCount(options));
      PasteEnvelopeFits(c, content, id, material, options, random);
    }
    CreateRequestFits(m, urlLimit, EnvelopeLimit(KIND_MARKDOWN, urlLimit, maxPaste));
    RequestAcceptedIffCanonical(EncodeRequest(m), m);
  }

  lemma PasteIsNotEmpty(content: PlainContent, random: RandomSource, call: nat)
    requires content.MarkdownContent? && PayloadOf(content, random, call).Ok?
    ensures content.deflated != []
  {
  }

  /** A paste over the configured limit may be refused although the client can seal it: its envelope is longer than
      its deflated bytes. */
  lemma LargePasteIsRefused(c: Crypto, content: PlainContent, id: Bytes, material: Bytes, options: EncryptOptions,
                            random: RandomSource, urlLimit: nat, maxPaste: nat)
    requires Laws(c) && Sealed(c, content, id, material, options, random).Ok? && content.MarkdownContent?
    requires |content.deflated| >= maxPaste + PASTE_ENVELOPE_OVERHEAD && FitsArray(content)
    ensures |EncodeEnvelope(Sealed(c, content, id, material, options, random).value)|
          > EnvelopeLimit(KIND_MARKDOWN, urlLimit, maxPaste)
  {
    hide PayloadOf, Sealed, Laws, EncodeEnvelope, SizeMetadata, AcceptsMetadata;
    SealedSize(c, content, id, material, options, random);
    PayloadShape(content, random, NonceCount(options));
  }
}
