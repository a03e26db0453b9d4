/** What a sealed envelope carries, which metadata a server accepts, and which failure comes first. */
module EnvelopeFacts {
  import opened Common
  import opened Wire
  import opened Messages
  import opened Canonical
  import opened RequestIdentity
  import opened Padding
  import opened Protocol
  import opened SizeBudget

  // ----- What an envelope carries -----

  /** Every field of a new envelope's metadata: version 2, one bit for each option, the TTL, the nonces in the order in
      which they are drawn, the salt of the password and the kind of content. */
  lemma SealedCarries(c: Crypto, content: PlainContent, id: Bytes, material: Bytes, options: EncryptOptions,
                      random: RandomSource)
    requires Sealed(c, content, id, material, options, random).Ok?
    ensures var e := Sealed(c, content, id, material, options, random).value;
            && e.unknown == [] && e.metadata.Some?
            && var m := e.metadata.value;
               && m.protocolVersion == 2 && m.ttlSeconds == options.ttlSeconds && m.unknown == []
               && m.featureFlags < 8
               && (m.featureFlags % 2 == 1 <==> options.captchaKey.Some?)
               && (m.featureFlags / 2 % 2 == 1 <==> options.password.Some?)
               && (m.featureFlags / 4 == 1 <==> options.burnAfterRead)
               && m.payloadNonce == random(0)
               && m.password == (if options.password.None? then None
                                 else Some(PasswordLayer(options.password.value.salt, random(1), 1, [])))
               && m.captcha == (if options.captchaKey.None? then None
                                else Some(CaptchaLayer(random(if options.password.Some? then 2 else 1), [])))
               && m.payloadKind == (if content.UrlContent? then 0 else 1)
  {
    hide PayloadOf, SealLayers, FinalKey, EncodePayload;
  }

  /** What the length of a ciphertext tells: 16 bytes for each layer, and a payload of whole kilobytes for a paste. */
  lemma PasteLengthIsBucketed(c: Crypto, content: PlainContent, id: Bytes, material: Bytes, options: EncryptOptions,
                              random: RandomSource)
    requires Laws(c) && Sealed(c, content, id, material, options, random).Ok?
    requires content.MarkdownContent? && |content.deflated| <= MAX_PASTE_BYTES_LIMIT
    ensures var layers := 1 + (if options.password.Some? then 1 else 0) + (if options.captchaKey.Some? then 1 else 0);
            var n := |Sealed(c, content, id, material, options, random).value.ciphertext| - 16 * layers;
            n % 1024 == 0 && n > |content.deflated|
  {
    hide PayloadOf, Sealed, Laws, EncodeEnvelope, SizeMetadata, AcceptsMetadata;
    SealedSize(c, content, id, material, options, random);
    PaddedPasteSize(content, random, NonceCount(options));
    PasteIsInside(content, random, NonceCount(options));
  }

  lemma PasteIsInside(content: PlainContent, random: RandomSource, call: nat)
    requires content.MarkdownContent? && PayloadOf(content, random, call).Ok?
    ensures SizePayload(PayloadOf(content, random, call).value) > |content.deflated|
  {
    hide MarkdownPadding, Zeros;
  }

  /** For a URL, a payload whose text has been padded to a multiple of 32 bytes, by 128 at most. */
  lemma UrlLengthIsAligned(c: Crypto, content: PlainContent, id: Bytes, material: Bytes, options: EncryptOptions,
                           random: RandomSource)
    returns (padded: nat)
    requires Laws(c) && Sealed(c, content, id, material, options, random).Ok? && content.UrlContent?
    ensures var layers := 1 + (if options.password.Some? then 1 else 0) + (if options.captchaKey.Some? then 1 else 0);
            && padded % 32 == 0 && |content.url| <= padded <= 4096 && padded <= |content.url| + 128
            && |Sealed(c, content, id, material, options, random).value.ciphertext|
               == 16 * layers + 1 + (if padded < 128 then 1 else 2) + padded
  {
    hide Sealed, Laws, EncodeEnvelope, SizeMetadata, AcceptsMetadata;
    SealedSize(c, content, id, material, options, random);
    padded := UrlIsPadded(content.url, random, NonceCount(options));
    SizeOfVarintBounds(padded);
  }

  lemma UrlIsPadded(url: Bytes, random: RandomSource, call: nat) returns (padded: nat)
    requires PaddedUrl(url, random, call).Ok?
    ensures padded == |PaddedUrl(url, random, call).value|
    ensures padded % 32 == 0 && |url| <= padded <= 4096 && padded <= |url| + 128
  {
    hide UrlPadding, CandidateCount, AlignmentPadding;
    padded := |PaddedUrl(url, random, call).value|;
    if CandidateCount(|url|) == 1 {
      UrlPaddingFits(|url|, 0);
      OneCandidate(|url|);
    } else {
      UrlPaddingFits(|url|, random(call)[0]);
    }
  }

  lemma OneCandidate(length: nat)
    requires length <= MAX_URL_BYTES && CandidateCount(length) == 1
    ensures UrlPadding(length, 0) == AlignmentPadding(length)
  {
  }

  // ----- What a server accepts -----

  /** Some client draws this metadata for a new envelope. */
  ghost predicate ClientDraws(m: EnvelopeMetadata) {
    exists content: PlainContent, options: EncryptOptions, random: RandomSource :: Draws(m, content, options, random)
  }

  ghost predicate Draws(m: EnvelopeMetadata, content: PlainContent, options: EncryptOptions, random: RandomSource) {
    && CheckEncryptInputs(Zeros(8), Zeros(32), options).Ok? && options.ttlSeconds >= 0
    && DrawMetadata(content, options, random) == Ok(m)
  }

  /** The flags are the options, bit by bit. */
  lemma FlagsAreBits(flags: Uint32, captcha: bool, password: bool, burn: bool)
    requires flags < 8 && HasFlag(flags, 1) == captcha && HasFlag(flags, 2) == password && HasFlag(flags, 4) == burn
    ensures flags == (if captcha then 1 else 0) + (if password then 2 else 0) + (if burn then 4 else 0)
  {
  }

  lemma SomeClientDraws(m: EnvelopeMetadata, allowedTtls: set<Uint32>)
    requires ValidMetadata(m, allowedTtls) && !HasUnknownMetadata(m)
    ensures ClientDraws(m)
  {
    var content := if m.payloadKind == 0 then UrlContent([]) else MarkdownContent([]);
    var options := EncryptOptions(m.ttlSeconds,
      if m.password.None? then None else Some(PasswordKey(Zeros(32), m.password.value.salt)),
      if m.captcha.None? then None else Some(Zeros(32)), HasFlag(m.featureFlags, 4));
    var random: RandomSource := (call: nat) =>
      if call == 0 then m.payloadNonce
      else if call == 1 && m.password.Some? then m.password.value.nonce
      else if m.captcha.Some? then m.captcha.value.nonce else [];
    FlagsAreBits(m.featureFlags, m.captcha.Some?, m.password.Some?, HasFlag(m.featureFlags, 4));
    assert FlagsOf(options) == m.featureFlags;
    assert Draws(m, content, options, random);
  }

  /** The server lets through exactly the metadata that clients draw, with a TTL it allows. */
  lemma ServerAcceptsWhatClientsDraw(m: EnvelopeMetadata, allowedTtls: set<Uint32>)
    requires !HasUnknownMetadata(m)
    ensures ValidMetadata(m, allowedTtls) <==> m.ttlSeconds in allowedTtls && ClientDraws(m)
  {
    if ValidMetadata(m, allowedTtls) {
      SomeClientDraws(m, allowedTtls);
    }
    if ClientDraws(m) {
      var content, options, random :| Draws(m, content, options, random);
      DrawnMetadataIsValid(content, options, random, Zeros(8), Zeros(32));
    }
  }

  /** A request passes validation exactly with a 16-byte storage key, metadata that a client draws and the server
      allows, some ciphertext, and a CAPTCHA key of 32 bytes or none at all, as the metadata says. */
  lemma RequestIsValidIff(m: CreateRequest, allowedTtls: set<Uint32>)
    requires m.envelope.Some? && m.envelope.value.metadata.Some? ==>
               !HasUnknownMetadata(m.envelope.value.metadata.value)
    ensures ValidRequest(m, allowedTtls)
        <==> && |m.storageKey| == 16 && m.envelope.Some? && m.envelope.value.metadata.Some?
             && m.envelope.value.ciphertext != []
             && var metadata := m.envelope.value.metadata.value;
                && metadata.ttlSeconds in allowedTtls && ClientDraws(metadata)
                && |m.captchaKey| == if metadata.captcha.Some? then 32 else 0
  {
    hide ClientDraws;
    if m.envelope.Some? && m.envelope.value.metadata.Some? {
      ServerAcceptsWhatClientsDraw(m.envelope.value.metadata.value, allowedTtls);
      if ClientDraws(m.envelope.value.metadata.value) {
        DrawnFlag(m.envelope.value.metadata.value);
      }
    }
  }

  lemma DrawnFlag(m: EnvelopeMetadata)
    requires ClientDraws(m)
    ensures HasFlag(m.featureFlags, CAPTCHA_FLAG) <==> m.captcha.Some?
  {
    var content, options, random :| Draws(m, content, options, random);
    DrawnMetadataIsValid(content, options, random, Zeros(8), Zeros(32));
  }

  // ----- Failures -----

  /** The first of these that holds is what encryptEnvelope throws, and if none holds it returns an envelope. */
  lemma SealingThrows(c: Crypto, content: PlainContent, id: Bytes, material: Bytes, options: EncryptOptions,
                      random: RandomSource)
    ensures var r := Sealed(c, content, id, material, options, random);
            var password, captcha := options.password, options.captchaKey;
            if |id| != 8 then r == Thrown(InvalidId)
            else if |material| != 32 then r == Thrown(InvalidKey)
            else if options.ttlSeconds < 0 then r == Thrown(InvalidTtl)
            else if password.Some? && |password.value.key| != 32 then r == Thrown(InvalidKey)
            else if password.Some? && |password.value.salt| != 16 then r == Thrown(InvalidSalt)
            else if captcha.Some? && |captcha.value| != 32 then r == Thrown(InvalidKey)
            else if exists call :: 0 <= call < NonceCount(options) && |random(call)| != 24 then
              r == Thrown(BadRandomSource)
            else if options.ttlSeconds >= 0x1_0000_0000 then r == Thrown(InvalidTtl)
            else if content.UrlContent? && |content.url| > 4096 then r == Thrown(UrlTooLong)
            else if content.MarkdownContent? && content.deflated == [] then r == Thrown(EmptyPaste)
            else if content.UrlContent? && CandidateCount(|content.url|) != 1 && |random(NonceCount(options))| != 1 then
              r == Thrown(BadRandomSource)
            else r.Ok?
  {
    hide SealLayers, FinalKey, EncodePayload, MetadataOf, Zeros, UrlPadding, CandidateCount, MarkdownPadding;
    var n := NonceCount(options);
    assert 0 <= 0 < n && (options.password.Some? ==> 0 <= 1 < n) && 0 <= n - 1 < n;
  }

  /** The first of these that holds is what decryptEnvelope throws before it opens anything. */
  lemma OpeningThrows(c: Crypto, e: Envelope, id: Bytes, material: Bytes, keys: DecryptOptions)
    ensures var r := Opened(c, e, id, material, keys);
            if |id| != 8 then r == Thrown(InvalidId)
            else if |material| != 32 then r == Thrown(InvalidKey)
            else if e.metadata.None? || e.ciphertext == [] then r == Thrown(MissingData)
            else if !ValidMetadata(e.metadata.value, {e.metadata.value.ttlSeconds}) then r == Thrown(InvalidMetadata)
            else if e.metadata.value.password.Some? && keys.passwordKey.None? then r == Thrown(PasswordKeyRequired)
            else if e.metadata.value.captcha.Some? && keys.captchaKey.None? then r == Thrown(CaptchaKeyRequired)
            else if keys.passwordKey.Some? && |keys.passwordKey.value| != 32 then r == Thrown(InvalidKey)
            else if keys.captchaKey.Some? && |keys.captchaKey.value| != 32 then r == Thrown(InvalidKey)
            else r.Ok? || r.failure in {OpenFailed, IncorrectPassword, MalformedPayload, KindMismatch}
  {
    hide FinalKey, Aad, DecodePayload;
  }

  /** What a payload of either kind is parsed to; a payload of the other kind, or of none, is a mismatch. */
  lemma ParsedByKind(p: Payload, kind: Int32)
    requires |EncodePayload(p)| < TWO63 && p.unknown == []
    ensures ParsePayload(EncodePayload(p), kind)
         == if p.content.Url? && kind == 0 then Ok(UrlContent(UpToNul(p.content.url)))
            else if p.content.MarkdownDeflate? && kind == 1 then Ok(MarkdownContent(p.content.deflated))
            else Thrown(KindMismatch)
  {
    hide EncodePayload, DecodePayload;
    PayloadRoundTrip(p);
  }

  lemma {:induction false} UpToFirstNul(a: Bytes, b: Bytes)
    requires 0 !in a
    ensures UpToNul(a) == a && UpToNul(a + [0] + b) == a
  {
    var s := a + [0] + b;
    if a != [] {
      assert s[1..] == a[1..] + [0] + b;
      UpToFirstNul(a[1..], b);
    }
  }
}
