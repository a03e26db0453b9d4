/** The envelope protocol of the client on values: what is sealed, and what opening it gives. */
module Protocol {
  import opened Common
  import opened Wire
  import opened Messages
  import opened Canonical
  import opened RequestIdentity
  import opened Padding

  const ID_LENGTH := 8
  const TAG_LENGTH := 16
  /** The longest typed array ECMAScript allows. */
  const MAX_ARRAY_LENGTH: nat := 0x1f_ffff_ffff_ffff

  datatype Failure =
    | InvalidId | InvalidKey | InvalidTtl | InvalidSalt | BadRandomSource | UrlTooLong | EmptyPaste
    | MissingData | InvalidMetadata | PasswordKeyRequired | CaptchaKeyRequired
    | OpenFailed | IncorrectPassword | MalformedPayload | KindMismatch

  /** What a call returns or throws. */
  datatype Result<+T> = Ok(value: T) | Thrown(failure: Failure) {
    predicate IsFailure() { Thrown? }

    function PropagateFailure<U>(): Result<U>
      requires Thrown?
    {
      Thrown(failure)
    }

    function Extract(): T
      requires Ok?
    {
      value
    }
  }

  function Check(holds: bool, otherwise: Failure): Result<bool> {
    if holds then Ok(true) else Thrown(otherwise)
  }

  /** XChaCha20-Poly1305 (key, nonce, text, associated data) and HKDF (key, salt). */
  datatype Crypto = Crypto(
    seal: (Bytes, Bytes, Bytes, Bytes) -> Bytes,
    open: (Bytes, Bytes, Bytes, Bytes) -> Option<Bytes>,
    hkdf: (Bytes, Bytes) -> Bytes)

  /** What the protocol relies on: opening undoes sealing, a tag is added, keys have their length. */
  ghost predicate Laws(c: Crypto) {
    && (forall key: Bytes, nonce: Bytes, text: Bytes, aad: Bytes :: |key| == KEY_LENGTH && |nonce| == NONCE_LENGTH ==>
          && c.open(key, nonce, c.seal(key, nonce, text, aad), aad) == Some(text)
          && |c.seal(key, nonce, text, aad)| == |text| + TAG_LENGTH)
    && (forall key: Bytes, salt: Bytes :: |c.hkdf(key, salt)| == KEY_LENGTH)
  }

  /** Plaintext carried by an envelope; a URL is its UTF-8 encoding. */
  datatype PlainContent = UrlContent(url: Bytes) | MarkdownContent(deflated: Bytes)

  datatype PasswordKey = PasswordKey(key: Bytes, salt: Bytes)

  datatype EncryptOptions = EncryptOptions(
    ttlSeconds: int, password: Option<PasswordKey>, captchaKey: Option<Bytes>, burnAfterRead: bool)

  datatype DecryptOptions = DecryptOptions(passwordKey: Option<Bytes>, captchaKey: Option<Bytes>)

  /** The bytes a random source returns on its first, second, .. call. */
  type RandomSource = nat -> Bytes

  function TakeRandom(random: RandomSource, call: nat, length: nat): (r: Result<Bytes>)
    ensures r.Ok? ==> |r.value| == length
  {
    if |random(call)| == length then Ok(random(call)) else Thrown(BadRandomSource)
  }

  function Zeros(n: nat): (z: Bytes)
    ensures |z| == n
  {
    seq(n, _ => 0)
  }

  // ----- Payload -----

  function PaddedUrl(url: Bytes, random: RandomSource, call: nat): Result<Bytes> {
    if |url| > MAX_URL_BYTES then Thrown(UrlTooLong)
    else if CandidateCount(|url|) == 1 then Ok(url + Zeros(AlignmentPadding(|url|)))
    else
      var choice :- TakeRandom(random, call, 1);
      Ok(url + Zeros(UrlPadding(|url|, choice[0])))
  }

  function PayloadOf(content: PlainContent, random: RandomSource, call: nat): Result<Payload> {
    match content
    case UrlContent(url) =>
      var padded :- PaddedUrl(url, random, call);
      Ok(Payload(Url(padded), [], []))
    case MarkdownContent(deflated) =>
      if deflated == [] then Thrown(EmptyPaste)
      else
        var unpadded := Payload(MarkdownDeflate(deflated), [], []);
        Ok(unpadded.(padding := Zeros(MarkdownPadding(|EncodePayload(unpadded)|))))
  }

  /** The text before the first NUL. */
  function UpToNul(url: Bytes): Bytes {
    if url == [] || url[0] == 0 then [] else [url[0]] + UpToNul(url[1..])
  }

  function ParsePayload(d: Bytes, kind: Int32): Result<PlainContent> {
    match DecodePayload(EMPTY_PAYLOAD, d)
    case None => Thrown(MalformedPayload)
    case Some(payload) =>
      if kind == KIND_URL && payload.content.Url? then Ok(UrlContent(UpToNul(payload.content.url)))
      else if kind == KIND_MARKDOWN && payload.content.MarkdownDeflate? then
        Ok(MarkdownContent(payload.content.deflated))
      else Thrown(KindMismatch)
  }

  // ----- Metadata -----

  function FlagsOf(options: EncryptOptions): Uint32 {
    (if options.captchaKey.Some? then CAPTCHA_FLAG else 0)
    + (if options.password.Some? then PASSWORD_FLAG else 0)
    + (if options.burnAfterRead then BURN_FLAG else 0)
  }

  function KindOf(content: PlainContent): Int32 {
    if content.MarkdownContent? then KIND_MARKDOWN else KIND_URL
  }

  function MetadataOf(content: PlainContent, options: EncryptOptions, payloadNonce: Bytes, passwordNonce: Bytes,
                      captchaNonce: Bytes): EnvelopeMetadata
    requires 0 <= options.ttlSeconds < TWO32
  {
    EnvelopeMetadata(
      PROTOCOL_VERSION, FlagsOf(options), options.ttlSeconds, payloadNonce,
      if options.password.None? then None
      else Some(PasswordLayer(options.password.value.salt, passwordNonce, PROFILE_ARGON2D_V1, [])),
      if options.captchaKey.None? then None else Some(CaptchaLayer(captchaNonce, [])),
      KindOf(content), [])
  }

  /** validateEnvelopeMetadata: the server's checks without its TTL list. */
  predicate AcceptsMetadata(m: EnvelopeMetadata) {
    ValidMetadata(m, {m.ttlSeconds})
  }

  /** Unknown fields are not written. */
  function Known(m: EnvelopeMetadata): EnvelopeMetadata {
    m.(unknown := [],
       password := if m.password.None? then None else Some(m.password.value.(unknown := [])),
       captcha := if m.captcha.None? then None else Some(m.captcha.value.(unknown := [])))
  }

  function Aad(m: EnvelopeMetadata): Bytes {
    EncodeMetadata(Known(m))
  }

  /** The associated data determines the metadata: none of its fields can change under a sealed text. */
  lemma AadBindsMetadata(m1: EnvelopeMetadata, m2: EnvelopeMetadata)
    requires !HasUnknownMetadata(m1) && !HasUnknownMetadata(m2)
    requires |EncodeMetadata(m1)| < TWO63 && Aad(m1) == Aad(m2)
    ensures m1 == m2
  {
    hide EncodeMetadata, DecodeMetadata, Known, HasUnknownMetadata;
    KnownIsAll(m1);
    KnownIsAll(m2);
    MetadataRoundTrip(m1);
    MetadataRoundTrip(m2);
  }

  lemma KnownIsAll(m: EnvelopeMetadata)
    requires !HasUnknownMetadata(m)
    ensures Known(m) == m
  {
  }

  // ----- Sealing -----

  function FinalKey(c: Crypto, material: Bytes, id: Bytes, payloadNonce: Bytes): Bytes {
    c.hkdf(material, id + payloadNonce)
  }

  /** The payload under its final key, then under the password key, then under the CAPTCHA key. */
  function SealLayers(c: Crypto, m: EnvelopeMetadata, finalKey: Bytes, options: EncryptOptions, payload: Bytes): Bytes
    requires options.password.Some? == m.password.Some? && options.captchaKey.Some? == m.captcha.Some?
  {
    var inner := c.seal(finalKey, m.payloadNonce, payload, Aad(m));
    var middle := if m.password.None? then inner
                  else c.seal(options.password.value.key, m.password.value.nonce, inner, Aad(m));
    if m.captcha.None? then middle
    else c.seal(options.captchaKey.value, m.captcha.value.nonce, middle, Aad(m))
  }

  function CheckEncryptInputs(id: Bytes, material: Bytes, options: EncryptOptions): Result<bool> {
    var _ :- Check(|id| == ID_LENGTH, InvalidId);
    var _ :- Check(|material| == KEY_LENGTH, InvalidKey);
    var _ :- Check(options.ttlSeconds >= 0, InvalidTtl);
    var _ :- Check(options.password.Some? ==> |options.password.value.key| == KEY_LENGTH, InvalidKey);
    var _ :- Check(options.password.Some? ==> |options.password.value.salt| == SALT_LENGTH, InvalidSalt);
    Check(options.captchaKey.Some? ==> |options.captchaKey.value| == KEY_LENGTH, InvalidKey)
  }

  function OptionalNonce(wanted: bool, random: RandomSource, call: nat): Result<Bytes> {
    if wanted then TakeRandom(random, call, NONCE_LENGTH) else Ok([])
  }

  /** How many nonces are drawn before the URL padding is chosen. */
  function NonceCount(options: EncryptOptions): nat {
    1 + (if options.password.Some? then 1 else 0) + (if options.captchaKey.Some? then 1 else 0)
  }

  /** The metadata with its nonces; a TTL over 32 bits cannot be serialized. */
  function DrawMetadata(content: PlainContent, options: EncryptOptions, random: RandomSource)
    : (r: Result<EnvelopeMetadata>)
    requires options.ttlSeconds >= 0
    ensures r.Ok? ==> options.password.Some? == r.value.password.Some?
                      && options.captchaKey.Some? == r.value.captcha.Some?
  {
    var payloadNonce :- TakeRandom(random, 0, NONCE_LENGTH);
    var passwordNonce :- OptionalNonce(options.password.Some?, random, 1);
    var captchaNonce :- OptionalNonce(options.captchaKey.Some?, random, NonceCount(options) - 1);
    if options.ttlSeconds >= TWO32 then Thrown(InvalidTtl)
    else Ok(MetadataOf(content, options, payloadNonce, passwordNonce, captchaNonce))
  }

  /** encryptEnvelope. */
  function Sealed(c: Crypto, content: PlainContent, id: Bytes, material: Bytes, options: EncryptOptions,
                  random: RandomSource): Result<Envelope>
  {
    var _ :- CheckEncryptInputs(id, material, options);
    var m :- DrawMetadata(content, options, random);
    var payload :- PayloadOf(content, random, NonceCount(options));
    var finalKey := FinalKey(c, material, id, m.payloadNonce);
    Ok(Envelope(Some(m), SealLayers(c, m, finalKey, options, EncodePayload(payload)), []))
  }

  // ----- Opening -----

  function CheckDecryptInputs(e: Envelope, id: Bytes, material: Bytes, options: DecryptOptions): (r: Result<bool>)
    ensures r.Ok? ==> e.metadata.Some? && AcceptsMetadata(e.metadata.value) && e.ciphertext != []
                      && (e.metadata.value.password.Some? ==> options.passwordKey.Some?)
                      && (e.metadata.value.captcha.Some? ==> options.captchaKey.Some?)
  {
    var _ :- Check(|id| == ID_LENGTH, InvalidId);
    var _ :- Check(|material| == KEY_LENGTH, InvalidKey);
    var _ :- Check(e.metadata.Some? && e.ciphertext != [], MissingData);
    var m := e.metadata.value;
    var _ :- Check(AcceptsMetadata(m), InvalidMetadata);
    var _ :- Check(HasFlag(m.featureFlags, PASSWORD_FLAG) ==> options.passwordKey.Some?, PasswordKeyRequired);
    var _ :- Check(HasFlag(m.featureFlags, CAPTCHA_FLAG) ==> options.captchaKey.Some?, CaptchaKeyRequired);
    var _ :- Check(options.passwordKey.Some? ==> |options.passwordKey.value| == KEY_LENGTH, InvalidKey);
    Check(options.captchaKey.Some? ==> |options.captchaKey.value| == KEY_LENGTH, InvalidKey)
  }

  function OpenOne(c: Crypto, key: Bytes, nonce: Bytes, text: Bytes, aad: Bytes, otherwise: Failure): Result<Bytes> {
    match c.open(key, nonce, text, aad)
    case None => Thrown(otherwise)
    case Some(plain) => Ok(plain)
  }

  function OpenCaptcha(c: Crypto, m: EnvelopeMetadata, options: DecryptOptions, text: Bytes): Result<Bytes>
    requires m.captcha.Some? ==> options.captchaKey.Some?
  {
    if m.captcha.None? then Ok(text)
    else OpenOne(c, options.captchaKey.value, m.captcha.value.nonce, text, Aad(m), OpenFailed)
  }

  function OpenPassword(c: Crypto, m: EnvelopeMetadata, options: DecryptOptions, text: Bytes): Result<Bytes>
    requires m.password.Some? ==> options.passwordKey.Some?
  {
    if m.password.None? then Ok(text)
    else OpenOne(c, options.passwordKey.value, m.password.value.nonce, text, Aad(m), IncorrectPassword)
  }

  function OpenLayers(c: Crypto, m: EnvelopeMetadata, finalKey: Bytes, options: DecryptOptions, text: Bytes)
    : Result<PlainContent>
    requires m.password.Some? ==> options.passwordKey.Some?
    requires m.captcha.Some? ==> options.captchaKey.Some?
  {
    var middle :- OpenCaptcha(c, m, options, text);
    var inner :- OpenPassword(c, m, options, middle);
    var payload :- OpenOne(c, finalKey, m.payloadNonce, inner, Aad(m), OpenFailed);
    ParsePayload(payload, m.payloadKind)
  }

  /** decryptEnvelope. */
  function Opened(c: Crypto, e: Envelope, id: Bytes, material: Bytes, options: DecryptOptions): Result<PlainContent> {
    var _ :- CheckDecryptInputs(e, id, material, options);
    var m := e.metadata.value;
    OpenLayers(c, m, FinalKey(c, material, id, m.payloadNonce), options, e.ciphertext)
  }

  // ----- Opening undoes sealing -----

  /** The laws can be met. */
  lemma LawsAreConsistent() returns (c: Crypto)
    ensures Laws(c)
  {
    c := Crypto(
      (key: Bytes, nonce: Bytes, text: Bytes, aad: Bytes) => text + Zeros(TAG_LENGTH),
      (key: Bytes, nonce: Bytes, text: Bytes, aad: Bytes) =>
        if |text| < TAG_LENGTH then None else Some(text[..|text| - TAG_LENGTH]),
      (key: Bytes, salt: Bytes) => Zeros(KEY_LENGTH));
    forall key: Bytes, nonce: Bytes, text: Bytes, aad: Bytes
      ensures c.open(key, nonce, c.seal(key, nonce, text, aad), aad) == Some(text)
    {
      assert (text + Zeros(TAG_LENGTH))[..|text|] == text;
    }
  }

  lemma OpensWhatItSealed(c: Crypto, key: Bytes, nonce: Bytes, text: Bytes, aad: Bytes, otherwise: Failure)
    requires Laws(c) && |key| == KEY_LENGTH && |nonce| == NONCE_LENGTH
    ensures OpenOne(c, key, nonce, c.seal(key, nonce, text, aad), aad, otherwise) == Ok(text)
    ensures |c.seal(key, nonce, text, aad)| == |text| + TAG_LENGTH
  {
  }

  lemma {:induction false} UpToNulOfPadded(url: Bytes, n: nat)
    ensures UpToNul(url + Zeros(n)) == UpToNul(url)
  {
    var padded := url + Zeros(n);
    if url == [] {
      assert padded == Zeros(n);
    } else {
      assert padded[1..] == url[1..] + Zeros(n);
      UpToNulOfPadded(url[1..], n);
    }
  }

  lemma {:induction false} UpToNulIsWhole(url: Bytes)
    ensures UpToNul(url) == url <==> 0 !in url
    ensures |UpToNul(url)| <= |url|
  {
    if url != [] && url[0] != 0 {
      UpToNulIsWhole(url[1..]);
      assert url == [url[0]] + url[1..];
      assert UpToNul(url)[1..] == UpToNul(url[1..]);
    }
  }

  /** What a round trip gives back: a URL loses everything from its first NUL on. */
  function Recovered(content: PlainContent): PlainContent {
    match content
    case UrlContent(url) => UrlContent(UpToNul(url))
    case MarkdownContent(deflated) => content
  }

  lemma RecoveredIsWhole(content: PlainContent)
    ensures Recovered(content) == content <==> content.MarkdownContent? || 0 !in content.url
  {
    if content.UrlContent? {
      UpToNulIsWhole(content.url);
    }
  }

  predicate FitsArray(content: PlainContent) {
    content.MarkdownContent? ==> |content.deflated| <= MAX_ARRAY_LENGTH
  }

  lemma {:induction false} SizeOfVarintSmall(n: nat)
    requires n < TWO64
    ensures SizeOfVarint(n) <= 10
  {
    hide SizeOfVarint;
    SizeOfVarintMonotone(n, TWO64 - 1);
    FitsTenGroups(TWO64 - 1);
    FitsGroupsSize(TWO64 - 1, 10);
  }

  lemma {:induction false} FitsGroupsSize(n: nat, groups: nat)
    requires FitsGroups(n, groups)
    ensures SizeOfVarint(n) <= groups
  {
    if n >= 0x80 {
      FitsGroupsSize(n / 0x80, groups - 1);
    }
  }

  /** What a payload is, and that its encoding is not longer than the codec can read back. */
  lemma PayloadShape(content: PlainContent, random: RandomSource, call: nat)
    requires PayloadOf(content, random, call).Ok? && FitsArray(content)
    ensures var payload := PayloadOf(content, random, call).value;
            && payload.unknown == [] && |EncodePayload(payload)| < TWO63
            && (content.UrlContent? ==>
                  && payload.content.Url? && payload.padding == []
                  && |payload.content.url| <= MAX_URL_BYTES
                  && exists n: nat :: payload.content.url == content.url + Zeros(n))
            && (content.MarkdownContent? ==> payload.content == MarkdownDeflate(content.deflated))
  {
    var payload := PayloadOf(content, random, call).value;
    PayloadSize(payload);
    match content
    case UrlContent(url) =>
      var n := if CandidateCount(|url|) == 1 then AlignmentPadding(|url|) else UrlPadding(|url|, random(call)[0]);
      AlignmentIsAvailable(|url|);
      if CandidateCount(|url|) != 1 {
        UrlPaddingFits(|url|, random(call)[0]);
      }
      assert payload.content.url == url + Zeros(n);
      SizeOfVarintSmall(|payload.content.url|);
    case MarkdownContent(deflated) =>
      var unpadded := payload.(padding := []);
      PayloadSize(unpadded);
      assert unpadded == Payload(MarkdownDeflate(deflated), [], []);
      assert |payload.padding| == MarkdownPadding(|EncodePayload(unpadded)|);
      MarkdownPaddingBound(|EncodePayload(unpadded)|, |payload.padding|);
      SizeOfVarintSmall(|deflated|);
      assert SizePayload(payload) == Framed(SizePayload(unpadded), |payload.padding|);
  }

  lemma PayloadIsRecovered(content: PlainContent, random: RandomSource, call: nat)
    requires PayloadOf(content, random, call).Ok? && FitsArray(content)
    ensures ParsePayload(EncodePayload(PayloadOf(content, random, call).value), KindOf(content))
         == Ok(Recovered(content))
  {
    hide PayloadOf;
    PayloadShape(content, random, call);
    var payload := PayloadOf(content, random, call).value;
    PayloadRoundTrip(payload);
    if content.UrlContent? {
      var n: nat :| payload.content.url == content.url + Zeros(n);
      UpToNulOfPadded(content.url, n);
    }
  }

  /** Keys that open what was sealed; keys of layers the envelope lacks do not matter. */
  predicate MatchingKeys(options: EncryptOptions, keys: DecryptOptions) {
    && (options.password.Some? ==> keys.passwordKey == Some(options.password.value.key))
    && (options.captchaKey.Some? ==> keys.captchaKey == options.captchaKey)
    && (keys.passwordKey.Some? ==> |keys.passwordKey.value| == KEY_LENGTH)
    && (keys.captchaKey.Some? ==> |keys.captchaKey.value| == KEY_LENGTH)
  }

  /** The metadata of a new envelope passes both validators and has no unknown fields. */
  lemma DrawnMetadataIsValid(content: PlainContent, options: EncryptOptions, random: RandomSource, id: Bytes,
                             material: Bytes)
    requires CheckEncryptInputs(id, material, options).Ok? && DrawMetadata(content, options, random).Ok?
    ensures var m := DrawMetadata(content, options, random).value;
            && AcceptsMetadata(m) && Known(m) == m && !HasUnknownMetadata(m)
            && m.ttlSeconds == options.ttlSeconds && m.payloadKind == KindOf(content)
            && |m.payloadNonce| == NONCE_LENGTH
            && (m.password.Some? ==> |m.password.value.nonce| == NONCE_LENGTH)
            && (m.captcha.Some? ==> |m.captcha.value.nonce| == NONCE_LENGTH)
  {
  }

  lemma LayersAreUndone(c: Crypto, m: EnvelopeMetadata, finalKey: Bytes, options: EncryptOptions,
                        keys: DecryptOptions, payload: Bytes)
    requires Laws(c) && AcceptsMetadata(m) && |finalKey| == KEY_LENGTH
    requires options.password.Some? == m.password.Some? && options.captchaKey.Some? == m.captcha.Some?
    requires options.password.Some? ==> |options.password.value.key| == KEY_LENGTH
    requires MatchingKeys(options, keys)
    ensures OpenLayers(c, m, finalKey, keys, SealLayers(c, m, finalKey, options, payload))
         == ParsePayload(payload, m.payloadKind)
    ensures |SealLayers(c, m, finalKey, options, payload)|
         == |payload| + TAG_LENGTH * NonceCount(options)
  {
    hide Laws, Aad, ParsePayload;
    var aad := Aad(m);
    OpensWhatItSealed(c, finalKey, m.payloadNonce, payload, aad, OpenFailed);
    var inner := c.seal(finalKey, m.payloadNonce, payload, aad);
    if m.password.Some? {
      OpensWhatItSealed(c, options.password.value.key, m.password.value.nonce, inner, aad, IncorrectPassword);
    }
    var middle := if m.password.None? then inner
                  else c.seal(options.password.value.key, m.password.value.nonce, inner, aad);
    if m.captcha.Some? {
      OpensWhatItSealed(c, options.captchaKey.value, m.captcha.value.nonce, middle, aad, OpenFailed);
    }
  }

  /** For every content and every combination of layers, opening gives back what was sealed. */
  lemma OpenedUndoesSealed(c: Crypto, content: PlainContent, id: Bytes, material: Bytes, options: EncryptOptions,
                           random: RandomSource, keys: DecryptOptions)
    requires Laws(c) && FitsArray(content) && MatchingKeys(options, keys)
    requires Sealed(c, content, id, material, options, random).Ok?
    ensures Opened(c, Sealed(c, content, id, material, options, random).value, id, material, keys)
         == Ok(Recovered(content))
  {
    hide PayloadOf, DrawMetadata, SealLayers, OpenLayers, ParsePayload, Recovered;
    var m := DrawMetadata(content, options, random).value;
    var payload := PayloadOf(content, random, NonceCount(options)).value;
    var finalKey := FinalKey(c, material, id, m.payloadNonce);
    DrawnMetadataIsValid(content, options, random, id, material);
    LayersAreUndone(c, m, finalKey, options, keys, EncodePayload(payload));
    PayloadIsRecovered(content, random, NonceCount(options));
  }

  /** The CAPTCHA layer of a new envelope opens whatever password key is given. */
  lemma CaptchaIsUndone(c: Crypto, m: EnvelopeMetadata, finalKey: Bytes, options: EncryptOptions,
                        keys: DecryptOptions, payload: Bytes)
    requires Laws(c) && AcceptsMetadata(m) && |finalKey| == KEY_LENGTH
    requires options.password.Some? == m.password.Some? && options.captchaKey.Some? == m.captcha.Some?
    requires options.password.Some? ==> |options.password.value.key| == KEY_LENGTH
    requires options.captchaKey.Some? ==> keys.captchaKey == options.captchaKey
    requires keys.captchaKey.Some? ==> |keys.captchaKey.value| == KEY_LENGTH
    ensures OpenCaptcha(c, m, keys, SealLayers(c, m, finalKey, options, payload)).Ok?
    ensures SealLayers(c, m, finalKey, options, payload) != []
  {
    hide Aad;
  }

  /** The random source returns as many bytes as it is asked for. */
  predicate SourceIsRight(content: PlainContent, options: EncryptOptions, random: RandomSource) {
    && |random(0)| == NONCE_LENGTH
    && (options.password.Some? ==> |random(1)| == NONCE_LENGTH)
    && (options.captchaKey.Some? ==> |random(NonceCount(options) - 1)| == NONCE_LENGTH)
    && (content.UrlContent? && |content.url| <= MAX_URL_BYTES && CandidateCount(|content.url|) != 1
        ==> |random(NonceCount(options))| == 1)
  }

  /** Sealing succeeds exactly on inputs of the right lengths, a TTL of 32 bits, and a URL within its limit or a paste
      that is not empty. */
  lemma SealsExactly(c: Crypto, content: PlainContent, id: Bytes, material: Bytes, options: EncryptOptions,
                     random: RandomSource)
    requires SourceIsRight(content, options, random)
    ensures Sealed(c, content, id, material, options, random).Ok?
        <==> && |id| == ID_LENGTH && |material| == KEY_LENGTH && 0 <= options.ttlSeconds < TWO32
             && (options.password.Some? ==>
                   |options.password.value.key| == KEY_LENGTH && |options.password.value.salt| == SALT_LENGTH)
             && (options.captchaKey.Some? ==> |options.captchaKey.value| == KEY_LENGTH)
             && (match content
                 case UrlContent(url) => |url| <= MAX_URL_BYTES
                 case MarkdownContent(deflated) => deflated != [])
  {
    hide SealLayers, FinalKey, EncodePayload, MetadataOf, Zeros, UrlPadding, CandidateCount, MarkdownPadding;
  }

  /** A URL that holds a NUL comes back cut off at it. */
  lemma UrlWithNulIsCut(c: Crypto, id: Bytes, material: Bytes, options: EncryptOptions, random: RandomSource,
                        keys: DecryptOptions)
    requires Laws(c) && MatchingKeys(options, keys)
    requires Sealed(c, UrlContent([0x61, 0x00, 0x62]), id, material, options, random).Ok?
    ensures var sealed := Sealed(c, UrlContent([0x61, 0x00, 0x62]), id, material, options, random).value;
            Opened(c, sealed, id, material, keys) == Ok(UrlContent([0x61]))
  {
    hide Sealed, Opened, Laws;
    var content := UrlContent([0x61, 0x00, 0x62]);
    OpenedUndoesSealed(c, content, id, material, options, random, keys);
    assert content.url[1..] == [0x00, 0x62] && UpToNul([0x00, 0x62]) == [];
    assert UpToNul(content.url) == [0x61] + [] == [0x61];
  }

  /** A password key that fails to open its layer is reported as such and costs nothing: the same envelope
      opens under the right keys afterwards. */
  lemma WrongPasswordThenRight(c: Crypto, content: PlainContent, id: Bytes, material: Bytes, options: EncryptOptions,
                               random: RandomSource, keys: DecryptOptions, wrong: Bytes)
    requires Laws(c) && FitsArray(content) && MatchingKeys(options, keys) && options.password.Some?
    requires Sealed(c, content, id, material, options, random).Ok? && |wrong| == KEY_LENGTH
    requires var e := Sealed(c, content, id, material, options, random).value;
             var m := e.metadata.value;
             var text := OpenCaptcha(c, m, keys, e.ciphertext);
             m.password.Some? && text.Ok? ==> c.open(wrong, m.password.value.nonce, text.value, Aad(m)) == None
    ensures var e := Sealed(c, content, id, material, options, random).value;
            && Opened(c, e, id, material, keys.(passwordKey := Some(wrong))) == Thrown(IncorrectPassword)
            && Opened(c, e, id, material, keys) == Ok(Recovered(content))
  {
    OpenedUndoesSealed(c, content, id, material, options, random, keys);
    hide PayloadOf, DrawMetadata, ParsePayload, Laws, Recovered;
    var m := DrawMetadata(content, options, random).value;
    var payload := EncodePayload(PayloadOf(content, random, NonceCount(options)).value);
    DrawnMetadataIsValid(content, options, random, id, material);
    var finalKey := FinalKey(c, material, id, m.payloadNonce);
    FinalKeyLength(c, material, id, m.payloadNonce);
    CaptchaIsUndone(c, m, finalKey, options, keys, payload);
  }

  lemma FinalKeyLength(c: Crypto, material: Bytes, id: Bytes, nonce: Bytes)
    requires Laws(c)
    ensures |FinalKey(c, material, id, nonce)| == KEY_LENGTH
  {
  }
}
