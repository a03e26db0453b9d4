/** Which request bodies the server accepts: the strict encodings, and nothing else. */
module Canonical {
  import opened Common
  import opened Wire
  import opened Messages

  /** internal/httpapi's decodeCanonical for the create request. */
  function DecodeCanonicalRequest(body: Bytes): Option<CreateRequest> {
    var m :- DecodeRequest(EMPTY_REQUEST, body);
    if HasUnknownRequest(m) || EncodeRequest(m) != body then None else Some(m)
  }

  function DecodeCanonicalEnvelope(body: Bytes): Option<Envelope> {
    var m :- DecodeEnvelope(EMPTY_ENVELOPE, body);
    if HasUnknownEnvelope(m) || EncodeEnvelope(m) != body then None else Some(m)
  }

  function DecodeCanonicalMetadata(body: Bytes): Option<EnvelopeMetadata> {
    var m :- DecodeMetadata(EMPTY_METADATA, body);
    if HasUnknownMetadata(m) || EncodeMetadata(m) != body then None else Some(m)
  }

  // ----- One field at a time: decoding what a Put function wrote -----

  lemma ReadSalt(m: PasswordLayer, v: Bytes, tail: Bytes)
    requires |v| < TWO63 && m.salt == []
    ensures DecodePassword(m, PutBytes(0x0a, v, tail)) == DecodePassword(m.(salt := v), tail)
  {
    TakeShortTag(0x0a, Varint(|v|) + (v + tail));
    TakeBytesInverts(v, tail);
  }

  lemma ReadPasswordNonce(m: PasswordLayer, v: Bytes, tail: Bytes)
    requires |v| < TWO63 && m.nonce == []
    ensures DecodePassword(m, PutBytes(0x12, v, tail)) == DecodePassword(m.(nonce := v), tail)
  {
    TakeShortTag(0x12, Varint(|v|) + (v + tail));
    TakeBytesInverts(v, tail);
  }

  /** Only zero is left out. */
  lemma OnlyZeroIsZero(n: Int32)
    ensures ToUint64(n) == 0 <==> n == 0
  {
  }

  lemma ReadProfile(m: PasswordLayer, n: Int32, tail: Bytes)
    requires m.profile == 0
    ensures DecodePassword(m, PutUint(0x18, ToUint64(n), tail)) == DecodePassword(m.(profile := n), tail)
  {
    hide ToInt32, Varint, TakeTag, TakeInt32, TakeUnknown;
    OnlyZeroIsZero(n);
    TakeShortTag(0x18, Varint(ToUint64(n)) + tail);
    TakeInt32Inverts(n, tail);
    hide ToUint64;
  }

  lemma PasswordRoundTrip(m: PasswordLayer)
    requires |EncodePassword(m)| < TWO63 && m.unknown == []
    ensures DecodePassword(EMPTY_PASSWORD, EncodePassword(m)) == Some(m)
  {
    PasswordSize(m);
    var profile := PutUint(0x18, ToUint64(m.profile), []);
    ReadSalt(EMPTY_PASSWORD, m.salt, PutBytes(0x12, m.nonce, profile));
    var m1 := EMPTY_PASSWORD.(salt := m.salt);
    ReadPasswordNonce(m1, m.nonce, profile);
    ReadProfile(m1.(nonce := m.nonce), m.profile, []);
  }

  lemma ReadCaptchaNonce(m: CaptchaLayer, v: Bytes, tail: Bytes)
    requires |v| < TWO63 && m.nonce == []
    ensures DecodeCaptcha(m, PutBytes(0x0a, v, tail)) == DecodeCaptcha(m.(nonce := v), tail)
  {
    TakeShortTag(0x0a, Varint(|v|) + (v + tail));
    TakeBytesInverts(v, tail);
  }

  lemma CaptchaRoundTrip(m: CaptchaLayer)
    requires |EncodeCaptcha(m)| < TWO63 && m.unknown == []
    ensures DecodeCaptcha(EMPTY_CAPTCHA, EncodeCaptcha(m)) == Some(m)
  {
    CaptchaSize(m);
    ReadCaptchaNonce(EMPTY_CAPTCHA, m.nonce, []);
  }

  lemma ReadVersion(m: EnvelopeMetadata, n: Uint32, tail: Bytes)
    requires m.protocolVersion == 0
    ensures DecodeMetadata(m, PutUint(0x08, n, tail)) == DecodeMetadata(m.(protocolVersion := n), tail)
  {
    TakeShortTag(0x08, Varint(n) + tail);
    TakeUint32Inverts(n, tail);
  }

  lemma ReadFlags(m: EnvelopeMetadata, n: Uint32, tail: Bytes)
    requires m.featureFlags == 0
    ensures DecodeMetadata(m, PutUint(0x10, n, tail)) == DecodeMetadata(m.(featureFlags := n), tail)
  {
    TakeShortTag(0x10, Varint(n) + tail);
    TakeUint32Inverts(n, tail);
  }

  lemma ReadTtl(m: EnvelopeMetadata, n: Uint32, tail: Bytes)
    requires m.ttlSeconds == 0
    ensures DecodeMetadata(m, PutUint(0x18, n, tail)) == DecodeMetadata(m.(ttlSeconds := n), tail)
  {
    TakeShortTag(0x18, Varint(n) + tail);
    TakeUint32Inverts(n, tail);
  }

  lemma ReadPayloadNonce(m: EnvelopeMetadata, v: Bytes, tail: Bytes)
    requires |v| < TWO63 && m.payloadNonce == []
    ensures DecodeMetadata(m, PutBytes(0x22, v, tail)) == DecodeMetadata(m.(payloadNonce := v), tail)
  {
    TakeShortTag(0x22, Varint(|v|) + (v + tail));
    TakeBytesInverts(v, tail);
  }

  lemma PasswordField(m: EnvelopeMetadata, d: Bytes, t: Tag, v: Bytes, rest: Bytes)
    requires d != [] && TakeTag(d) == Some(t) && t.field == 5 && t.wireType == BYTES_TYPE
    requires TakeBytes(t.rest) == Some((v, rest)) && MergePassword(m.password, v).Some?
    ensures DecodeMetadata(m, d) == DecodeMetadata(m.(password := MergePassword(m.password, v)), rest)
  {
    hide TakeTag, TakeBytes, MergeCaptcha, MergePassword, TakeUint32, TakeInt32, TakeUnknown;
  }

  lemma ReadPresentPassword(m: EnvelopeMetadata, layer: PasswordLayer, tail: Bytes)
    requires m.password.None? && |EncodePassword(layer)| < TWO63 && layer.unknown == []
    ensures DecodeMetadata(m, PutPresent(0x2a, EncodePassword(layer), tail))
         == DecodeMetadata(m.(password := Some(layer)), tail)
  {
    hide EncodePassword, Varint, TakeTag, TakeBytes, DecodePassword, DecodeMetadata;
    var v := EncodePassword(layer);
    var content := Varint(|v|) + (v + tail);
    TakeShortTag(0x2a, content);
    TakeBytesInverts(v, tail);
    PasswordRoundTrip(layer);
    PasswordField(m, PutTag(0x2a, content), Tag(5, BYTES_TYPE, content), v, tail);
  }

  lemma ReadPassword(m: EnvelopeMetadata, layer: Option<PasswordLayer>, tail: Bytes)
    requires m.password.None?
    requires layer.Some? ==> |EncodePassword(layer.value)| < TWO63 && layer.value.unknown == []
    ensures DecodeMetadata(m, PutOptional(0x2a, EncodePasswordField(layer), tail))
         == DecodeMetadata(m.(password := layer), tail)
  {
    hide EncodePassword, PutPresent, DecodeMetadata;
    if layer.Some? {
      ReadPresentPassword(m, layer.value, tail);
    }
  }

  lemma CaptchaField(m: EnvelopeMetadata, d: Bytes, t: Tag, v: Bytes, rest: Bytes)
    requires d != [] && TakeTag(d) == Some(t) && t.field == 6 && t.wireType == BYTES_TYPE
    requires TakeBytes(t.rest) == Some((v, rest)) && MergeCaptcha(m.captcha, v).Some?
    ensures DecodeMetadata(m, d) == DecodeMetadata(m.(captcha := MergeCaptcha(m.captcha, v)), rest)
  {
    hide TakeTag, TakeBytes, MergeCaptcha, MergePassword, TakeUint32, TakeInt32, TakeUnknown;
  }

  lemma ReadPresentCaptcha(m: EnvelopeMetadata, layer: CaptchaLayer, tail: Bytes)
    requires m.captcha.None? && |EncodeCaptcha(layer)| < TWO63 && layer.unknown == []
    ensures DecodeMetadata(m, PutPresent(0x32, EncodeCaptcha(layer), tail))
         == DecodeMetadata(m.(captcha := Some(layer)), tail)
  {
    hide EncodeCaptcha, Varint, TakeTag, TakeBytes, DecodeCaptcha, DecodeMetadata;
    var v := EncodeCaptcha(layer);
    var content := Varint(|v|) + (v + tail);
    TakeShortTag(0x32, content);
    TakeBytesInverts(v, tail);
    CaptchaRoundTrip(layer);
    CaptchaField(m, PutTag(0x32, content), Tag(6, BYTES_TYPE, content), v, tail);
  }

  lemma ReadCaptcha(m: EnvelopeMetadata, layer: Option<CaptchaLayer>, tail: Bytes)
    requires m.captcha.None?
    requires layer.Some? ==> |EncodeCaptcha(layer.value)| < TWO63 && layer.value.unknown == []
    ensures DecodeMetadata(m, PutOptional(0x32, EncodeCaptchaField(layer), tail))
         == DecodeMetadata(m.(captcha := layer), tail)
  {
    hide EncodeCaptcha, PutPresent, DecodeMetadata;
    if layer.Some? {
      ReadPresentCaptcha(m, layer.value, tail);
    }
  }

  lemma ReadKind(m: EnvelopeMetadata, n: Int32, tail: Bytes)
    requires m.payloadKind == 0
    ensures DecodeMetadata(m, PutUint(0x38, ToUint64(n), tail)) == DecodeMetadata(m.(payloadKind := n), tail)
  {
    hide ToInt32, Varint, TakeTag, TakeInt32, TakeUnknown;
    OnlyZeroIsZero(n);
    TakeShortTag(0x38, Varint(ToUint64(n)) + tail);
    TakeInt32Inverts(n, tail);
    hide ToUint64;
  }

  lemma MetadataRoundTrip(m: EnvelopeMetadata)
    requires |EncodeMetadata(m)| < TWO63 && !HasUnknownMetadata(m)
    ensures DecodeMetadata(EMPTY_METADATA, EncodeMetadata(m)) == Some(m)
  {
    MetadataSize(m);
    MetadataPartSizes(m);
    var kind := PutUint(0x38, ToUint64(m.payloadKind), []);
    var captcha := PutOptional(0x32, EncodeCaptchaField(m.captcha), kind);
    var layers := EncodeMetadataLayers(m);
    var nonce := PutBytes(0x22, m.payloadNonce, layers);
    var ttl := PutUint(0x18, m.ttlSeconds, nonce);
    ReadVersion(EMPTY_METADATA, m.protocolVersion, PutUint(0x10, m.featureFlags, ttl));
    var m1 := EMPTY_METADATA.(protocolVersion := m.protocolVersion);
    ReadFlags(m1, m.featureFlags, ttl);
    var m2 := m1.(featureFlags := m.featureFlags);
    ReadTtl(m2, m.ttlSeconds, nonce);
    var m3 := m2.(ttlSeconds := m.ttlSeconds);
    ReadPayloadNonce(m3, m.payloadNonce, layers);
    var m4 := m3.(payloadNonce := m.payloadNonce);
    ReadPassword(m4, m.password, captcha);
    var m5 := m4.(password := m.password);
    ReadCaptcha(m5, m.captcha, kind);
    ReadKind(m5.(captcha := m.captcha), m.payloadKind, []);
  }

  lemma MetadataPartSizes(m: EnvelopeMetadata)
    ensures |m.payloadNonce| <= SizeMetadata(m)
    ensures m.password.Some? ==> |EncodePassword(m.password.value)| <= SizeMetadata(m)
    ensures m.captcha.Some? ==> |EncodeCaptcha(m.captcha.value)| <= SizeMetadata(m)
  {
    if m.password.Some? {
      PasswordSize(m.password.value);
    }
    if m.captcha.Some? {
      CaptchaSize(m.captcha.value);
    }
  }

  lemma ReadMetadata(m: Envelope, metadata: Option<EnvelopeMetadata>, tail: Bytes)
    requires m.metadata.None?
    requires metadata.Some? ==> |EncodeMetadata(metadata.value)| < TWO63 && !HasUnknownMetadata(metadata.value)
    ensures DecodeEnvelope(m, PutOptional(0x0a, EncodeMetadataField(metadata), tail))
         == DecodeEnvelope(m.(metadata := metadata), tail)
  {
    if metadata.Some? {
      var v := EncodeMetadata(metadata.value);
      TakeShortTag(0x0a, Varint(|v|) + (v + tail));
      TakeBytesInverts(v, tail);
      MetadataRoundTrip(metadata.value);
    }
  }

  lemma ReadCiphertext(m: Envelope, v: Bytes, tail: Bytes)
    requires |v| < TWO63
    ensures v != [] || m.ciphertext == [] ==>
      DecodeEnvelope(m, PutBytes(0x12, v, tail)) == DecodeEnvelope(m.(ciphertext := v), tail)
  {
    if v != [] {
      TakeShortTag(0x12, Varint(|v|) + (v + tail));
      TakeBytesInverts(v, tail);
    }
  }

  lemma EnvelopeRoundTrip(m: Envelope)
    requires |EncodeEnvelope(m)| < TWO63 && !HasUnknownEnvelope(m)
    ensures DecodeEnvelope(EMPTY_ENVELOPE, EncodeEnvelope(m)) == Some(m)
  {
    EnvelopeSize(m);
    if m.metadata.Some? {
      MetadataSize(m.metadata.value);
    }
    ReadMetadata(EMPTY_ENVELOPE, m.metadata, PutBytes(0x12, m.ciphertext, []));
    ReadCiphertext(EMPTY_ENVELOPE.(metadata := m.metadata), m.ciphertext, []);
  }

  lemma ReadStorageKey(m: CreateRequest, v: Bytes, tail: Bytes)
    requires |v| < TWO63 && m.storageKey == []
    ensures DecodeRequest(m, PutBytes(0x0a, v, tail)) == DecodeRequest(m.(storageKey := v), tail)
  {
    TakeShortTag(0x0a, Varint(|v|) + (v + tail));
    TakeBytesInverts(v, tail);
  }

  lemma ReadEnvelope(m: CreateRequest, envelope: Option<Envelope>, tail: Bytes)
    requires m.envelope.None?
    requires envelope.Some? ==> |EncodeEnvelope(envelope.value)| < TWO63 && !HasUnknownEnvelope(envelope.value)
    ensures DecodeRequest(m, PutOptional(0x12, EncodeEnvelopeField(envelope), tail))
         == DecodeRequest(m.(envelope := envelope), tail)
  {
    if envelope.Some? {
      var v := EncodeEnvelope(envelope.value);
      TakeShortTag(0x12, Varint(|v|) + (v + tail));
      TakeBytesInverts(v, tail);
      EnvelopeRoundTrip(envelope.value);
    }
  }

  lemma ReadCaptchaKey(m: CreateRequest, v: Bytes, tail: Bytes)
    requires |v| < TWO63 && m.captchaKey == []
    ensures DecodeRequest(m, PutBytes(0x1a, v, tail)) == DecodeRequest(m.(captchaKey := v), tail)
  {
    TakeShortTag(0x1a, Varint(|v|) + (v + tail));
    TakeBytesInverts(v, tail);
  }

  lemma ReadCaptchaToken(m: CreateRequest, v: Bytes, tail: Bytes)
    requires |v| < TWO63 && m.captchaToken == []
    ensures DecodeRequest(m, PutBytes(0x22, v, tail)) == DecodeRequest(m.(captchaToken := v), tail)
  {
    TakeShortTag(0x22, Varint(|v|) + (v + tail));
    TakeBytesInverts(v, tail);
  }

  lemma RequestRoundTrip(m: CreateRequest)
    requires |EncodeRequest(m)| < TWO63 && !HasUnknownRequest(m)
    ensures DecodeRequest(EMPTY_REQUEST, EncodeRequest(m)) == Some(m)
  {
    RequestSize(m);
    if m.envelope.Some? {
      EnvelopeSize(m.envelope.value);
    }
    var token := PutBytes(0x22, m.captchaToken, []);
    var key := PutBytes(0x1a, m.captchaKey, token);
    ReadStorageKey(EMPTY_REQUEST, m.storageKey, PutOptional(0x12, EncodeEnvelopeField(m.envelope), key));
    var m1 := EMPTY_REQUEST.(storageKey := m.storageKey);
    ReadEnvelope(m1, m.envelope, key);
    var m2 := m1.(envelope := m.envelope);
    ReadCaptchaKey(m2, m.captchaKey, token);
    ReadCaptchaToken(m2.(captchaKey := m.captchaKey), m.captchaToken, []);
  }

  lemma ReadPayloadContent(m: Payload, tail: Bytes)
    requires |EncodePayload(m)| < TWO63
    ensures m.content.Url? ==>
      DecodePayload(EMPTY_PAYLOAD, PutPresent(0x0a, m.content.url, tail))
      == DecodePayload(EMPTY_PAYLOAD.(content := m.content), tail)
    ensures m.content.MarkdownDeflate? ==>
      DecodePayload(EMPTY_PAYLOAD, PutPresent(0x12, m.content.deflated, tail))
      == DecodePayload(EMPTY_PAYLOAD.(content := m.content), tail)
  {
    PayloadSize(m);
    match m.content
    case NoContent =>
    case Url(v) =>
      TakeShortTag(0x0a, Varint(|v|) + (v + tail));
      TakeBytesInverts(v, tail);
    case MarkdownDeflate(v) =>
      TakeShortTag(0x12, Varint(|v|) + (v + tail));
      TakeBytesInverts(v, tail);
  }

  lemma ReadPadding(m: Payload, v: Bytes, tail: Bytes)
    requires |v| < TWO63 && m.padding == []
    ensures DecodePayload(m, PutBytes(0x1a, v, tail)) == DecodePayload(m.(padding := v), tail)
  {
    TakeShortTag(0x1a, Varint(|v|) + (v + tail));
    TakeBytesInverts(v, tail);
  }

  lemma PayloadRoundTrip(m: Payload)
    requires |EncodePayload(m)| < TWO63 && m.unknown == []
    ensures DecodePayload(EMPTY_PAYLOAD, EncodePayload(m)) == Some(m)
  {
    PayloadSize(m);
    var tail := PutBytes(0x1a, m.padding, []);
    ReadPayloadContent(m, tail);
    ReadPadding(EMPTY_PAYLOAD.(content := m.content), m.padding, []);
  }

  // ----- Acceptance -----

  /** A body is accepted exactly when it is the strict encoding of a message without unknown
      records, and that message is what the handler gets. A Go slice is shorter than 2^63. */
  lemma RequestAcceptedIffCanonical(body: Bytes, m: CreateRequest)
    requires |body| < TWO63
    ensures DecodeCanonicalRequest(body) == Some(m) <==> !HasUnknownRequest(m) && body == EncodeRequest(m)
  {
    if !HasUnknownRequest(m) && body == EncodeRequest(m) {
      RequestRoundTrip(m);
    }
  }

  lemma EnvelopeAcceptedIffCanonical(body: Bytes, m: Envelope)
    requires |body| < TWO63
    ensures DecodeCanonicalEnvelope(body) == Some(m) <==> !HasUnknownEnvelope(m) && body == EncodeEnvelope(m)
  {
    if !HasUnknownEnvelope(m) && body == EncodeEnvelope(m) {
      EnvelopeRoundTrip(m);
    }
  }

  lemma MetadataAcceptedIffCanonical(body: Bytes, m: EnvelopeMetadata)
    requires |body| < TWO63
    ensures DecodeCanonicalMetadata(body) == Some(m) <==> !HasUnknownMetadata(m) && body == EncodeMetadata(m)
  {
    if !HasUnknownMetadata(m) && body == EncodeMetadata(m) {
      MetadataRoundTrip(m);
    }
  }

  /** No two accepted bodies carry the same message, and no message has two encodings. */
  lemma EncodingIsInjective(m1: CreateRequest, m2: CreateRequest)
    requires |EncodeRequest(m1)| < TWO63 && !HasUnknownRequest(m1) && !HasUnknownRequest(m2)
    requires EncodeRequest(m1) == EncodeRequest(m2)
    ensures m1 == m2
  {
    RequestRoundTrip(m1);
    RequestRoundTrip(m2);
  }

  // ----- What decoding alone tolerates and the comparison refuses -----

  /** A request as validation leaves it: no unknown records, a storage key present. */
  ghost predicate Plain(m: CreateRequest) {
    |EncodeRequest(m)| < TWO63 && !HasUnknownRequest(m) && m.storageKey != []
  }

  /** A field written twice: the last one wins, and the body is refused. */
  lemma DuplicateFieldRefused(m: CreateRequest, first: Bytes)
    requires Plain(m) && |first| < TWO63
    ensures var body := PutPresent(0x0a, first, EncodeRequest(m));
            DecodeRequest(EMPTY_REQUEST, body) == Some(m) && DecodeCanonicalRequest(body) == None
  {
    var tail := EncodeRequest(m);
    var body := PutPresent(0x0a, first, tail);
    TakeShortTag(0x0a, Varint(|first|) + (first + tail));
    TakeBytesInverts(first, tail);
    var after := PutOptional(0x12, EncodeEnvelopeField(m.envelope),
      PutBytes(0x1a, m.captchaKey, PutBytes(0x22, m.captchaToken, [])));
    RequestSize(m);
    PutSizes(0x0a, m.storageKey, 0, after);
    LastStorageKeyWins(EMPTY_REQUEST.(storageKey := first), m.storageKey, after);
    ReadStorageKey(EMPTY_REQUEST, m.storageKey, after);
    RequestRoundTrip(m);
    PutSizes(0x0a, first, 0, tail);
    assert |body| > |tail|;
  }

  lemma LastStorageKeyWins(m: CreateRequest, v: Bytes, tail: Bytes)
    requires 0 < |v| < TWO63
    ensures DecodeRequest(m, PutBytes(0x0a, v, tail)) == DecodeRequest(m.(storageKey := v), tail)
  {
    TakeShortTag(0x0a, Varint(|v|) + (v + tail));
    TakeBytesInverts(v, tail);
  }

  /** A field out of order is read all the same, and the body is refused. */
  lemma ReorderedFieldRefused(m: CreateRequest)
    requires Plain(m) && m.captchaKey != []
    ensures var body := PutBytes(0x1a, m.captchaKey, EncodeRequest(m.(captchaKey := [])));
            DecodeRequest(EMPTY_REQUEST, body) == Some(m) && DecodeCanonicalRequest(body) == None
  {
    RequestSize(m);
    if m.envelope.Some? {
      EnvelopeSize(m.envelope.value);
    }
    var body := PutBytes(0x1a, m.captchaKey, EncodeRequest(m.(captchaKey := [])));
    var token := PutBytes(0x22, m.captchaToken, []);
    var envelope := PutOptional(0x12, EncodeEnvelopeField(m.envelope), token);
    ReadCaptchaKey(EMPTY_REQUEST, m.captchaKey, PutBytes(0x0a, m.storageKey, envelope));
    var m1 := EMPTY_REQUEST.(captchaKey := m.captchaKey);
    ReadStorageKey(m1, m.storageKey, envelope);
    var m2 := m1.(storageKey := m.storageKey);
    ReadEnvelope(m2, m.envelope, token);
    ReadCaptchaToken(m2.(envelope := m.envelope), m.captchaToken, []);
    assert body[0] == 0x1a && EncodeRequest(m)[0] == 0x0a;
  }

  /** Any other spelling of the first tag is read as that tag, and the body is refused. */
  lemma ForeignTagRefused(m: CreateRequest, tag: Bytes)
    requires Plain(m) && tag != [0x0a]
    requires TakeTag(tag + EncodeRequest(m)[1..]) == Some(Tag(1, BYTES_TYPE, EncodeRequest(m)[1..]))
    ensures var body := tag + EncodeRequest(m)[1..];
            DecodeRequest(EMPTY_REQUEST, body) == Some(m) && DecodeCanonicalRequest(body) == None
  {
    var code := EncodeRequest(m);
    var body := tag + code[1..];
    TakeShortTag(0x0a, code[1..]);
    assert PutTag(0x0a, code[1..]) == code;
    RequestRoundTrip(m);
    assert tag != [];
    assert DecodeRequest(EMPTY_REQUEST, body) == DecodeRequest(EMPTY_REQUEST, code);
  }

  /** The tag spelled with a padded varint. */
  lemma NonMinimalVarintRefused(m: CreateRequest)
    requires Plain(m)
    ensures var body := [0x8a, 0x00] + EncodeRequest(m)[1..];
            DecodeRequest(EMPTY_REQUEST, body) == Some(m) && DecodeCanonicalRequest(body) == None
  {
    var rest := EncodeRequest(m)[1..];
    var d := [0x8a, 0x00] + rest;
    assert d[1..] == [0x00] + rest;
    assert TakeVarint(d[1..], 9) == Some((0, rest));
    assert TakeVarint(d, 10) == Some((0x0a, rest));
    assert TakeUint64(d) == Some((0x0a, rest));
    ForeignTagRefused(m, [0x8a, 0x00]);
  }

  /** A field number whose low 32 bits are those of field 1. */
  lemma TruncatedFieldNumberRefused(m: CreateRequest, high: nat)
    requires Plain(m) && 0 < high < 0x2000_0000
    ensures var body := Varint((high * TWO32 + 1) * 8 + BYTES_TYPE) + EncodeRequest(m)[1..];
            DecodeRequest(EMPTY_REQUEST, body) == Some(m) && DecodeCanonicalRequest(body) == None
  {
    var wire := (high * TWO32 + 1) * 8 + BYTES_TYPE;
    TakeUint64Inverts(wire, EncodeRequest(m)[1..]);
    assert wire / 8 == high * TWO32 + 1 && wire % 8 == BYTES_TYPE;
    assert ToInt32(wire / 8) == 1;
    ForeignTagRefused(m, Varint(wire));
  }
}
