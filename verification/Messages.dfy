/** The messages of securl/v1, their strict wire form and its size. */
module Messages {
  import opened Common
  import opened Wire

  datatype PasswordLayer = PasswordLayer(salt: Bytes, nonce: Bytes, profile: Int32, unknown: Bytes)

  datatype CaptchaLayer = CaptchaLayer(nonce: Bytes, unknown: Bytes)

  datatype EnvelopeMetadata = EnvelopeMetadata(
    protocolVersion: Uint32, featureFlags: Uint32, ttlSeconds: Uint32, payloadNonce: Bytes,
    password: Option<PasswordLayer>, captcha: Option<CaptchaLayer>, payloadKind: Int32, unknown: Bytes)

  datatype Envelope = Envelope(metadata: Option<EnvelopeMetadata>, ciphertext: Bytes, unknown: Bytes)

  datatype Content = NoContent | Url(url: Bytes) | MarkdownDeflate(deflated: Bytes)

  datatype Payload = Payload(content: Content, padding: Bytes, unknown: Bytes)

  datatype CreateRequest = CreateRequest(
    storageKey: Bytes, envelope: Option<Envelope>, captchaKey: Bytes, captchaToken: Bytes, unknown: Bytes)

  const EMPTY_PASSWORD := PasswordLayer([], [], 0, [])
  const EMPTY_CAPTCHA := CaptchaLayer([], [])
  const EMPTY_METADATA := EnvelopeMetadata(0, 0, 0, [], None, None, 0, [])
  const EMPTY_ENVELOPE := Envelope(None, [], [])
  const EMPTY_PAYLOAD := Payload(NoContent, [], [])
  const EMPTY_REQUEST := CreateRequest([], None, [], [], [])

  // ----- Strict encoding: fields in ascending order, unknown records last -----

  function EncodePassword(m: PasswordLayer): Bytes {
    PutBytes(0x0a, m.salt, PutBytes(0x12, m.nonce, PutUint(0x18, ToUint64(m.profile), m.unknown)))
  }

  function EncodeCaptcha(m: CaptchaLayer): Bytes {
    PutBytes(0x0a, m.nonce, m.unknown)
  }

  function EncodePasswordField(m: Option<PasswordLayer>): Option<Bytes> {
    if m.None? then None else Some(EncodePassword(m.value))
  }

  function EncodeCaptchaField(m: Option<CaptchaLayer>): Option<Bytes> {
    if m.None? then None else Some(EncodeCaptcha(m.value))
  }

  function EncodeMetadata(m: EnvelopeMetadata): Bytes {
    PutUint(0x08, m.protocolVersion, PutUint(0x10, m.featureFlags, PutUint(0x18, m.ttlSeconds,
      PutBytes(0x22, m.payloadNonce, EncodeMetadataLayers(m)))))
  }

  function EncodeMetadataLayers(m: EnvelopeMetadata): Bytes {
    PutOptional(0x2a, EncodePasswordField(m.password), PutOptional(0x32, EncodeCaptchaField(m.captcha),
      PutUint(0x38, ToUint64(m.payloadKind), m.unknown)))
  }

  function EncodeMetadataField(m: Option<EnvelopeMetadata>): Option<Bytes> {
    if m.None? then None else Some(EncodeMetadata(m.value))
  }

  function EncodeEnvelope(m: Envelope): Bytes {
    PutOptional(0x0a, EncodeMetadataField(m.metadata), PutBytes(0x12, m.ciphertext, m.unknown))
  }

  function EncodeEnvelopeField(m: Option<Envelope>): Option<Bytes> {
    if m.None? then None else Some(EncodeEnvelope(m.value))
  }

  function EncodePayload(m: Payload): Bytes {
    var tail := PutBytes(0x1a, m.padding, m.unknown);
    match m.content
    case NoContent => tail
    case Url(url) => PutPresent(0x0a, url, tail)
    case MarkdownDeflate(deflated) => PutPresent(0x12, deflated, tail)
  }

  function EncodeRequest(m: CreateRequest): Bytes {
    PutBytes(0x0a, m.storageKey, PutOptional(0x12, EncodeEnvelopeField(m.envelope),
      PutBytes(0x1a, m.captchaKey, PutBytes(0x22, m.captchaToken, m.unknown))))
  }

  // ----- SizeVT -----

  function SizePassword(m: PasswordLayer): nat {
    SizeOfBytes(|m.salt|) + SizeOfBytes(|m.nonce|) + SizeOfUint(ToUint64(m.profile)) + |m.unknown|
  }

  function SizeCaptcha(m: CaptchaLayer): nat {
    SizeOfBytes(|m.nonce|) + |m.unknown|
  }

  function SizeMetadata(m: EnvelopeMetadata): nat {
    SizeOfUint(m.protocolVersion) + SizeOfUint(m.featureFlags) + SizeOfUint(m.ttlSeconds)
    + SizeOfBytes(|m.payloadNonce|) + SizeMetadataLayers(m)
  }

  function SizeMetadataLayers(m: EnvelopeMetadata): nat {
    (if m.password.None? then 0 else SizeOfPresent(SizePassword(m.password.value)))
    + (if m.captcha.None? then 0 else SizeOfPresent(SizeCaptcha(m.captcha.value)))
    + SizeOfUint(ToUint64(m.payloadKind)) + |m.unknown|
  }

  function SizeEnvelope(m: Envelope): nat {
    (if m.metadata.None? then 0 else SizeOfPresent(SizeMetadata(m.metadata.value)))
    + SizeOfBytes(|m.ciphertext|) + |m.unknown|
  }

  function SizePayload(m: Payload): nat {
    (match m.content
     case NoContent => 0
     case Url(url) => SizeOfPresent(|url|)
     case MarkdownDeflate(deflated) => SizeOfPresent(|deflated|))
    + SizeOfBytes(|m.padding|) + |m.unknown|
  }

  function SizeRequest(m: CreateRequest): nat {
    SizeOfBytes(|m.storageKey|)
    + (if m.envelope.None? then 0 else SizeOfPresent(SizeEnvelope(m.envelope.value)))
    + SizeOfBytes(|m.captchaKey|) + SizeOfBytes(|m.captchaToken|) + |m.unknown|
  }

  lemma PasswordSize(m: PasswordLayer)
    ensures |EncodePassword(m)| == SizePassword(m)
  {
    var tail := PutUint(0x18, ToUint64(m.profile), m.unknown);
    PutSizes(0x18, [], ToUint64(m.profile), m.unknown);
    PutSizes(0x12, m.nonce, 0, tail);
    PutSizes(0x0a, m.salt, 0, PutBytes(0x12, m.nonce, tail));
  }

  lemma CaptchaSize(m: CaptchaLayer)
    ensures |EncodeCaptcha(m)| == SizeCaptcha(m)
  {
    PutSizes(0x0a, m.nonce, 0, m.unknown);
  }

  lemma MetadataSize(m: EnvelopeMetadata)
    ensures |EncodeMetadata(m)| == SizeMetadata(m)
  {
    var kind := PutUint(0x38, ToUint64(m.payloadKind), m.unknown);
    PutSizes(0x38, [], ToUint64(m.payloadKind), m.unknown);
    if m.captcha.Some? {
      CaptchaSize(m.captcha.value);
      PutSizes(0x32, EncodeCaptcha(m.captcha.value), 0, kind);
    }
    var captcha := PutOptional(0x32, EncodeCaptchaField(m.captcha), kind);
    if m.password.Some? {
      PasswordSize(m.password.value);
      PutSizes(0x2a, EncodePassword(m.password.value), 0, captcha);
    }
    var layers := EncodeMetadataLayers(m);
    PutSizes(0x22, m.payloadNonce, 0, layers);
    var nonce := PutBytes(0x22, m.payloadNonce, layers);
    PutSizes(0x18, [], m.ttlSeconds, nonce);
    var ttl := PutUint(0x18, m.ttlSeconds, nonce);
    PutSizes(0x10, [], m.featureFlags, ttl);
    PutSizes(0x08, [], m.protocolVersion, PutUint(0x10, m.featureFlags, ttl));
  }

  lemma EnvelopeSize(m: Envelope)
    ensures |EncodeEnvelope(m)| == SizeEnvelope(m)
  {
    var tail := PutBytes(0x12, m.ciphertext, m.unknown);
    PutSizes(0x12, m.ciphertext, 0, m.unknown);
    if m.metadata.Some? {
      MetadataSize(m.metadata.value);
      PutSizes(0x0a, EncodeMetadata(m.metadata.value), 0, tail);
    }
  }

  lemma PayloadSize(m: Payload)
    ensures |EncodePayload(m)| == SizePayload(m)
  {
    var tail := PutBytes(0x1a, m.padding, m.unknown);
    PutSizes(0x1a, m.padding, 0, m.unknown);
    match m.content
    case NoContent =>
    case Url(url) => PutSizes(0x0a, url, 0, tail);
    case MarkdownDeflate(deflated) => PutSizes(0x12, deflated, 0, tail);
  }

  lemma RequestSize(m: CreateRequest)
    ensures |EncodeRequest(m)| == SizeRequest(m)
  {
    var token := PutBytes(0x22, m.captchaToken, m.unknown);
    PutSizes(0x22, m.captchaToken, 0, m.unknown);
    var key := PutBytes(0x1a, m.captchaKey, token);
    PutSizes(0x1a, m.captchaKey, 0, token);
    if m.envelope.Some? {
      EnvelopeSize(m.envelope.value);
      PutSizes(0x12, EncodeEnvelope(m.envelope.value), 0, key);
    }
    PutSizes(0x0a, m.storageKey, 0, PutOptional(0x12, EncodeEnvelopeField(m.envelope), key));
  }

  // ----- Decoding -----

  function DecodePassword(m: PasswordLayer, d: Bytes): Option<PasswordLayer>
    decreases |d|
  {
    if d == [] then Some(m)
    else
      var t :- TakeTag(d);
      match t.field
      case 1 =>
        if t.wireType != BYTES_TYPE then None
        else
          var (v, rest) :- TakeBytes(t.rest);
          DecodePassword(m.(salt := v), rest)
      case 2 =>
        if t.wireType != BYTES_TYPE then None
        else
          var (v, rest) :- TakeBytes(t.rest);
          DecodePassword(m.(nonce := v), rest)
      case 3 =>
        if t.wireType != VARINT_TYPE then None
        else
          var (v, rest) :- TakeInt32(t.rest);
          DecodePassword(m.(profile := v), rest)
      case _ =>
        var (v, rest) :- TakeUnknown(d);
        DecodePassword(m.(unknown := m.unknown + v), rest)
  }

  function DecodeCaptcha(m: CaptchaLayer, d: Bytes): Option<CaptchaLayer>
    decreases |d|
  {
    if d == [] then Some(m)
    else
      var t :- TakeTag(d);
      match t.field
      case 1 =>
        if t.wireType != BYTES_TYPE then None
        else
          var (v, rest) :- TakeBytes(t.rest);
          DecodeCaptcha(m.(nonce := v), rest)
      case _ =>
        var (v, rest) :- TakeUnknown(d);
        DecodeCaptcha(m.(unknown := m.unknown + v), rest)
  }

  /** A repeated embedded message is merged into the one already there. */
  function MergePassword(m: Option<PasswordLayer>, d: Bytes): Option<PasswordLayer> {
    DecodePassword(if m.None? then EMPTY_PASSWORD else m.value, d)
  }

  function MergeCaptcha(m: Option<CaptchaLayer>, d: Bytes): Option<CaptchaLayer> {
    DecodeCaptcha(if m.None? then EMPTY_CAPTCHA else m.value, d)
  }

  function DecodeMetadata(m: EnvelopeMetadata, d: Bytes): Option<EnvelopeMetadata>
    decreases |d|
  {
    if d == [] then Some(m)
    else
      var t :- TakeTag(d);
      match t.field
      case 1 =>
        if t.wireType != VARINT_TYPE then None
        else
          var (v, rest) :- TakeUint32(t.rest);
          DecodeMetadata(m.(protocolVersion := v), rest)
      case 2 =>
        if t.wireType != VARINT_TYPE then None
        else
          var (v, rest) :- TakeUint32(t.rest);
          DecodeMetadata(m.(featureFlags := v), rest)
      case 3 =>
        if t.wireType != VARINT_TYPE then None
        else
          var (v, rest) :- TakeUint32(t.rest);
          DecodeMetadata(m.(ttlSeconds := v), rest)
      case 4 =>
        if t.wireType != BYTES_TYPE then None
        else
          var (v, rest) :- TakeBytes(t.rest);
          DecodeMetadata(m.(payloadNonce := v), rest)
      case 5 =>
        if t.wireType != BYTES_TYPE then None
        else
          var (v, rest) :- TakeBytes(t.rest);
          var layer :- MergePassword(m.password, v);
          DecodeMetadata(m.(password := Some(layer)), rest)
      case 6 =>
        if t.wireType != BYTES_TYPE then None
        else
          var (v, rest) :- TakeBytes(t.rest);
          var layer :- MergeCaptcha(m.captcha, v);
          DecodeMetadata(m.(captcha := Some(layer)), rest)
      case 7 =>
        if t.wireType != VARINT_TYPE then None
        else
          var (v, rest) :- TakeInt32(t.rest);
          DecodeMetadata(m.(payloadKind := v), rest)
      case _ =>
        var (v, rest) :- TakeUnknown(d);
        DecodeMetadata(m.(unknown := m.unknown + v), rest)
  }

  function MergeMetadata(m: Option<EnvelopeMetadata>, d: Bytes): Option<EnvelopeMetadata> {
    DecodeMetadata(if m.None? then EMPTY_METADATA else m.value, d)
  }

  function DecodeEnvelope(m: Envelope, d: Bytes): Option<Envelope>
    decreases |d|
  {
    if d == [] then Some(m)
    else
      var t :- TakeTag(d);
      match t.field
      case 1 =>
        if t.wireType != BYTES_TYPE then None
        else
          var (v, rest) :- TakeBytes(t.rest);
          var metadata :- MergeMetadata(m.metadata, v);
          DecodeEnvelope(m.(metadata := Some(metadata)), rest)
      case 2 =>
        if t.wireType != BYTES_TYPE then None
        else
          var (v, rest) :- TakeBytes(t.rest);
          DecodeEnvelope(m.(ciphertext := v), rest)
      case _ =>
        var (v, rest) :- TakeUnknown(d);
        DecodeEnvelope(m.(unknown := m.unknown + v), rest)
  }

  function MergeEnvelope(m: Option<Envelope>, d: Bytes): Option<Envelope> {
    DecodeEnvelope(if m.None? then EMPTY_ENVELOPE else m.value, d)
  }

  function DecodePayload(m: Payload, d: Bytes): Option<Payload>
    decreases |d|
  {
    if d == [] then Some(m)
    else
      var t :- TakeTag(d);
      match t.field
      case 1 =>
        if t.wireType != BYTES_TYPE then None
        else
          var (v, rest) :- TakeBytes(t.rest);
          DecodePayload(m.(content := Url(v)), rest)
      case 2 =>
        if t.wireType != BYTES_TYPE then None
        else
          var (v, rest) :- TakeBytes(t.rest);
          DecodePayload(m.(content := MarkdownDeflate(v)), rest)
      case 3 =>
        if t.wireType != BYTES_TYPE then None
        else
          var (v, rest) :- TakeBytes(t.rest);
          DecodePayload(m.(padding := v), rest)
      case _ =>
        var (v, rest) :- TakeUnknown(d);
        DecodePayload(m.(unknown := m.unknown + v), rest)
  }

  function DecodeRequest(m: CreateRequest, d: Bytes): Option<CreateRequest>
    decreases |d|
  {
    if d == [] then Some(m)
    else
      var t :- TakeTag(d);
      match t.field
      case 1 =>
        if t.wireType != BYTES_TYPE then None
        else
          var (v, rest) :- TakeBytes(t.rest);
          DecodeRequest(m.(storageKey := v), rest)
      case 2 =>
        if t.wireType != BYTES_TYPE then None
        else
          var (v, rest) :- TakeBytes(t.rest);
          var envelope :- MergeEnvelope(m.envelope, v);
          DecodeRequest(m.(envelope := Some(envelope)), rest)
      case 3 =>
        if t.wireType != BYTES_TYPE then None
        else
          var (v, rest) :- TakeBytes(t.rest);
          DecodeRequest(m.(captchaKey := v), rest)
      case 4 =>
        if t.wireType != BYTES_TYPE then None
        else
          var (v, rest) :- TakeBytes(t.rest);
          DecodeRequest(m.(captchaToken := v), rest)
      case _ =>
        var (v, rest) :- TakeUnknown(d);
        DecodeRequest(m.(unknown := m.unknown + v), rest)
  }

  // ----- Unknown fields -----

  predicate HasUnknownMetadata(m: EnvelopeMetadata) {
    || m.unknown != []
    || (m.password.Some? && m.password.value.unknown != [])
    || (m.captcha.Some? && m.captcha.value.unknown != [])
  }

  predicate HasUnknownEnvelope(m: Envelope) {
    m.unknown != [] || (m.metadata.Some? && HasUnknownMetadata(m.metadata.value))
  }

  predicate HasUnknownRequest(m: CreateRequest) {
    m.unknown != [] || (m.envelope.Some? && HasUnknownEnvelope(m.envelope.value))
  }
}
