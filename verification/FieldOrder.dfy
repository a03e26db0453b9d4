/** What stands in an encoding, read record by record: which field numbers, in which order, with which values. */
module FieldOrder {
  import opened Common
  import opened Wire
  import opened Messages
  import opened Canonical

  /** The value of a record: a number, a run of bytes, or something these messages do not use. */
  datatype Value = Number(n: nat) | Blob(bytes: Bytes) | Other

  datatype Record = Record(field: nat, value: Value)

  function ValueOf(wireType: nat, d: Bytes): Option<Value> {
    if wireType == 0 then
      var (n, _) :- TakeUint64(d);
      Some(Number(n))
    else if wireType == 2 then
      var (v, _) :- TakeBytes(d);
      Some(Blob(v))
    else Some(Other)
  }

  /** All records of a message, tag by tag. */
  function Records(d: Bytes): Option<seq<Record>>
    decreases |d|
  {
    if d == [] then Some([])
    else
      var t :- TakeTag(d);
      var (_, rest) :- TakeUnknown(d);
      var value :- ValueOf(t.wireType, t.rest);
      var more :- Records(rest);
      Some([Record(t.field, value)] + more)
  }

  ghost predicate Ascending(records: seq<Record>) {
    forall i, j :: 0 <= i < j < |records| ==> records[i].field < records[j].field
  }

  /** The message can be read, and its field numbers strictly ascend. */
  ghost predicate InOrder(d: Bytes) {
    Records(d).Some? && Ascending(Records(d).value)
  }

  /** The bytes of every record with that number are such a message. */
  ghost predicate Holds(d: Bytes, field: nat, message: Bytes -> bool) {
    && Records(d).Some?
    && forall i :: 0 <= i < |Records(d).value| && Records(d).value[i].field == field ==>
         Records(d).value[i].value.Blob? && message(Records(d).value[i].value.bytes)
  }

  // ----- The schema, field by field; what has its default value is not written -----

  function WithNumber(field: nat, n: nat, more: seq<Record>): seq<Record> {
    if n == 0 then more else [Record(field, Number(n))] + more
  }

  function WithBytes(field: nat, v: Bytes, more: seq<Record>): seq<Record> {
    if v == [] then more else [Record(field, Blob(v))] + more
  }

  function WithMessage(field: nat, v: Option<Bytes>, more: seq<Record>): seq<Record> {
    if v.None? then more else [Record(field, Blob(v.value))] + more
  }

  function PasswordRecords(m: PasswordLayer): seq<Record> {
    WithBytes(1, m.salt, WithBytes(2, m.nonce, WithNumber(3, ToUint64(m.profile), [])))
  }

  function CaptchaRecords(m: CaptchaLayer): seq<Record> {
    WithBytes(1, m.nonce, [])
  }

  function MetadataRecords(m: EnvelopeMetadata): seq<Record> {
    WithNumber(1, m.protocolVersion, WithNumber(2, m.featureFlags, WithNumber(3, m.ttlSeconds,
      WithBytes(4, m.payloadNonce, LayerRecords(m)))))
  }

  function LayerRecords(m: EnvelopeMetadata): seq<Record> {
    WithMessage(5, EncodePasswordField(m.password), WithMessage(6, EncodeCaptchaField(m.captcha),
      WithNumber(7, ToUint64(m.payloadKind), [])))
  }

  function EnvelopeRecords(m: Envelope): seq<Record> {
    WithMessage(1, EncodeMetadataField(m.metadata), WithBytes(2, m.ciphertext, []))
  }

  function PayloadRecords(m: Payload): seq<Record> {
    match m.content
    case NoContent => WithBytes(3, m.padding, [])
    case Url(url) => [Record(1, Blob(url))] + WithBytes(3, m.padding, [])
    case MarkdownDeflate(deflated) => [Record(2, Blob(deflated))] + WithBytes(3, m.padding, [])
  }

  function RequestRecords(m: CreateRequest): seq<Record> {
    WithBytes(1, m.storageKey, WithMessage(2, EncodeEnvelopeField(m.envelope),
      WithBytes(3, m.captchaKey, WithBytes(4, m.captchaToken, []))))
  }

  /** Ascending, and nothing below `from`. */
  ghost predicate AscendingFrom(records: seq<Record>, from: nat) {
    Ascending(records) && forall i :: 0 <= i < |records| ==> records[i].field >= from
  }

  lemma AscendingWith(field: nat, n: nat, v: Bytes, m: Option<Bytes>, more: seq<Record>)
    requires AscendingFrom(more, field + 1)
    ensures AscendingFrom(WithNumber(field, n, more), field) && AscendingFrom(WithBytes(field, v, more), field)
    ensures AscendingFrom(WithMessage(field, m, more), field)
    ensures AscendingFrom([Record(field, Blob(v))] + more, field)
  {
    hide AscendingFrom;
    Lower(more, field);
    AscendingCons(Record(field, Number(n)), more);
    AscendingCons(Record(field, Blob(v)), more);
    if m.Some? {
      AscendingCons(Record(field, Blob(m.value)), more);
    }
  }

  lemma Lower(more: seq<Record>, field: nat)
    requires AscendingFrom(more, field + 1)
    ensures AscendingFrom(more, field)
  {
  }

  lemma AscendingCons(first: Record, more: seq<Record>)
    requires AscendingFrom(more, first.field + 1)
    ensures AscendingFrom([first] + more, first.field)
  {
    var all := [first] + more;
    assert forall i :: 0 < i < |all| ==> all[i] == more[i - 1];
  }

  // ----- Reading what a Put function wrote -----

  lemma SkipsTo(d: Bytes, head: Bytes, tail: Bytes)
    requires d == head + tail && SkipRecords(d, 0) == Some(tail)
    ensures TakeUnknown(d) == Some((head, tail))
  {
  }

  lemma ReadPresent(tag: Byte, v: Bytes, tail: Bytes)
    requires 8 <= tag < 0x80 && tag % 8 == BYTES_TYPE && |v| < TWO63
    ensures var d := PutPresent(tag, v, tail);
            Records(d) == var more := Records(tail);
                          if more.None? then None else Some([Record(tag / 8, Blob(v))] + more.value)
  {
    hide TakeTag, TakeBytes, TakeUint64, Varint, TakeUnknown;
    var content := Varint(|v|) + (v + tail);
    TakeShortTag(tag, content);
    TakeBytesInverts(v, tail);
    SkipPresent(tag, v, tail);
  }

  /** A record that is not a group ends where its value does. */
  lemma SkipOne(d: Bytes, wire: nat, rest: Bytes, after: Bytes)
    requires TakeUint64(d) == Some((wire, rest)) && wire % 8 != 3 && wire % 8 != END_GROUP_TYPE
    requires SkipScalar(wire % 8, rest) == Some(after)
    ensures SkipRecords(d, 0) == Some(after)
  {
    hide TakeUint64, SkipScalar;
  }

  lemma Regroup(a: Bytes, b: Bytes, c: Bytes, d: Bytes)
    ensures a + (b + (c + d)) == (a + (b + c)) + d
  {
  }

  lemma SkipPresent(tag: Byte, v: Bytes, tail: Bytes)
    requires 8 <= tag < 0x80 && tag % 8 == BYTES_TYPE && |v| < TWO63
    ensures TakeUnknown(PutPresent(tag, v, tail)) == Some(([tag] + (Varint(|v|) + v), tail))
  {
    hide TakeBytes, Varint, TakeUint64, TakeUnknown, SkipRecords;
    var d, content := PutPresent(tag, v, tail), Varint(|v|) + (v + tail);
    TakeBytesInverts(v, tail);
    TagNumber(tag, content);
    SkipOne(d, tag, content, tail);
    Regroup([tag], Varint(|v|), v, tail);
    SkipsTo(d, [tag] + (Varint(|v|) + v), tail);
  }

  lemma TagNumber(tag: Byte, content: Bytes)
    requires 8 <= tag < 0x80
    ensures TakeUint64(PutTag(tag, content)) == Some((tag as nat, content))
  {
    assert PutTag(tag, content)[1..] == content;
  }

  lemma ReadUint(tag: Byte, n: nat, tail: Bytes)
    requires 8 <= tag < 0x80 && tag % 8 == VARINT_TYPE && 0 < n < TWO64
    ensures var d := PutUint(tag, n, tail);
            Records(d) == var more := Records(tail);
                          if more.None? then None else Some([Record(tag / 8, Number(n))] + more.value)
  {
    hide TakeTag, TakeBytes, TakeUint64, Varint, TakeUnknown;
    TakeShortTag(tag, Varint(n) + tail);
    TakeUint64Inverts(n, tail);
    SkipUint(tag, n, tail);
  }

  lemma SkipUint(tag: Byte, n: nat, tail: Bytes)
    requires 8 <= tag < 0x80 && tag % 8 == VARINT_TYPE && 0 < n < TWO64
    ensures TakeUnknown(PutUint(tag, n, tail)) == Some(([tag] + Varint(n), tail))
  {
    hide Varint, TakeUint64, TakeUnknown, SkipRecords;
    var d := PutUint(tag, n, tail);
    TakeUint64Inverts(n, tail);
    TagNumber(tag, Varint(n) + tail);
    SkipOne(d, tag, Varint(n) + tail, tail);
    assert d == ([tag] + Varint(n)) + tail;
    SkipsTo(d, [tag] + Varint(n), tail);
  }

  /** One field in front of others, written only when it is not the default. */
  lemma ReadField(tag: Byte, v: Bytes, n: nat, m: Option<Bytes>, tail: Bytes, more: seq<Record>)
    requires 8 <= tag < 0x80 && |v| < TWO63 && n < TWO64 && (m.Some? ==> |m.value| < TWO63)
    requires Records(tail) == Some(more)
    ensures tag % 8 == BYTES_TYPE ==>
      && Records(PutBytes(tag, v, tail)) == Some(WithBytes(tag / 8, v, more))
      && Records(PutPresent(tag, v, tail)) == Some([Record(tag / 8, Blob(v))] + more)
      && Records(PutOptional(tag, m, tail)) == Some(WithMessage(tag / 8, m, more))
    ensures tag % 8 == VARINT_TYPE ==> Records(PutUint(tag, n, tail)) == Some(WithNumber(tag / 8, n, more))
  {
    hide Records, PutPresent;
    if tag % 8 == BYTES_TYPE {
      ReadPresent(tag, v, tail);
      if m.Some? {
        ReadPresent(tag, m.value, tail);
      }
    }
    if tag % 8 == VARINT_TYPE && n > 0 {
      ReadUint(tag, n, tail);
    }
  }

  lemma Nothing()
    ensures Records([]) == Some([]) && AscendingFrom([], 10)
  {
  }

  // ----- The messages -----

  lemma PasswordInOrder(m: PasswordLayer)
    requires m.unknown == [] && |EncodePassword(m)| < TWO63
    ensures Records(EncodePassword(m)) == Some(PasswordRecords(m)) && Ascending(PasswordRecords(m))
  {
    hide Records, PutBytes, PutUint, WithBytes, WithNumber, Ascending;
    PasswordSize(m);
    Nothing();
    var profile, last := PutUint(0x18, ToUint64(m.profile), []), WithNumber(3, ToUint64(m.profile), []);
    ReadField(0x18, [], ToUint64(m.profile), None, [], []);
    ReadField(0x12, m.nonce, 0, None, profile, last);
    ReadField(0x0a, m.salt, 0, None, PutBytes(0x12, m.nonce, profile), WithBytes(2, m.nonce, last));
    AscendingWith(3, ToUint64(m.profile), [], None, []);
    AscendingWith(2, 0, m.nonce, None, last);
    AscendingWith(1, 0, m.salt, None, WithBytes(2, m.nonce, last));
  }

  lemma CaptchaInOrder(m: CaptchaLayer)
    requires m.unknown == [] && |EncodeCaptcha(m)| < TWO63
    ensures Records(EncodeCaptcha(m)) == Some(CaptchaRecords(m)) && Ascending(CaptchaRecords(m))
  {
    hide Records, PutBytes, WithBytes, Ascending;
    CaptchaSize(m);
    Nothing();
    ReadField(0x0a, m.nonce, 0, None, [], []);
    AscendingWith(1, 0, m.nonce, None, []);
  }

  lemma LayersInOrder(m: EnvelopeMetadata)
    requires m.unknown == [] && |EncodeMetadata(m)| < TWO63
    ensures Records(EncodeMetadataLayers(m)) == Some(LayerRecords(m)) && AscendingFrom(LayerRecords(m), 5)
  {
    hide Records, PutOptional, PutUint, WithMessage, WithNumber, Ascending;
    hide EncodeMetadata, EncodePassword, EncodeCaptcha;
    hide SizeMetadata;
    MetadataSize(m);
    MetadataPartSizes(m);
    Nothing();
    var kind, last := PutUint(0x38, ToUint64(m.payloadKind), []), WithNumber(7, ToUint64(m.payloadKind), []);
    var captcha, password := EncodeCaptchaField(m.captcha), EncodePasswordField(m.password);
    ReadField(0x38, [], ToUint64(m.payloadKind), None, [], []);
    ReadField(0x32, [], 0, captcha, kind, last);
    ReadField(0x2a, [], 0, password, PutOptional(0x32, captcha, kind), WithMessage(6, captcha, last));
    AscendingWith(7, ToUint64(m.payloadKind), [], None, []);
    AscendingWith(6, 0, [], captcha, last);
    AscendingWith(5, 0, [], password, WithMessage(6, captcha, last));
  }

  lemma MetadataInOrder(m: EnvelopeMetadata)
    requires m.unknown == [] && |EncodeMetadata(m)| < TWO63
    ensures Records(EncodeMetadata(m)) == Some(MetadataRecords(m)) && Ascending(MetadataRecords(m))
  {
    hide Records, PutBytes, PutUint, WithBytes, WithNumber, Ascending, EncodeMetadataLayers, LayerRecords;
    hide SizeMetadata;
    MetadataSize(m);
    MetadataPartSizes(m);
    LayersInOrder(m);
    var layers, last := EncodeMetadataLayers(m), LayerRecords(m);
    var nonce, r4 := PutBytes(0x22, m.payloadNonce, layers), WithBytes(4, m.payloadNonce, last);
    var ttl, r3 := PutUint(0x18, m.ttlSeconds, nonce), WithNumber(3, m.ttlSeconds, r4);
    var flags, r2 := PutUint(0x10, m.featureFlags, ttl), WithNumber(2, m.featureFlags, r3);
    ReadField(0x22, m.payloadNonce, 0, None, layers, last);
    ReadField(0x18, [], m.ttlSeconds, None, nonce, r4);
    ReadField(0x10, [], m.featureFlags, None, ttl, r3);
    ReadField(0x08, [], m.protocolVersion, None, flags, r2);
    AscendingWith(4, 0, m.payloadNonce, None, last);
    AscendingWith(3, m.ttlSeconds, [], None, r4);
    AscendingWith(2, m.featureFlags, [], None, r3);
    AscendingWith(1, m.protocolVersion, [], None, r2);
  }

  lemma EnvelopeInOrder(m: Envelope)
    requires m.unknown == [] && |EncodeEnvelope(m)| < TWO63
    ensures Records(EncodeEnvelope(m)) == Some(EnvelopeRecords(m)) && Ascending(EnvelopeRecords(m))
  {
    hide Records, PutBytes, PutOptional, WithBytes, WithMessage, Ascending, EncodeMetadata, SizeMetadata;
    EnvelopeSize(m);
    if m.metadata.Some? {
      MetadataSize(m.metadata.value);
    }
    Nothing();
    var metadata := EncodeMetadataField(m.metadata);
    ReadField(0x12, m.ciphertext, 0, None, [], []);
    ReadField(0x0a, [], 0, metadata, PutBytes(0x12, m.ciphertext, []), WithBytes(2, m.ciphertext, []));
    AscendingWith(2, 0, m.ciphertext, None, []);
    AscendingWith(1, 0, [], metadata, WithBytes(2, m.ciphertext, []));
  }

  lemma PayloadInOrder(m: Payload)
    requires m.unknown == [] && |EncodePayload(m)| < TWO63
    ensures Records(EncodePayload(m)) == Some(PayloadRecords(m)) && Ascending(PayloadRecords(m))
  {
    hide Records, PutBytes, PutPresent, WithBytes, Ascending;
    PayloadSize(m);
    Nothing();
    var padding, last := PutBytes(0x1a, m.padding, []), WithBytes(3, m.padding, []);
    ReadField(0x1a, m.padding, 0, None, [], []);
    AscendingWith(3, 0, m.padding, None, []);
    match m.content
    case NoContent =>
    case Url(v) =>
      ReadField(0x0a, v, 0, None, padding, last);
      AscendingWith(1, 0, v, None, last);
    case MarkdownDeflate(v) =>
      ReadField(0x12, v, 0, None, padding, last);
      AscendingWith(2, 0, v, None, last);
  }

  lemma RequestInOrder(m: CreateRequest)
    requires m.unknown == [] && |EncodeRequest(m)| < TWO63
    ensures Records(EncodeRequest(m)) == Some(RequestRecords(m)) && Ascending(RequestRecords(m))
  {
    hide Records, PutBytes, PutOptional, WithBytes, WithMessage, Ascending, EncodeEnvelope, SizeEnvelope;
    RequestSize(m);
    if m.envelope.Some? {
      EnvelopeSize(m.envelope.value);
    }
    Nothing();
    var token, r4 := PutBytes(0x22, m.captchaToken, []), WithBytes(4, m.captchaToken, []);
    var key, r3 := PutBytes(0x1a, m.captchaKey, token), WithBytes(3, m.captchaKey, r4);
    var envelope := EncodeEnvelopeField(m.envelope);
    var sealed, r2 := PutOptional(0x12, envelope, key), WithMessage(2, envelope, r3);
    ReadField(0x22, m.captchaToken, 0, None, [], []);
    ReadField(0x1a, m.captchaKey, 0, None, token, r4);
    ReadField(0x12, [], 0, envelope, key, r3);
    ReadField(0x0a, m.storageKey, 0, None, sealed, r2);
    AscendingWith(4, 0, m.captchaToken, None, []);
    AscendingWith(3, 0, m.captchaKey, None, r4);
    AscendingWith(2, 0, [], envelope, r3);
    AscendingWith(1, 0, m.storageKey, None, r2);
  }

  // ----- Every accepted body, at every level -----

  ghost predicate MetadataIsOrdered(d: Bytes) {
    InOrder(d) && Holds(d, 5, InOrder) && Holds(d, 6, InOrder)
  }

  ghost predicate EnvelopeIsOrdered(d: Bytes) {
    InOrder(d) && Holds(d, 1, MetadataIsOrdered)
  }

  ghost predicate RequestIsOrdered(d: Bytes) {
    InOrder(d) && Holds(d, 2, EnvelopeIsOrdered)
  }

  /** The only record with that number, if any, holds these bytes. */
  ghost predicate OnlyHolds(records: seq<Record>, field: nat, v: Option<Bytes>) {
    forall i :: 0 <= i < |records| && records[i].field == field ==> v.Some? && records[i].value == Blob(v.value)
  }

  lemma OnlyHoldsWith(field: nat, n: nat, v: Bytes, m: Option<Bytes>, more: seq<Record>, at: nat, held: Option<Bytes>)
    requires OnlyHolds(more, at, held)
    ensures field != at ==> OnlyHolds(WithNumber(field, n, more), at, held)
    ensures field != at ==> OnlyHolds(WithBytes(field, v, more), at, held)
    ensures field != at || held == m ==> OnlyHolds(WithMessage(field, m, more), at, held)
  {
  }

  lemma MetadataHolds(m: EnvelopeMetadata, at: nat, held: Option<Bytes>)
    requires if at == 5 then held == EncodePasswordField(m.password)
             else at == 6 && held == EncodeCaptchaField(m.captcha)
    ensures OnlyHolds(MetadataRecords(m), at, held)
  {
    hide WithNumber, WithBytes, WithMessage, EncodePasswordField, EncodeCaptchaField;
    var captcha, password := EncodeCaptchaField(m.captcha), EncodePasswordField(m.password);
    var r7 := WithNumber(7, ToUint64(m.payloadKind), []);
    var r6 := WithMessage(6, captcha, r7);
    var r5 := WithMessage(5, password, r6);
    var r4 := WithBytes(4, m.payloadNonce, r5);
    var r3 := WithNumber(3, m.ttlSeconds, r4);
    var r2 := WithNumber(2, m.featureFlags, r3);
    OnlyHoldsWith(7, ToUint64(m.payloadKind), [], None, [], at, held);
    OnlyHoldsWith(6, 0, [], captcha, r7, at, held);
    OnlyHoldsWith(5, 0, [], password, r6, at, held);
    OnlyHoldsWith(4, 0, m.payloadNonce, None, r5, at, held);
    OnlyHoldsWith(3, m.ttlSeconds, [], None, r4, at, held);
    OnlyHoldsWith(2, m.featureFlags, [], None, r3, at, held);
    OnlyHoldsWith(1, m.protocolVersion, [], None, r2, at, held);
  }

  lemma MetadataOrdered(m: EnvelopeMetadata)
    requires !HasUnknownMetadata(m) && |EncodeMetadata(m)| < TWO63
    ensures MetadataIsOrdered(EncodeMetadata(m))
  {
    hide Records, EncodeMetadata, EncodePassword, EncodeCaptcha, SizeMetadata, PasswordRecords, CaptchaRecords;
    hide Ascending, MetadataRecords;
    MetadataSize(m);
    MetadataPartSizes(m);
    MetadataInOrder(m);
    MetadataHolds(m, 5, EncodePasswordField(m.password));
    MetadataHolds(m, 6, EncodeCaptchaField(m.captcha));
    if m.password.Some? {
      PasswordInOrder(m.password.value);
    }
    if m.captcha.Some? {
      CaptchaInOrder(m.captcha.value);
    }
  }

  lemma EnvelopeOrdered(m: Envelope)
    requires !HasUnknownEnvelope(m) && |EncodeEnvelope(m)| < TWO63
    ensures EnvelopeIsOrdered(EncodeEnvelope(m))
  {
    hide Records, EncodeEnvelope, EncodeMetadata, SizeMetadata, HasUnknownMetadata, MetadataIsOrdered, Ascending;
    EnvelopeSize(m);
    EnvelopeInOrder(m);
    if m.metadata.Some? {
      MetadataSize(m.metadata.value);
      MetadataOrdered(m.metadata.value);
    }
  }

  /** Every accepted body: its records, and those of every message in it, have strictly ascending numbers. */
  lemma AcceptedIsOrdered(body: Bytes)
    requires |body| < TWO63
    ensures DecodeCanonicalRequest(body).Some? ==> RequestIsOrdered(body)
    ensures DecodeCanonicalEnvelope(body).Some? ==> EnvelopeIsOrdered(body)
    ensures DecodeCanonicalMetadata(body).Some? ==> MetadataIsOrdered(body)
  {
    hide Records, EncodeRequest, EncodeEnvelope, EncodeMetadata, SizeEnvelope, HasUnknownMetadata, Ascending;
    hide MetadataIsOrdered, EnvelopeIsOrdered, DecodeRequest, DecodeEnvelope, DecodeMetadata;
    if DecodeCanonicalMetadata(body).Some? {
      MetadataOrdered(DecodeCanonicalMetadata(body).value);
    }
    if DecodeCanonicalEnvelope(body).Some? {
      EnvelopeOrdered(DecodeCanonicalEnvelope(body).value);
    }
    if DecodeCanonicalRequest(body).Some? {
      RequestOrdered(DecodeCanonicalRequest(body).value);
    }
  }

  lemma RequestOrdered(m: CreateRequest)
    requires !HasUnknownRequest(m) && |EncodeRequest(m)| < TWO63
    ensures RequestIsOrdered(EncodeRequest(m))
  {
    hide Records, EncodeRequest, EncodeEnvelope, SizeEnvelope, HasUnknownEnvelope, EnvelopeIsOrdered, Ascending;
    RequestSize(m);
    RequestInOrder(m);
    if m.envelope.Some? {
      EnvelopeSize(m.envelope.value);
      EnvelopeOrdered(m.envelope.value);
    }
  }
}
