/** Decoding one encoding behind another: fields add up, the last scalar wins, embedded messages merge. */
module MergeLaws {
  import opened Common
  import opened Wire
  import opened Messages

  // ----- What is read in front does not depend on what follows -----

  lemma {:induction false} VarintBefore(d: Bytes, groups: nat, more: Bytes)
    requires TakeVarint(d, groups).Some?
    ensures var (v, rest) := TakeVarint(d, groups).value; TakeVarint(d + more, groups) == Some((v, rest + more))
  {
    assert (d + more)[1..] == d[1..] + more;
    if d[0] >= 0x80 {
      VarintBefore(d[1..], groups - 1, more);
    }
  }

  lemma Uint64Before(d: Bytes, more: Bytes)
    requires TakeUint64(d).Some?
    ensures var (v, rest) := TakeUint64(d).value; TakeUint64(d + more) == Some((v, rest + more))
  {
    hide TakeVarint;
    VarintBefore(d, MAX_GROUPS, more);
  }

  lemma NumbersBefore(d: Bytes, more: Bytes)
    ensures TakeTag(d).Some? ==>
      TakeTag(d + more) == Some(TakeTag(d).value.(rest := TakeTag(d).value.rest + more))
    ensures TakeUint32(d).Some? ==>
      TakeUint32(d + more) == Some((TakeUint32(d).value.0, TakeUint32(d).value.1 + more))
    ensures TakeInt32(d).Some? ==>
      TakeInt32(d + more) == Some((TakeInt32(d).value.0, TakeInt32(d).value.1 + more))
  {
    hide TakeUint64, ToInt32;
    if TakeUint64(d).Some? {
      Uint64Before(d, more);
    }
  }

  lemma BytesBefore(d: Bytes, more: Bytes)
    requires TakeBytes(d).Some?
    ensures TakeBytes(d + more) == Some((TakeBytes(d).value.0, TakeBytes(d).value.1 + more))
  {
    hide TakeUint64;
    Uint64Before(d, more);
    var (n, rest) := TakeUint64(d).value;
    assert (rest + more)[..n] == rest[..n] && (rest + more)[n..] == rest[n..] + more;
  }

  lemma ScalarBefore(wireType: nat, d: Bytes, more: Bytes)
    requires SkipScalar(wireType, d).Some?
    ensures SkipScalar(wireType, d + more) == Some(SkipScalar(wireType, d).value + more)
  {
    hide TakeUint64, TakeBytes;
    if wireType == 0 {
      Uint64Before(d, more);
    } else if wireType == 1 {
      assert (d + more)[8..] == d[8..] + more;
    } else if wireType == 2 {
      BytesBefore(d, more);
    } else if wireType == 5 {
      assert (d + more)[4..] == d[4..] + more;
    }
  }

  lemma {:induction false} RecordsBefore(d: Bytes, depth: nat, more: Bytes)
    requires SkipRecords(d, depth).Some?
    ensures SkipRecords(d + more, depth) == Some(SkipRecords(d, depth).value + more)
    decreases |d|
  {
    hide TakeUint64, SkipScalar;
    Uint64Before(d, more);
    var (v, rest) := TakeUint64(d).value;
    var wireType := v % 8;
    if wireType == 3 {
      RecordsBefore(rest, depth + 1, more);
    } else if wireType == END_GROUP_TYPE {
      if depth > 1 {
        RecordsBefore(rest, depth - 1, more);
      }
    } else {
      ScalarBefore(wireType, rest, more);
      if depth > 0 {
        RecordsBefore(SkipScalar(wireType, rest).value, depth, more);
      }
    }
  }

  lemma UnknownBefore(d: Bytes, more: Bytes)
    requires TakeUnknown(d).Some?
    ensures TakeUnknown(d + more) == Some((TakeUnknown(d).value.0, TakeUnknown(d).value.1 + more))
  {
    hide SkipRecords;
    RecordsBefore(d, 0, more);
    var n := |d| - |SkipRecords(d, 0).value|;
    assert (d + more)[..n] == d[..n] && (d + more)[n..] == d[n..] + more;
  }

  /** All of it at once, for what the decoders take next. */
  lemma ReadsBefore(d: Bytes, more: Bytes)
    requires d != []
    ensures d + more != []
    ensures TakeTag(d).Some? ==>
      && var t := TakeTag(d).value;
         && TakeTag(d + more) == Some(t.(rest := t.rest + more))
         && (TakeBytes(t.rest).Some? ==>
               TakeBytes(t.rest + more) == Some((TakeBytes(t.rest).value.0, TakeBytes(t.rest).value.1 + more)))
         && (TakeUint32(t.rest).Some? ==>
               TakeUint32(t.rest + more) == Some((TakeUint32(t.rest).value.0, TakeUint32(t.rest).value.1 + more)))
         && (TakeInt32(t.rest).Some? ==>
               TakeInt32(t.rest + more) == Some((TakeInt32(t.rest).value.0, TakeInt32(t.rest).value.1 + more)))
    ensures TakeUnknown(d).Some? ==>
      TakeUnknown(d + more) == Some((TakeUnknown(d).value.0, TakeUnknown(d).value.1 + more))
  {
    hide TakeTag, TakeBytes, TakeUint32, TakeInt32, TakeUnknown;
    NumbersBefore(d, more);
    if TakeTag(d).Some? {
      var rest := TakeTag(d).value.rest;
      NumbersBefore(rest, more);
      if TakeBytes(rest).Some? {
        BytesBefore(rest, more);
      }
    }
    if TakeUnknown(d).Some? {
      UnknownBefore(d, more);
    }
  }

  // ----- Decoding a concatenation is decoding one part after the other -----

  lemma {:induction false} PasswordConcatenation(m: PasswordLayer, a: Bytes, b: Bytes)
    requires DecodePassword(m, a).Some?
    ensures DecodePassword(m, a + b) == DecodePassword(DecodePassword(m, a).value, b)
    decreases |a|
  {
    hide TakeTag, TakeBytes, TakeInt32, TakeUnknown;
    if a == [] {
      assert a + b == b;
    } else {
      ReadsBefore(a, b);
      var t := TakeTag(a).value;
      match t.field
      case 1 => PasswordConcatenation(m.(salt := TakeBytes(t.rest).value.0), TakeBytes(t.rest).value.1, b);
      case 2 => PasswordConcatenation(m.(nonce := TakeBytes(t.rest).value.0), TakeBytes(t.rest).value.1, b);
      case 3 => PasswordConcatenation(m.(profile := TakeInt32(t.rest).value.0), TakeInt32(t.rest).value.1, b);
      case _ =>
        PasswordConcatenation(m.(unknown := m.unknown + TakeUnknown(a).value.0), TakeUnknown(a).value.1, b);
    }
  }

  lemma {:induction false} CaptchaConcatenation(m: CaptchaLayer, a: Bytes, b: Bytes)
    requires DecodeCaptcha(m, a).Some?
    ensures DecodeCaptcha(m, a + b) == DecodeCaptcha(DecodeCaptcha(m, a).value, b)
    decreases |a|
  {
    hide TakeTag, TakeBytes, TakeUnknown;
    if a == [] {
      assert a + b == b;
    } else {
      ReadsBefore(a, b);
      var t := TakeTag(a).value;
      match t.field
      case 1 => CaptchaConcatenation(m.(nonce := TakeBytes(t.rest).value.0), TakeBytes(t.rest).value.1, b);
      case _ =>
        CaptchaConcatenation(m.(unknown := m.unknown + TakeUnknown(a).value.0), TakeUnknown(a).value.1, b);
    }
  }

  /** One turn of the decoder: the message after the record in front, and what follows it. */
  function MetadataTurn(m: EnvelopeMetadata, d: Bytes): Option<(EnvelopeMetadata, Bytes)>
    requires d != []
  {
    var t :- TakeTag(d);
    match t.field
    case 1 =>
      if t.wireType != VARINT_TYPE then None
      else
        var (v, rest) :- TakeUint32(t.rest);
        Some((m.(protocolVersion := v), rest))
    case 2 =>
      if t.wireType != VARINT_TYPE then None
      else
        var (v, rest) :- TakeUint32(t.rest);
        Some((m.(featureFlags := v), rest))
    case 3 =>
      if t.wireType != VARINT_TYPE then None
      else
        var (v, rest) :- TakeUint32(t.rest);
        Some((m.(ttlSeconds := v), rest))
    case 4 =>
      if t.wireType != BYTES_TYPE then None
      else
        var (v, rest) :- TakeBytes(t.rest);
        Some((m.(payloadNonce := v), rest))
    case 5 =>
      if t.wireType != BYTES_TYPE then None
      else
        var (v, rest) :- TakeBytes(t.rest);
        var inner :- MergePassword(m.password, v);
        Some((m.(password := Some(inner)), rest))
    case 6 =>
      if t.wireType != BYTES_TYPE then None
      else
        var (v, rest) :- TakeBytes(t.rest);
        var inner :- MergeCaptcha(m.captcha, v);
        Some((m.(captcha := Some(inner)), rest))
    case 7 =>
      if t.wireType != VARINT_TYPE then None
      else
        var (v, rest) :- TakeInt32(t.rest);
        Some((m.(payloadKind := v), rest))
    case _ =>
      var (v, rest) :- TakeUnknown(d);
      Some((m.(unknown := m.unknown + v), rest))
  }

  lemma MetadataTurns(m: EnvelopeMetadata, d: Bytes)
    requires d != []
    ensures DecodeMetadata(m, d)
         == var turn := MetadataTurn(m, d);
            if turn.None? then None else DecodeMetadata(turn.value.0, turn.value.1)
    ensures MetadataTurn(m, d).Some? ==> |MetadataTurn(m, d).value.1| < |d|
  {
    hide TakeTag, TakeBytes, TakeInt32, TakeUint32, TakeUnknown, MergePassword, MergeCaptcha;
    if TakeUnknown(d).Some? {
      assert |d| == |TakeUnknown(d).value.0| + |TakeUnknown(d).value.1|;
    }
  }

  lemma MetadataTurnBefore(m: EnvelopeMetadata, d: Bytes, more: Bytes)
    requires d != [] && MetadataTurn(m, d).Some?
    ensures MetadataTurn(m, d + more)
         == Some((MetadataTurn(m, d).value.0, MetadataTurn(m, d).value.1 + more))
  {
    hide TakeTag, TakeBytes, TakeInt32, TakeUint32, TakeUnknown, MergePassword, MergeCaptcha;
    ReadsBefore(d, more);
  }

  lemma {:induction false} MetadataConcatenation(m: EnvelopeMetadata, a: Bytes, b: Bytes)
    requires DecodeMetadata(m, a).Some?
    ensures DecodeMetadata(m, a + b) == DecodeMetadata(DecodeMetadata(m, a).value, b)
    decreases |a|
  {
    hide DecodeMetadata, MetadataTurn;
    NoMetadata(m);
    if a == [] {
      assert a + b == b;
    } else {
      MetadataTurns(m, a);
      MetadataTurns(m, a + b);
      MetadataTurnBefore(m, a, b);
      var (next, rest) := MetadataTurn(m, a).value;
      MetadataConcatenation(next, rest, b);
    }
  }

  lemma NoMetadata(m: EnvelopeMetadata)
    ensures DecodeMetadata(m, []) == Some(m)
  {
  }

  lemma {:induction false} EnvelopeConcatenation(m: Envelope, a: Bytes, b: Bytes)
    requires DecodeEnvelope(m, a).Some?
    ensures DecodeEnvelope(m, a + b) == DecodeEnvelope(DecodeEnvelope(m, a).value, b)
    decreases |a|
  {
    hide TakeTag, TakeBytes, TakeUnknown, MergeMetadata;
    if a == [] {
      assert a + b == b;
    } else {
      ReadsBefore(a, b);
      var t := TakeTag(a).value;
      match t.field
      case 1 =>
        var (v, rest) := TakeBytes(t.rest).value;
        EnvelopeConcatenation(m.(metadata := MergeMetadata(m.metadata, v)), rest, b);
      case 2 => EnvelopeConcatenation(m.(ciphertext := TakeBytes(t.rest).value.0), TakeBytes(t.rest).value.1, b);
      case _ =>
        EnvelopeConcatenation(m.(unknown := m.unknown + TakeUnknown(a).value.0), TakeUnknown(a).value.1, b);
    }
  }

  /** One turn of the decoder: the message after the record in front, and what follows it. */
  function RequestTurn(m: CreateRequest, d: Bytes): Option<(CreateRequest, Bytes)>
    requires d != []
  {
    var t :- TakeTag(d);
    match t.field
    case 1 =>
      if t.wireType != BYTES_TYPE then None
      else
        var (v, rest) :- TakeBytes(t.rest);
        Some((m.(storageKey := v), rest))
    case 2 =>
      if t.wireType != BYTES_TYPE then None
      else
        var (v, rest) :- TakeBytes(t.rest);
        var inner :- MergeEnvelope(m.envelope, v);
        Some((m.(envelope := Some(inner)), rest))
    case 3 =>
      if t.wireType != BYTES_TYPE then None
      else
        var (v, rest) :- TakeBytes(t.rest);
        Some((m.(captchaKey := v), rest))
    case 4 =>
      if t.wireType != BYTES_TYPE then None
      else
        var (v, rest) :- TakeBytes(t.rest);
        Some((m.(captchaToken := v), rest))
    case _ =>
      var (v, rest) :- TakeUnknown(d);
      Some((m.(unknown := m.unknown + v), rest))
  }

  lemma RequestTurns(m: CreateRequest, d: Bytes)
    requires d != []
    ensures DecodeRequest(m, d)
         == var turn := RequestTurn(m, d);
            if turn.None? then None else DecodeRequest(turn.value.0, turn.value.1)
    ensures RequestTurn(m, d).Some? ==> |RequestTurn(m, d).value.1| < |d|
  {
    hide TakeTag, TakeBytes, TakeUnknown, MergeEnvelope;
    if TakeUnknown(d).Some? {
      assert |d| == |TakeUnknown(d).value.0| + |TakeUnknown(d).value.1|;
    }
  }

  lemma RequestTurnBefore(m: CreateRequest, d: Bytes, more: Bytes)
    requires d != [] && RequestTurn(m, d).Some?
    ensures RequestTurn(m, d + more)
         == Some((RequestTurn(m, d).value.0, RequestTurn(m, d).value.1 + more))
  {
    hide TakeTag, TakeBytes, TakeUnknown, MergeEnvelope;
    ReadsBefore(d, more);
  }

  lemma {:induction false} RequestConcatenation(m: CreateRequest, a: Bytes, b: Bytes)
    requires DecodeRequest(m, a).Some?
    ensures DecodeRequest(m, a + b) == DecodeRequest(DecodeRequest(m, a).value, b)
    decreases |a|
  {
    hide DecodeRequest, RequestTurn;
    NoRequest(m);
    if a == [] {
      assert a + b == b;
    } else {
      RequestTurns(m, a);
      RequestTurns(m, a + b);
      RequestTurnBefore(m, a, b);
      var (next, rest) := RequestTurn(m, a).value;
      RequestConcatenation(next, rest, b);
    }
  }

  lemma NoRequest(m: CreateRequest)
    ensures DecodeRequest(m, []) == Some(m)
  {
  }

  // ----- Embedded messages -----

  /** A message field that comes twice is read like one that holds both contents, one behind the other. */
  lemma RepeatedMessagesMerge(m: EnvelopeMetadata, e: Envelope, q: CreateRequest, v1: Bytes, v2: Bytes, tail: Bytes)
    requires |v1| + |v2| < TWO63
    ensures MergePassword(m.password, v1).Some? ==>
      DecodeMetadata(m, PutPresent(0x2a, v1, PutPresent(0x2a, v2, tail)))
      == DecodeMetadata(m, PutPresent(0x2a, v1 + v2, tail))
    ensures MergeCaptcha(m.captcha, v1).Some? ==>
      DecodeMetadata(m, PutPresent(0x32, v1, PutPresent(0x32, v2, tail)))
      == DecodeMetadata(m, PutPresent(0x32, v1 + v2, tail))
    ensures MergeMetadata(e.metadata, v1).Some? ==>
      DecodeEnvelope(e, PutPresent(0x0a, v1, PutPresent(0x0a, v2, tail)))
      == DecodeEnvelope(e, PutPresent(0x0a, v1 + v2, tail))
    ensures MergeEnvelope(q.envelope, v1).Some? ==>
      DecodeRequest(q, PutPresent(0x12, v1, PutPresent(0x12, v2, tail)))
      == DecodeRequest(q, PutPresent(0x12, v1 + v2, tail))
  {
    hide PutPresent, DecodePassword, DecodeCaptcha, DecodeMetadata, DecodeEnvelope, DecodeRequest;
    if MergePassword(m.password, v1).Some? {
      PasswordConcatenation(if m.password.None? then EMPTY_PASSWORD else m.password.value, v1, v2);
      LayersAreRead(m, v1, PutPresent(0x2a, v2, tail));
      LayersAreRead(m.(password := MergePassword(m.password, v1)), v2, tail);
      LayersAreRead(m, v1 + v2, tail);
    }
    if MergeCaptcha(m.captcha, v1).Some? {
      CaptchaConcatenation(if m.captcha.None? then EMPTY_CAPTCHA else m.captcha.value, v1, v2);
      LayersAreRead(m, v1, PutPresent(0x32, v2, tail));
      LayersAreRead(m.(captcha := MergeCaptcha(m.captcha, v1)), v2, tail);
      LayersAreRead(m, v1 + v2, tail);
    }
    if MergeMetadata(e.metadata, v1).Some? {
      MetadataConcatenation(if e.metadata.None? then EMPTY_METADATA else e.metadata.value, v1, v2);
      MetadataIsRead(e, v1, PutPresent(0x0a, v2, tail));
      MetadataIsRead(e.(metadata := MergeMetadata(e.metadata, v1)), v2, tail);
      MetadataIsRead(e, v1 + v2, tail);
    }
    if MergeEnvelope(q.envelope, v1).Some? {
      EnvelopeConcatenation(if q.envelope.None? then EMPTY_ENVELOPE else q.envelope.value, v1, v2);
      EnvelopeIsRead(q, v1, PutPresent(0x12, v2, tail));
      EnvelopeIsRead(q.(envelope := MergeEnvelope(q.envelope, v1)), v2, tail);
      EnvelopeIsRead(q, v1 + v2, tail);
    }
  }

  /** One message field in front. */
  lemma PresentIsTaken(tag: Byte, v: Bytes, tail: Bytes)
    requires 8 <= tag < 0x80 && tag % 8 == BYTES_TYPE && |v| < TWO63
    ensures var d := PutPresent(tag, v, tail);
            && d != [] && TakeTag(d).Some? && TakeTag(d).value.field == tag / 8
            && TakeTag(d).value.wireType == BYTES_TYPE && TakeBytes(TakeTag(d).value.rest) == Some((v, tail))
  {
    hide TakeTag, TakeBytes, Varint;
    TakeShortTag(tag, Varint(|v|) + (v + tail));
    TakeBytesInverts(v, tail);
  }

  lemma LayersAreRead(m: EnvelopeMetadata, v: Bytes, tail: Bytes)
    requires |v| < TWO63
    ensures DecodeMetadata(m, PutPresent(0x2a, v, tail))
         == var layer := MergePassword(m.password, v);
            if layer.None? then None else DecodeMetadata(m.(password := layer), tail)
    ensures DecodeMetadata(m, PutPresent(0x32, v, tail))
         == var layer := MergeCaptcha(m.captcha, v);
            if layer.None? then None else DecodeMetadata(m.(captcha := layer), tail)
  {
    hide TakeTag, TakeBytes, TakeInt32, TakeUint32, TakeUnknown, MergePassword, MergeCaptcha, PutPresent;
    PresentIsTaken(0x2a, v, tail);
    PresentIsTaken(0x32, v, tail);
  }

  lemma MetadataIsRead(e: Envelope, v: Bytes, tail: Bytes)
    requires |v| < TWO63
    ensures DecodeEnvelope(e, PutPresent(0x0a, v, tail))
         == var metadata := MergeMetadata(e.metadata, v);
            if metadata.None? then None else DecodeEnvelope(e.(metadata := metadata), tail)
  {
    hide TakeTag, TakeBytes, TakeUnknown, MergeMetadata, PutPresent;
    PresentIsTaken(0x0a, v, tail);
  }

  lemma EnvelopeIsRead(q: CreateRequest, v: Bytes, tail: Bytes)
    requires |v| < TWO63
    ensures DecodeRequest(q, PutPresent(0x12, v, tail))
         == var envelope := MergeEnvelope(q.envelope, v);
            if envelope.None? then None else DecodeRequest(q.(envelope := envelope), tail)
  {
    hide TakeTag, TakeBytes, TakeUnknown, MergeEnvelope, PutPresent;
    PresentIsTaken(0x12, v, tail);
  }

  // ----- Wire types -----

  /** A known field with another wire type than its own is an error: numbers are varints, everything else is
      length-delimited. */
  lemma WireTypesAreChecked(d: Bytes, p: PasswordLayer, c: CaptchaLayer, m: EnvelopeMetadata, e: Envelope,
                            q: CreateRequest, y: Payload)
    requires d != [] && TakeTag(d).Some?
    ensures var field, wireType := TakeTag(d).value.field, TakeTag(d).value.wireType;
            && ((field in {1, 2} && wireType != 2) || (field == 3 && wireType != 0) ==> DecodePassword(p, d) == None)
            && (field == 1 && wireType != 2 ==> DecodeCaptcha(c, d) == None)
            && (field in {4, 5, 6} && wireType != 2 ==> DecodeMetadata(m, d) == None)
            && (field in {1, 2, 3, 7} && wireType != 0 ==> DecodeMetadata(m, d) == None)
            && (field in {1, 2} && wireType != 2 ==> DecodeEnvelope(e, d) == None)
            && (field in {1, 2, 3, 4} && wireType != 2 ==> DecodeRequest(q, d) == None)
            && (field in {1, 2, 3} && wireType != 2 ==> DecodePayload(y, d) == None)
  {
    hide TakeTag, TakeBytes, TakeInt32, TakeUint32, TakeUnknown, MergePassword, MergeCaptcha, MergeMetadata;
    hide MergeEnvelope;
  }

  /** What one unknown record takes, by its wire type: 8 bytes for type 1, 4 for type 5, a whole group for type 3; a
      group that ends without having started, and the types 6 and 7, are errors. */
  lemma UnknownByType(tag: Byte, rest: Bytes)
    requires 8 <= tag < 0x80
    ensures tag % 8 == 1 ==>
      TakeUnknown([tag] + rest) == if |rest| < 8 then None else Some(([tag] + rest[..8], rest[8..]))
    ensures tag % 8 == 5 ==>
      TakeUnknown([tag] + rest) == if |rest| < 4 then None else Some(([tag] + rest[..4], rest[4..]))
    ensures tag % 8 == 3 ==> TakeUnknown([tag, tag + 1] + rest) == Some(([tag, tag + 1], rest))
    ensures tag % 8 in {4, 6, 7} ==> TakeUnknown([tag] + rest) == None
    ensures tag % 8 == 4 ==> TakeTag([tag] + rest) == None
  {
    hide TakeVarint;
    OneByteTag(tag, rest);
    if tag % 8 == 1 && |rest| >= 8 {
      assert [tag] + rest == ([tag] + rest[..8]) + rest[8..];
    } else if tag % 8 == 5 && |rest| >= 4 {
      assert [tag] + rest == ([tag] + rest[..4]) + rest[4..];
    } else if tag % 8 == 3 {
      OneByteTag(tag, [tag + 1] + rest);
      OneByteTag(tag + 1, rest);
      assert [tag, tag + 1] + rest == [tag] + ([tag + 1] + rest);
      assert SkipRecords([tag + 1] + rest, 1) == Some(rest);
      assert ([tag, tag + 1] + rest)[..2] == [tag, tag + 1] && ([tag, tag + 1] + rest)[2..] == rest;
    }
  }

  lemma OneByteTag(tag: Byte, rest: Bytes)
    requires 8 <= tag < 0x80
    ensures TakeUint64([tag] + rest) == Some((tag as nat, rest))
  {
    assert ([tag] + rest)[1..] == rest;
  }
}
