/** The generated strict marshallers: a presized buffer filled from the back to the front. */
module Marshal {
  import opened Common
  import opened Wire
  import opened Messages

  /** Of a buffer that was `before`, exactly the part from i to `end` has been written, with `bytes`. */
  ghost predicate Filled(now: Bytes, before: Bytes, i: nat, end: nat, bytes: Bytes) {
    && i <= end <= |before| == |now|
    && now[i..end] == bytes
    && now[..i] == before[..i]
    && now[end..] == before[end..]
  }

  /** Filling the part just before another filled part. */
  lemma FilledBefore(now: Bytes, mid: Bytes, before: Bytes, j: nat, i: nat, end: nat, v: Bytes, tail: Bytes)
    requires Filled(mid, before, i, end, tail) && Filled(now, mid, j, i, v)
    ensures Filled(now, before, j, end, v + tail)
  {
    assert now[i..end] == now[i..][..end - i];
    assert mid[i..end] == mid[i..][..end - i];
    assert now[j..end] == now[j..i] + now[i..end];
    assert now[..j] == mid[..i][..j];
    assert now[end..] == now[i..][end - i..];
    assert mid[end..] == mid[i..][end - i..];
  }

  // ----- Steps -----

  /** One turn of the varint loop moves a group from what is left to what is done. */
  lemma {:induction false} VarintTurn(done: Bytes, v: nat)
    ensures v < 0x80 ==> Varint(v) == [v]
    ensures v >= 0x80 ==>
      && done + Varint(v) == (done + [v % 0x80 + 0x80]) + Varint(v / 0x80)
      && |Varint(v)| == 1 + |Varint(v / 0x80)|
  {
    if v >= 0x80 {
      var group, rest := [v % 0x80 + 0x80], Varint(v / 0x80);
      assert Varint(v) == group + rest;
      hide Varint;
      assert done + (group + rest) == (done + group) + rest;
    }
  }

  /** protohelpers.EncodeVarint: the varint ends just before `offset`. */
  method WriteVarint(a: array<Byte>, offset: nat, value: nat) returns (base: nat)
    requires SizeOfVarint(value) <= offset <= a.Length
    modifies a
    ensures base == offset - SizeOfVarint(value)
    ensures Filled(a[..], old(a[..]), base, offset, Varint(value))
  {
    hide Varint, SizeOfVarint;
    VarintSize(value);
    base := offset - SizeOfVarint(value);
    var i, v := base, value;
    VarintTurn([], v);
    while v >= 0x80
      invariant base <= i < offset
      invariant |Varint(v)| == offset - i
      invariant Varint(value) == a[base..i] + Varint(v)
      invariant a[..base] == old(a[..base]) && a[offset..] == old(a[offset..])
      decreases v
    {
      ghost var done := a[base..i];
      VarintTurn(done, v);
      a[i] := v % 0x80 + 0x80;
      assert a[base..i + 1] == done + [v % 0x80 + 0x80];
      v := v / 0x80;
      i := i + 1;
    }
    VarintTurn([], v);
    ghost var done := a[base..i];
    a[i] := v;
    assert a[base..offset] == done + [v];
  }

  method WriteByte(a: array<Byte>, i: nat, b: Byte) returns (j: nat)
    requires 0 < i <= a.Length
    modifies a
    ensures j == i - 1 && Filled(a[..], old(a[..]), j, i, [b])
  {
    j := i - 1;
    a[j] := b;
  }

  method WriteBytes(a: array<Byte>, end: nat, v: Bytes) returns (i: nat)
    requires |v| <= end <= a.Length
    modifies a
    ensures i == end - |v| && Filled(a[..], old(a[..]), i, end, v)
  {
    i := end - |v|;
    forall k | 0 <= k < |v| {
      a[i + k] := v[k];
    }
  }

  /** The varint and the tag of a field whose content already stands at i. */
  method WriteHeader(a: array<Byte>, i: nat, ghost end: nat, tag: Byte, n: nat, ghost tail: Bytes, ghost before: Bytes)
    returns (j: nat)
    requires 1 + SizeOfVarint(n) <= i && Filled(a[..], before, i, end, tail)
    modifies a
    ensures j == i - 1 - SizeOfVarint(n)
    ensures Filled(a[..], before, j, end, PutTag(tag, Varint(n) + tail))
  {
    ghost var s0 := a[..];
    var k := WriteVarint(a, i, n);
    ghost var s1 := a[..];
    FilledBefore(s1, s0, before, k, i, end, Varint(n), tail);
    j := WriteByte(a, k, tag);
    FilledBefore(a[..], s1, before, j, k, end, [tag], Varint(n) + tail);
  }

  method WritePresentField(a: array<Byte>, i: nat, ghost end: nat, tag: Byte, v: Bytes, ghost tail: Bytes,
                           ghost before: Bytes)
    returns (j: nat)
    requires SizeOfPresent(|v|) <= i && Filled(a[..], before, i, end, tail)
    modifies a
    ensures j == i - SizeOfPresent(|v|)
    ensures Filled(a[..], before, j, end, PutPresent(tag, v, tail))
  {
    ghost var s0 := a[..];
    j := WriteBytes(a, i, v);
    FilledBefore(a[..], s0, before, j, i, end, v, tail);
    j := WriteHeader(a, j, end, tag, |v|, v + tail, before);
  }

  method WriteBytesField(a: array<Byte>, i: nat, ghost end: nat, tag: Byte, v: Bytes, ghost tail: Bytes,
                         ghost before: Bytes)
    returns (j: nat)
    requires SizeOfBytes(|v|) <= i && Filled(a[..], before, i, end, tail)
    modifies a
    ensures j == i - SizeOfBytes(|v|)
    ensures Filled(a[..], before, j, end, PutBytes(tag, v, tail))
  {
    j := i;
    if |v| > 0 {
      j := WritePresentField(a, i, end, tag, v, tail, before);
    }
  }

  method WriteUintField(a: array<Byte>, i: nat, ghost end: nat, tag: Byte, n: nat, ghost tail: Bytes,
                        ghost before: Bytes)
    returns (j: nat)
    requires SizeOfUint(n) <= i && Filled(a[..], before, i, end, tail)
    modifies a
    ensures j == i - SizeOfUint(n)
    ensures Filled(a[..], before, j, end, PutUint(tag, n, tail))
  {
    j := i;
    if n != 0 {
      j := WriteHeader(a, i, end, tag, n, tail, before);
    }
  }

  // ----- MarshalToSizedBufferVTStrict: encode into a[..end], return the number of bytes -----

  method MarshalPassword(m: PasswordLayer, a: array<Byte>, end: nat) returns (n: nat)
    requires SizePassword(m) <= end <= a.Length
    modifies a
    ensures n == SizePassword(m) && Filled(a[..], old(a[..]), end - n, end, EncodePassword(m))
  {
    ghost var before := a[..];
    var i := WriteBytes(a, end, m.unknown);
    i := WriteUintField(a, i, end, 0x18, ToUint64(m.profile), m.unknown, before);
    ghost var t := PutUint(0x18, ToUint64(m.profile), m.unknown);
    i := WriteBytesField(a, i, end, 0x12, m.nonce, t, before);
    i := WriteBytesField(a, i, end, 0x0a, m.salt, PutBytes(0x12, m.nonce, t), before);
    n := end - i;
  }

  method MarshalCaptcha(m: CaptchaLayer, a: array<Byte>, end: nat) returns (n: nat)
    requires SizeCaptcha(m) <= end <= a.Length
    modifies a
    ensures n == SizeCaptcha(m) && Filled(a[..], old(a[..]), end - n, end, EncodeCaptcha(m))
  {
    ghost var before := a[..];
    var i := WriteBytes(a, end, m.unknown);
    i := WriteBytesField(a, i, end, 0x0a, m.nonce, m.unknown, before);
    n := end - i;
  }

  // A nested message: its content first, at the end of the free part, then its header.

  method WritePasswordField(m: Option<PasswordLayer>, a: array<Byte>, i: nat, ghost end: nat, ghost tail: Bytes,
                            ghost before: Bytes)
    returns (j: nat)
    requires m.Some? ==> SizeOfPresent(SizePassword(m.value)) <= i
    requires Filled(a[..], before, i, end, tail)
    modifies a
    ensures j == i - (if m.None? then 0 else SizeOfPresent(SizePassword(m.value)))
    ensures Filled(a[..], before, j, end, PutOptional(0x2a, EncodePasswordField(m), tail))
  {
    j := i;
    if m.Some? {
      ghost var s0 := a[..];
      var size := MarshalPassword(m.value, a, i);
      PasswordSize(m.value);
      FilledBefore(a[..], s0, before, i - size, i, end, EncodePassword(m.value), tail);
      j := WriteHeader(a, i - size, end, 0x2a, size, EncodePassword(m.value) + tail, before);
    }
  }

  method WriteCaptchaField(m: Option<CaptchaLayer>, a: array<Byte>, i: nat, ghost end: nat, ghost tail: Bytes,
                           ghost before: Bytes)
    returns (j: nat)
    requires m.Some? ==> SizeOfPresent(SizeCaptcha(m.value)) <= i
    requires Filled(a[..], before, i, end, tail)
    modifies a
    ensures j == i - (if m.None? then 0 else SizeOfPresent(SizeCaptcha(m.value)))
    ensures Filled(a[..], before, j, end, PutOptional(0x32, EncodeCaptchaField(m), tail))
  {
    j := i;
    if m.Some? {
      ghost var s0 := a[..];
      var size := MarshalCaptcha(m.value, a, i);
      CaptchaSize(m.value);
      FilledBefore(a[..], s0, before, i - size, i, end, EncodeCaptcha(m.value), tail);
      j := WriteHeader(a, i - size, end, 0x32, size, EncodeCaptcha(m.value) + tail, before);
    }
  }

  /** The unknown fields, the payload kind and the two layers, which end the metadata. */
  method WriteMetadataLayers(m: EnvelopeMetadata, a: array<Byte>, end: nat) returns (i: nat)
    requires SizeMetadataLayers(m) <= end <= a.Length
    modifies a
    ensures i == end - SizeMetadataLayers(m) && Filled(a[..], old(a[..]), i, end, EncodeMetadataLayers(m))
  {
    hide Filled, EncodePassword, EncodeCaptcha, SizePassword, SizeCaptcha, SizeOfVarint, PutUint, PutOptional;
    hide ToUint64;
    ghost var before := a[..];
    i := WriteBytes(a, end, m.unknown);
    i := WriteUintField(a, i, end, 0x38, ToUint64(m.payloadKind), m.unknown, before);
    ghost var kind := PutUint(0x38, ToUint64(m.payloadKind), m.unknown);
    i := WriteCaptchaField(m.captcha, a, i, end, kind, before);
    i := WritePasswordField(m.password, a, i, end, PutOptional(0x32, EncodeCaptchaField(m.captcha), kind), before);
  }

  method MarshalMetadata(m: EnvelopeMetadata, a: array<Byte>, end: nat) returns (n: nat)
    requires SizeMetadata(m) <= end <= a.Length
    modifies a
    ensures n == SizeMetadata(m) && Filled(a[..], old(a[..]), end - n, end, EncodeMetadata(m))
  {
    hide Filled, SizeMetadataLayers, EncodeMetadataLayers, SizeOfVarint, PutUint, PutBytes;
    ghost var before, layers := a[..], EncodeMetadataLayers(m);
    var i := WriteMetadataLayers(m, a, end);
    i := WriteBytesField(a, i, end, 0x22, m.payloadNonce, layers, before);
    ghost var nonce := PutBytes(0x22, m.payloadNonce, layers);
    i := WriteUintField(a, i, end, 0x18, m.ttlSeconds, nonce, before);
    ghost var ttl := PutUint(0x18, m.ttlSeconds, nonce);
    i := WriteUintField(a, i, end, 0x10, m.featureFlags, ttl, before);
    i := WriteUintField(a, i, end, 0x08, m.protocolVersion, PutUint(0x10, m.featureFlags, ttl), before);
    n := end - i;
  }

  method MarshalEnvelope(m: Envelope, a: array<Byte>, end: nat) returns (n: nat)
    requires SizeEnvelope(m) <= end <= a.Length
    modifies a
    ensures n == SizeEnvelope(m) && Filled(a[..], old(a[..]), end - n, end, EncodeEnvelope(m))
  {
    hide Filled, EncodeMetadata, SizeMetadata, SizeOfVarint;
    ghost var before := a[..];
    var i := WriteBytes(a, end, m.unknown);
    i := WriteBytesField(a, i, end, 0x12, m.ciphertext, m.unknown, before);
    if m.metadata.Some? {
      ghost var s0, tail := a[..], PutBytes(0x12, m.ciphertext, m.unknown);
      var size := MarshalMetadata(m.metadata.value, a, i);
      MetadataSize(m.metadata.value);
      FilledBefore(a[..], s0, before, i - size, i, end, EncodeMetadata(m.metadata.value), tail);
      i := WriteHeader(a, i - size, end, 0x0a, size, EncodeMetadata(m.metadata.value) + tail, before);
    }
    n := end - i;
  }

  method MarshalPayload(m: Payload, a: array<Byte>, end: nat) returns (n: nat)
    requires SizePayload(m) <= end <= a.Length
    modifies a
    ensures n == SizePayload(m) && Filled(a[..], old(a[..]), end - n, end, EncodePayload(m))
  {
    ghost var before := a[..];
    var i := WriteBytes(a, end, m.unknown);
    i := WriteBytesField(a, i, end, 0x1a, m.padding, m.unknown, before);
    ghost var tail := PutBytes(0x1a, m.padding, m.unknown);
    if m.content.MarkdownDeflate? {
      i := WritePresentField(a, i, end, 0x12, m.content.deflated, tail, before);
    }
    if m.content.Url? {
      i := WritePresentField(a, i, end, 0x0a, m.content.url, tail, before);
    }
    n := end - i;
  }

  method WriteEnvelopeField(m: Option<Envelope>, a: array<Byte>, i: nat, ghost end: nat, ghost tail: Bytes,
                            ghost before: Bytes)
    returns (j: nat)
    requires m.Some? ==> SizeOfPresent(SizeEnvelope(m.value)) <= i
    requires Filled(a[..], before, i, end, tail)
    modifies a
    ensures j == i - (if m.None? then 0 else SizeOfPresent(SizeEnvelope(m.value)))
    ensures Filled(a[..], before, j, end, PutOptional(0x12, EncodeEnvelopeField(m), tail))
  {
    hide EncodeEnvelope, SizeEnvelope, SizeOfVarint;
    j := i;
    if m.Some? {
      ghost var s0 := a[..];
      var size := MarshalEnvelope(m.value, a, i);
      EnvelopeSize(m.value);
      FilledBefore(a[..], s0, before, i - size, i, end, EncodeEnvelope(m.value), tail);
      j := WriteHeader(a, i - size, end, 0x12, size, EncodeEnvelope(m.value) + tail, before);
    }
  }

  method MarshalRequest(m: CreateRequest, a: array<Byte>, end: nat) returns (n: nat)
    requires SizeRequest(m) <= end <= a.Length
    modifies a
    ensures n == SizeRequest(m) && Filled(a[..], old(a[..]), end - n, end, EncodeRequest(m))
  {
    hide Filled, EncodeEnvelope, SizeEnvelope, SizeOfVarint, PutBytes, PutOptional, EncodeEnvelopeField;
    ghost var before := a[..];
    var i := WriteBytes(a, end, m.unknown);
    i := WriteBytesField(a, i, end, 0x22, m.captchaToken, m.unknown, before);
    ghost var token := PutBytes(0x22, m.captchaToken, m.unknown);
    i := WriteBytesField(a, i, end, 0x1a, m.captchaKey, token, before);
    ghost var key := PutBytes(0x1a, m.captchaKey, token);
    i := WriteEnvelopeField(m.envelope, a, i, end, key, before);
    i := WriteBytesField(a, i, end, 0x0a, m.storageKey,
      PutOptional(0x12, EncodeEnvelopeField(m.envelope), key), before);
    n := end - i;
  }

  // ----- MarshalVTStrict: allocate SizeVT bytes, fill them, return the first n -----

  method MarshalStrictMetadata(m: EnvelopeMetadata) returns (d: Bytes)
    ensures d == EncodeMetadata(m)
  {
    var a := new Byte[SizeMetadata(m)](_ => 0);
    var n := MarshalMetadata(m, a, a.Length);
    d := a[..n];
  }

  method MarshalStrictEnvelope(m: Envelope) returns (d: Bytes)
    ensures d == EncodeEnvelope(m)
  {
    var a := new Byte[SizeEnvelope(m)](_ => 0);
    var n := MarshalEnvelope(m, a, a.Length);
    d := a[..n];
  }

  method MarshalStrictPayload(m: Payload) returns (d: Bytes)
    ensures d == EncodePayload(m)
  {
    var a := new Byte[SizePayload(m)](_ => 0);
    var n := MarshalPayload(m, a, a.Length);
    d := a[..n];
  }

  method MarshalStrictRequest(m: CreateRequest) returns (d: Bytes)
    ensures d == EncodeRequest(m)
  {
    var a := new Byte[SizeRequest(m)](_ => 0);
    var n := MarshalRequest(m, a, a.Length);
    d := a[..n];
  }
}
