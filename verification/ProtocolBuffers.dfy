/** The envelope protocol over the byte buffers it fills, aliases and zeroes. */
module ProtocolBuffers {
  import opened Common
  import opened Wire
  import opened Messages
  import opened RequestIdentity
  import opened Padding
  import opened Protocol

  predicate AllZero(bytes: Bytes) {
    forall i :: 0 <= i < |bytes| ==> bytes[i] == 0
  }

  /** Every buffer made so far that held plaintext, a key or an intermediate ciphertext. */
  class Arena {
    ghost var buffers: set<array<Byte>>

    constructor ()
      ensures buffers == {}
    {
      buffers := {};
    }
  }

  /** The buffers made since, except the given ones, are new and zero. */
  twostate predicate Cleaned(arena: Arena, new except: set<array<Byte>>)
    reads arena, arena.buffers
  {
    && old(arena.buffers) <= arena.buffers
    && forall b :: b in arena.buffers && b !in old(arena.buffers) ==> fresh(b) && (b in except || AllZero(b[..]))
  }

  method NewBuffer(arena: Arena, bytes: Bytes) returns (buffer: array<Byte>)
    modifies arena
    ensures fresh(buffer) && buffer[..] == bytes && arena.buffers == old(arena.buffers) + {buffer}
    ensures buffer !in old(arena.buffers)
  {
    buffer := new Byte[|bytes|](i requires 0 <= i < |bytes| => bytes[i]);
    arena.buffers := arena.buffers + {buffer};
  }

  /** Uint8Array.fill(0). */
  method FillZero(buffer: array<Byte>)
    modifies buffer
    ensures AllZero(buffer[..])
  {
    var i := 0;
    while i < buffer.Length
      invariant i <= buffer.Length && forall k :: 0 <= k < i ==> buffer[k] == 0
    {
      buffer[i] := 0;
      i := i + 1;
    }
  }

  /** The buffer that may be left over. */
  ghost function Kept(drawn: Option<array<Byte>>): set<array<Byte>> {
    if drawn.Some? then {drawn.value} else {}
  }

  /**
   * The copy that is returned belongs to the caller. What it is copied from is the source's own, unless there is no
   * source: then it is a buffer drawn here, which nothing zeroes.
   */
  method TakeRandomBytes(arena: Arena, random: RandomSource, given: bool, call: nat, length: nat)
    returns (r: Result<array<Byte>>, ghost drawn: Option<array<Byte>>)
    modifies arena
    ensures drawn.None? <==> given
    ensures drawn.Some? ==> fresh(drawn.value) && drawn.value[..] == random(call)
    ensures r.Ok? <==> TakeRandom(random, call, length).Ok?
    ensures r.Ok? ==> fresh(r.value) && r.value[..] == random(call) && drawn != Some(r.value)
    ensures r.Thrown? ==> r == Thrown(BadRandomSource)
    ensures arena.buffers == old(arena.buffers) + Kept(drawn) + (if r.Ok? then {r.value} else {})
    ensures r.Ok? ==> r.value !in old(arena.buffers)
  {
    drawn := None;
    if !given {
      var values := NewBuffer(arena, random(call));
      drawn := Some(values);
    }
    if |random(call)| != length {
      return Thrown(BadRandomSource), drawn;
    }
    var bytes := NewBuffer(arena, random(call));
    r := Ok(bytes);
  }

  /** A padding is drawn for this content, and no random source is given to draw it from. */
  predicate DrawsChoice(content: PlainContent, given: bool) {
    && !given && content.UrlContent?
    && |content.url| <= MAX_URL_BYTES && CandidateCount(|content.url|) != 1
  }

  method PadDestinationUrl(arena: Arena, url: Bytes, random: RandomSource, given: bool, call: nat)
    returns (r: Result<Bytes>, ghost drawn: Option<array<Byte>>)
    modifies arena
    ensures r == PaddedUrl(url, random, call)
    ensures Cleaned(arena, Kept(drawn))
    ensures drawn.Some? ==> fresh(drawn.value) && drawn.value[..] == random(call)
    ensures drawn.Some? <==> DrawsChoice(UrlContent(url), given)
  {
    hide UrlPadding, AlignmentPadding;
    drawn := None;
    var destinationBytes := NewBuffer(arena, url);
    var length := destinationBytes.Length;
    FillZero(destinationBytes);
    if length > MAX_URL_BYTES {
      return Thrown(UrlTooLong), drawn;
    }
    if CandidateCount(length) == 1 {
      return Ok(url + Zeros(AlignmentPadding(length))), drawn;
    }
    var randomChoice;
    randomChoice, drawn := TakeRandomBytes(arena, random, given, call, 1);
    if randomChoice.Thrown? {
      return Thrown(randomChoice.failure), drawn;
    }
    r := Ok(url + Zeros(UrlPadding(length, randomChoice.value[0])));
    FillZero(randomChoice.value);
  }

  /** The buffer that leaves this method holds the serialized payload. */
  method SerializePayload(arena: Arena, content: PlainContent, random: RandomSource, given: bool, call: nat)
    returns (r: Result<array<Byte>>, ghost drawn: Option<array<Byte>>)
    modifies arena
    ensures match PayloadOf(content, random, call)
            case Thrown(f) => r == Thrown(f) && Cleaned(arena, Kept(drawn))
            case Ok(p) => r.Ok? && fresh(r.value) && r.value[..] == EncodePayload(p)
                          && Cleaned(arena, {r.value} + Kept(drawn))
                          && r.value in arena.buffers && drawn != Some(r.value)
    ensures drawn.Some? ==> fresh(drawn.value) && drawn.value[..] == random(call)
    ensures drawn.Some? <==> DrawsChoice(content, given)
  {
    hide CandidateCount, AlignmentPadding, UrlPadding, EncodePayload, IsMarkdownPadding;
    drawn := None;
    match content
    case UrlContent(url) =>
      var padded;
      padded, drawn := PadDestinationUrl(arena, url, random, given, call);
      if padded.Thrown? {
        return Thrown(padded.failure), drawn;
      }
      var bytes := NewBuffer(arena, EncodePayload(Payload(Url(padded.value), [], [])));
      r := Ok(bytes);
    case MarkdownContent(deflated) =>
      if |deflated| == 0 {
        return Thrown(EmptyPaste), drawn;
      }
      var payload := Payload(MarkdownDeflate(deflated), [], []);
      var unpadded := NewBuffer(arena, EncodePayload(payload));
      var length := MarkdownPaddingLength(unpadded.Length);
      MarkdownPaddingIsUnique(unpadded.Length, length, MarkdownPadding(unpadded.Length));
      if length == 0 {
        assert payload.(padding := Zeros(0)) == payload;
        return Ok(unpadded), drawn;
      }
      FillZero(unpadded);
      var bytes := NewBuffer(arena, EncodePayload(payload.(padding := Zeros(length))));
      r := Ok(bytes);
  }

  method DeriveFinalKey(arena: Arena, c: Crypto, material: Bytes, id: Bytes, nonce: Bytes) returns (key: array<Byte>)
    modifies arena
    ensures fresh(key) && key[..] == FinalKey(c, material, id, nonce)
    ensures arena.buffers == old(arena.buffers) + {key} && key !in old(arena.buffers)
  {
    key := NewBuffer(arena, FinalKey(c, material, id, nonce));
  }

  method SealLayer(arena: Arena, c: Crypto, key: Bytes, nonce: Bytes, text: array<Byte>, aad: Bytes)
    returns (sealed: array<Byte>)
    modifies arena
    ensures fresh(sealed) && sealed[..] == c.seal(key, nonce, text[..], aad)
    ensures arena.buffers == old(arena.buffers) + {sealed} && sealed !in old(arena.buffers)
  {
    sealed := NewBuffer(arena, c.seal(key, nonce, text[..], aad));
  }

  /** A layer that opens makes one new buffer; one that does not, none. */
  method OpenLayer(arena: Arena, c: Crypto, key: Bytes, nonce: Bytes, text: array<Byte>, aad: Bytes)
    returns (layer: Option<array<Byte>>)
    modifies arena
    ensures layer.None? <==> c.open(key, nonce, text[..], aad).None?
    ensures layer.None? ==> arena.buffers == old(arena.buffers)
    ensures layer.Some? ==>
      && fresh(layer.value) && Some(layer.value[..]) == c.open(key, nonce, text[..], aad)
      && arena.buffers == old(arena.buffers) + {layer.value} && layer.value !in old(arena.buffers)
  {
    match c.open(key, nonce, text[..], aad)
    case None => layer := None;
    case Some(plain) =>
      var buffer := NewBuffer(arena, plain);
      layer := Some(buffer);
  }

  datatype SealedEnvelope = SealedEnvelope(metadata: EnvelopeMetadata, ciphertext: array<Byte>)

  /** The inputs are accepted and the nonces drawn, so that the payload is serialized. */
  predicate Serializes(content: PlainContent, id: Bytes, material: Bytes, options: EncryptOptions,
                       random: RandomSource)
  {
    CheckEncryptInputs(id, material, options).Ok? && options.ttlSeconds >= 0
    && DrawMetadata(content, options, random).Ok?
  }

  /**
   * encryptEnvelope: on every exit every buffer made is zero, except the returned ciphertext and, exactly when a
   * padding was drawn without a source being given, the buffer it was drawn into.
   */
  method EncryptEnvelope(arena: Arena, c: Crypto, content: PlainContent, id: Bytes, material: Bytes,
                         options: EncryptOptions, random: RandomSource, given: bool)
    returns (r: Result<SealedEnvelope>, ghost drawn: Option<array<Byte>>)
    modifies arena
    ensures match Sealed(c, content, id, material, options, random)
            case Thrown(f) => r == Thrown(f) && Cleaned(arena, Kept(drawn))
            case Ok(e) =>
              && r.Ok? && e.metadata == Some(r.value.metadata) && e.ciphertext == r.value.ciphertext[..]
              && fresh(r.value.ciphertext) && Cleaned(arena, {r.value.ciphertext} + Kept(drawn))
              && drawn != Some(r.value.ciphertext)
    ensures drawn.Some? ==> fresh(drawn.value) && drawn.value[..] == random(NonceCount(options))
    ensures drawn.Some? <==> Serializes(content, id, material, options, random) && DrawsChoice(content, given)
  {
    hide PayloadOf, EncodePayload, Aad, FinalKey, CheckEncryptInputs, DrawMetadata, DrawsChoice, AllZero;
    drawn := None;
    var checked := CheckEncryptInputs(id, material, options);
    if checked.Thrown? {
      return Thrown(checked.failure), drawn;
    }
    ChecksTtl(id, material, options);
    var nonces := DrawMetadata(content, options, random);
    if nonces.Thrown? {
      return Thrown(nonces.failure), drawn;
    }
    var m := nonces.value;
    var serialized;
    serialized, drawn := SerializePayload(arena, content, random, given, NonceCount(options));
    if serialized.Thrown? {
      return Thrown(serialized.failure), drawn;
    }
    var payloadBytes := serialized.value;
    var finalKey := DeriveFinalKey(arena, c, material, id, m.payloadNonce);
    var ciphertext := SealAll(arena, c, m, finalKey, options, payloadBytes);
    r := Ok(SealedEnvelope(m, ciphertext));
  }

  /** An input at which a buffer is left: the empty URL has several candidates, so a choice is drawn and stays. */
  method EmptyUrlLeavesItsChoice(c: Crypto) returns (r: Result<SealedEnvelope>, ghost drawn: Option<array<Byte>>)
    ensures r.Ok? && drawn.Some? && drawn.value[..] == [7]
  {
    hide PayloadOf, DrawMetadata, Sealed, CheckEncryptInputs;
    var arena := new Arena();
    var options := EncryptOptions(0, None, None, false);
    var random: RandomSource := (call: nat) => if call == 0 then Zeros(NONCE_LENGTH) else [7];
    r, drawn := EncryptEnvelope(arena, c, UrlContent([]), Zeros(ID_LENGTH), Zeros(KEY_LENGTH), options, random, false);
    SealsExactly(c, UrlContent([]), Zeros(ID_LENGTH), Zeros(KEY_LENGTH), options, random);
    SealedSerializes(c, UrlContent([]), Zeros(ID_LENGTH), Zeros(KEY_LENGTH), options, random);
  }

  lemma SealedSerializes(c: Crypto, content: PlainContent, id: Bytes, material: Bytes, options: EncryptOptions,
                         random: RandomSource)
    requires Sealed(c, content, id, material, options, random).Ok?
    ensures Serializes(content, id, material, options, random)
  {
    hide PayloadOf, DrawMetadata, SealLayers, FinalKey;
  }

  lemma ChecksTtl(id: Bytes, material: Bytes, options: EncryptOptions)
    requires CheckEncryptInputs(id, material, options).Ok?
    ensures options.ttlSeconds >= 0
  {
  }

  /** Each layer's input is zeroed once the layer is sealed. */
  method SealAll(arena: Arena, c: Crypto, m: EnvelopeMetadata, finalKey: array<Byte>, options: EncryptOptions,
                 payloadBytes: array<Byte>) returns (ciphertext: array<Byte>)
    requires options.password.Some? == m.password.Some? && options.captchaKey.Some? == m.captcha.Some?
    requires finalKey != payloadBytes && finalKey in arena.buffers && payloadBytes in arena.buffers
    modifies arena, finalKey, payloadBytes
    ensures fresh(ciphertext)
    ensures ciphertext[..] == SealLayers(c, m, old(finalKey[..]), options, old(payloadBytes[..]))
    ensures AllZero(finalKey[..]) && AllZero(payloadBytes[..])
    ensures Cleaned(arena, {ciphertext})
  {
    hide Aad;
    var aad := Aad(m);
    ciphertext := SealLayer(arena, c, finalKey[..], m.payloadNonce, payloadBytes, aad);
    FillZero(payloadBytes);
    FillZero(finalKey);
    if options.password.Some? {
      var next := SealLayer(arena, c, options.password.value.key, m.password.value.nonce, ciphertext, aad);
      FillZero(ciphertext);
      ciphertext := next;
    }
    if options.captchaKey.Some? {
      var next := SealLayer(arena, c, options.captchaKey.value, m.captcha.value.nonce, ciphertext, aad);
      FillZero(ciphertext);
      ciphertext := next;
    }
  }

  // ----- Opening -----

  /** Decoded bytes are a view into the buffer they were decoded from. */
  datatype ParsedContent = ParsedUrl(url: Bytes) | ParsedMarkdown(buffer: array<Byte>, from: nat, to: nat)

  datatype OpenedContent = OpenedUrl(url: Bytes) | OpenedMarkdown(deflated: array<Byte>)

  ghost predicate IsSlice(d: Bytes, from: nat, v: Bytes) {
    from + |v| <= |d| && d[from..from + |v|] == v
  }

  lemma TakeBytesIsSlice(d: Bytes) returns (from: nat)
    requires TakeBytes(d).Some?
    ensures IsSlice(d, from, TakeBytes(d).value.0)
    ensures from + |TakeBytes(d).value.0| <= |d| && TakeBytes(d).value.1 == d[from + |TakeBytes(d).value.0|..]
  {
    var v := TakeUint64(d).value;
    TakeVarintIsSuffix(d, MAX_GROUPS);
    from := |d| - |v.1|;
  }

  lemma {:induction false} TakeVarintIsSuffix(d: Bytes, groups: nat)
    requires TakeVarint(d, groups).Some?
    ensures var rest := TakeVarint(d, groups).value.1; |rest| <= |d| && rest == d[|d| - |rest|..]
  {
    if d[0] >= 0x80 {
      TakeVarintIsSuffix(d[1..], groups - 1);
    }
  }

  lemma {:induction false} SliceOfSuffix(d: Bytes, k: nat, from: nat, v: Bytes)
    requires k <= |d| && IsSlice(d[k..], from, v)
    ensures IsSlice(d, k + from, v)
  {
  }

  lemma TakeTagIsSuffix(d: Bytes)
    requires TakeTag(d).Some?
    ensures var rest := TakeTag(d).value.rest; |rest| <= |d| && rest == d[|d| - |rest|..]
  {
    TakeVarintIsSuffix(d, MAX_GROUPS);
  }

  lemma TakeUnknownIsSuffix(d: Bytes)
    requires TakeUnknown(d).Some?
    ensures var rest := TakeUnknown(d).value.1; |rest| < |d| && rest == d[|d| - |rest|..]
  {
    var (v, rest) := TakeUnknown(d).value;
    assert d == v + rest;
  }

  /** What one turn of the payload decoder reads: the value of a known field, if any, and the rest. */
  lemma OnePayloadField(d: Bytes) returns (k: nat, from: nat)
    requires TakeTag(d).Some?
    ensures TakeTag(d).value.field in {1, 2, 3} && TakeBytes(TakeTag(d).value.rest).Some? ==>
      var taken := TakeBytes(TakeTag(d).value.rest).value;
      IsSlice(d, from, taken.0) && 0 < k <= |d| && taken.1 == d[k..]
    ensures TakeTag(d).value.field !in {1, 2, 3} && TakeUnknown(d).Some? ==>
      0 < k <= |d| && TakeUnknown(d).value.1 == d[k..]
  {
    hide TakeTag, TakeBytes, TakeUnknown, IsSlice;
    k, from := 0, 0;
    TakeTagIsSuffix(d);
    var rest := TakeTag(d).value.rest;
    if TakeTag(d).value.field in {1, 2, 3} {
      if TakeBytes(rest).Some? {
        var at := TakeBytesIsSlice(rest);
        from := |d| - |rest| + at;
        k := from + |TakeBytes(rest).value.0|;
        SliceOfSuffix(d, |d| - |rest|, at, TakeBytes(rest).value.0);
      }
    } else if TakeUnknown(d).Some? {
      TakeUnknownIsSuffix(d);
      k := |d| - |TakeUnknown(d).value.1|;
    }
  }

  /** One turn of the payload decoder, and where the content it sets stands. */
  lemma {:induction false} PayloadTurn(m: Payload, d: Bytes) returns (k: nat, at: nat)
    requires d != [] && DecodePayload(m, d).Some?
    ensures 0 < k <= |d| && DecodePayload(m, d) == DecodePayload(AfterField(m, d), d[k..])
    ensures var next := AfterField(m, d).content;
            next == m.content || next.Url? || (next.MarkdownDeflate? && IsSlice(d, at, next.deflated))
  {
    hide TakeTag, TakeBytes, TakeUnknown, IsSlice;
    k, at := OnePayloadField(d);
  }

  lemma NothingToDecode(m: Payload)
    ensures DecodePayload(m, []) == Some(m)
  {
  }

  /** Decoded deflated bytes stand somewhere in the payload they were decoded from. */
  lemma {:induction false} DeflatedIsSlice(m: Payload, d: Bytes) returns (from: nat)
    requires DecodePayload(m, d).Some? && DecodePayload(m, d).value.content.MarkdownDeflate?
    ensures DecodePayload(m, d).value.content == m.content
            || IsSlice(d, from, DecodePayload(m, d).value.content.deflated)
    decreases |d|
  {
    hide DecodePayload, AfterField, IsSlice;
    from := 0;
    NothingToDecode(m);
    if d != [] {
      var k, at := PayloadTurn(m, d);
      var next, rest := AfterField(m, d), d[k..];
      from := DeflatedIsSlice(next, rest);
      var content := DecodePayload(next, rest).value.content;
      if content == next.content {
        from := at;
      } else {
        SliceOfSuffix(d, k, from, content.deflated);
        from := k + from;
      }
    }
  }

  /** The message after one turn of the payload decoder. */
  function AfterField(m: Payload, d: Bytes): Payload
    requires d != [] && DecodePayload(m, d).Some?
  {
    var t := TakeTag(d).value;
    match t.field
    case 1 => m.(content := Url(TakeBytes(t.rest).value.0))
    case 2 => m.(content := MarkdownDeflate(TakeBytes(t.rest).value.0))
    case 3 => m.(padding := TakeBytes(t.rest).value.0)
    case _ => m.(unknown := m.unknown + TakeUnknown(d).value.0)
  }

  /** The deflated bytes of a paste are not copied: they are a view into the buffer. */
  method ParsePayloadBuffer(buffer: array<Byte>, kind: Int32) returns (r: Result<ParsedContent>)
    ensures match ParsePayload(buffer[..], kind)
            case Thrown(f) => r == Thrown(f)
            case Ok(UrlContent(url)) => r == Ok(ParsedUrl(url))
            case Ok(MarkdownContent(deflated)) =>
              && r.Ok? && r.value.ParsedMarkdown? && r.value.buffer == buffer
              && r.value.from <= r.value.to <= buffer.Length && buffer[r.value.from..r.value.to] == deflated
  {
    hide DecodePayload;
    var decoded := DecodePayload(EMPTY_PAYLOAD, buffer[..]);
    if decoded.None? {
      return Thrown(MalformedPayload);
    }
    var payload := decoded.value;
    if kind == KIND_URL && payload.content.Url? {
      return Ok(ParsedUrl(UpToNul(payload.content.url)));
    }
    if kind == KIND_MARKDOWN && payload.content.MarkdownDeflate? {
      var deflated := payload.content.deflated;
      ghost var at := DeflatedIsSlice(EMPTY_PAYLOAD, buffer[..]);
      assert buffer[..][at..at + |deflated|] == buffer[at..at + |deflated|];
      var from :| 0 <= from <= buffer.Length - |deflated| && buffer[from..from + |deflated|] == deflated;
      return Ok(ParsedMarkdown(buffer, from, from + |deflated|));
    }
    return Thrown(KindMismatch);
  }

  /** The buffer holds what the value function returns, in a new array of its own. */
  ghost predicate Holds(r: Result<OpenedContent>, expected: Result<PlainContent>)
    reads if r.Ok? && r.value.OpenedMarkdown? then {r.value.deflated} else {}
  {
    match expected
    case Thrown(f) => r == Thrown(f)
    case Ok(UrlContent(url)) => r == Ok(OpenedUrl(url))
    case Ok(MarkdownContent(deflated)) => r.Ok? && r.value.OpenedMarkdown? && r.value.deflated[..] == deflated
  }

  function Returned(r: Result<OpenedContent>): set<array<Byte>> {
    if r.Ok? && r.value.OpenedMarkdown? then {r.value.deflated} else {}
  }

  /** The parsed content, with the bytes of a paste copied out of the buffer they alias. */
  method ParseAndCopy(arena: Arena, payloadBytes: array<Byte>, kind: Int32) returns (r: Result<OpenedContent>)
    requires payloadBytes in arena.buffers
    modifies arena
    ensures Holds(r, ParsePayload(payloadBytes[..], kind))
    ensures (forall b :: b in Returned(r) ==> fresh(b)) && Cleaned(arena, Returned(r)) && payloadBytes !in Returned(r)
  {
    hide ParsePayload, AllZero;
    var content := ParsePayloadBuffer(payloadBytes, kind);
    match content
    case Thrown(f) => r := Thrown(f);
    case Ok(ParsedUrl(url)) => r := Ok(OpenedUrl(url));
    case Ok(ParsedMarkdown(buffer, from, to)) =>
      var copy := NewBuffer(arena, buffer[from..to]);
      r := Ok(OpenedMarkdown(copy));
  }

  /** A layer that opens replaces the text, which is zeroed; one that does not leaves it. */
  method PeelLayer(arena: Arena, c: Crypto, key: Bytes, nonce: Bytes, text: array<Byte>, aad: Bytes)
    returns (next: array<Byte>, ok: bool)
    requires text in arena.buffers
    modifies arena, text
    ensures ok == c.open(key, nonce, old(text[..]), aad).Some?
    ensures !ok ==> next == text && text[..] == old(text[..]) && arena.buffers == old(arena.buffers)
    ensures ok ==>
      && fresh(next) && Some(next[..]) == c.open(key, nonce, old(text[..]), aad) && AllZero(text[..])
      && arena.buffers == old(arena.buffers) + {next} && next !in old(arena.buffers)
  {
    hide AllZero;
    var layer := OpenLayer(arena, c, key, nonce, text, aad);
    if layer.None? {
      return text, false;
    }
    FillZero(text);
    return layer.value, true;
  }

  /** The try block of decryptEnvelope; `last` is what `plaintext` refers to when the block is left. */
  method OpenAll(arena: Arena, c: Crypto, m: EnvelopeMetadata, finalKey: array<Byte>, options: DecryptOptions,
                 plaintext: array<Byte>) returns (r: Result<OpenedContent>, last: array<Byte>)
    requires m.password.Some? ==> options.passwordKey.Some?
    requires m.captcha.Some? ==> options.captchaKey.Some?
    requires finalKey != plaintext && finalKey in arena.buffers && plaintext in arena.buffers
    modifies arena, plaintext
    ensures Holds(r, OpenLayers(c, m, finalKey[..], options, old(plaintext[..])))
    ensures last != finalKey && (fresh(last) || last == plaintext) && last !in Returned(r)
    ensures last != plaintext ==> AllZero(plaintext[..])
    ensures (forall b :: b in Returned(r) ==> fresh(b)) && Cleaned(arena, {last} + Returned(r))
  {
    hide Aad, ParsePayload, AllZero;
    var aad := Aad(m);
    last := plaintext;
    var ok := true;
    if m.captcha.Some? {
      last, ok := PeelLayer(arena, c, options.captchaKey.value, m.captcha.value.nonce, last, aad);
      if !ok {
        return Thrown(OpenFailed), last;
      }
    }
    if m.password.Some? {
      last, ok := PeelLayer(arena, c, options.passwordKey.value, m.password.value.nonce, last, aad);
      if !ok {
        return Thrown(IncorrectPassword), last;
      }
    }
    last, ok := PeelLayer(arena, c, finalKey[..], m.payloadNonce, last, aad);
    if !ok {
      return Thrown(OpenFailed), last;
    }
    r := ParseAndCopy(arena, last, m.payloadKind);
  }

  /**
   * decryptEnvelope: whether it returns or throws, every buffer it made is zero, except the bytes it returns, which
   * are new; the envelope's ciphertext is not written.
   */
  method DecryptEnvelope(arena: Arena, c: Crypto, metadata: Option<EnvelopeMetadata>, ciphertext: array<Byte>,
                         id: Bytes, material: Bytes, options: DecryptOptions) returns (r: Result<OpenedContent>)
    modifies arena
    ensures Holds(r, Opened(c, Envelope(metadata, ciphertext[..], []), id, material, options))
    ensures (forall b :: b in Returned(r) ==> fresh(b)) && Cleaned(arena, Returned(r))
    ensures ciphertext[..] == old(ciphertext[..])
  {
    hide AcceptsMetadata, OpenLayers, FinalKey;
    var e := Envelope(metadata, ciphertext[..], []);
    var checked := CheckDecryptInputs(e, id, material, options);
    if checked.Thrown? {
      return Thrown(checked.failure);
    }
    var m := metadata.value;
    var plaintext := NewBuffer(arena, ciphertext[..]);
    var finalKey := DeriveFinalKey(arena, c, material, id, m.payloadNonce);
    var last;
    r, last := OpenAll(arena, c, m, finalKey, options, plaintext);
    FillZero(last);
    FillZero(finalKey);
  }
}
