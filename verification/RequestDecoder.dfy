/** internal/httpapi's decodeCanonical: decode, reject unknown records, re-encode, compare. */
module RequestDecoder {
  import opened Common
  import opened Messages
  import opened Canonical
  import opened Marshal
  import opened Unmarshal

  method DecodeCanonical(body: Bytes) returns (r: Option<CreateRequest>)
    requires |body| < TWO63
    ensures r == DecodeCanonicalRequest(body)
  {
    var message := UnmarshalRequest(EMPTY_REQUEST, body);
    if message.None? || HasUnknownRequest(message.value) {
      return None;
    }
    var canonical := MarshalStrictRequest(message.value);
    if body != canonical {
      return None;
    }
    r := message;
  }

  /** Stored envelopes and metadata are read back through the same check. */
  method DecodeStoredEnvelope(body: Bytes) returns (r: Option<Envelope>)
    requires |body| < TWO63
    ensures r == DecodeCanonicalEnvelope(body)
  {
    var message := UnmarshalEnvelope(EMPTY_ENVELOPE, body);
    if message.None? || HasUnknownEnvelope(message.value) {
      return None;
    }
    var canonical := MarshalStrictEnvelope(message.value);
    if body != canonical {
      return None;
    }
    r := message;
  }
}
