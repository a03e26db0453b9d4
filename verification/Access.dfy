/** Protected access: get, verify, consume, unwrap. */
module Access {
  import opened Common
  import opened RequestIdentity
  import opened Repository

  /** AES-GCM under the server's key: (nonce, text, associated data). */
  datatype KeyWrapper = KeyWrapper(
    seal: (Bytes, Bytes, Bytes) -> Bytes,
    open: (Bytes, Bytes, Bytes) -> Option<Bytes>)

  ghost predicate WrapperLaws(w: KeyWrapper) {
    forall nonce: Bytes, text: Bytes, aad: Bytes :: |nonce| == GCM_NONCE_LENGTH ==>
      w.open(nonce, w.seal(nonce, text, aad), aad) == Some(text) && w.seal(nonce, text, aad) != []
  }

  /** The laws can be met. */
  lemma WrapperLawsAreConsistent() returns (w: KeyWrapper)
    ensures WrapperLaws(w)
  {
    w := KeyWrapper(
      (nonce: Bytes, text: Bytes, aad: Bytes) => text + [0],
      (nonce: Bytes, sealed: Bytes, aad: Bytes) => if sealed == [] then None else Some(sealed[..|sealed| - 1]));
  }

  /** The storage key and the protocol version, big-endian. */
  function WrapAad(key: Key): Bytes {
    key + [0, 0, 0, PROTOCOL_VERSION]
  }

  function Unwrap(w: KeyWrapper, key: Key, nonce: Bytes, ciphertext: Bytes): Option<Bytes> {
    if |nonce| != GCM_NONCE_LENGTH then None
    else
      var plaintext :- w.open(nonce, ciphertext, WrapAad(key));
      if |plaintext| == KEY_LENGTH then Some(plaintext) else None
  }

  /** A key is unwrapped exactly if the nonce has 12 bytes and a text of 32 bytes opens under it, with the storage key
      and version 2 as associated data. */
  lemma UnwrapsExactly(w: KeyWrapper, key: Key, nonce: Bytes, ciphertext: Bytes)
    ensures var text := w.open(nonce, ciphertext, key + [0, 0, 0, 2]);
            Unwrap(w, key, nonce, ciphertext)
            == if |nonce| == 12 && text.Some? && |text.value| == 32 then text else None
  {
  }

  datatype AccessError = StoreFailed(error: StoreError) | InvalidAccessRecord | CaptchaRejected | InvalidWrappedKey

  datatype AccessResult = Granted(record: Record, captchaKey: Option<Bytes>) | Refused(error: AccessError)

  predicate NeedsCaptcha(record: Record) {
    HasFlag(record.featureFlags, CAPTCHA_FLAG)
  }

  predicate BurnAfterRead(record: Record) {
    HasFlag(record.featureFlags, BURN_FLAG)
  }

  /** What is checked between Get and Consume; none when the access may go on. */
  function Objection(record: Record, token: string, configured: bool, verify: string -> bool): Option<AccessError> {
    if !NeedsCaptcha(record) && !BurnAfterRead(record) then Some(InvalidAccessRecord)
    else if !NeedsCaptcha(record) && token != "" then Some(InvalidAccessRecord)
    else if NeedsCaptcha(record) then
      if !configured || |record.captchaKeyNonce| != GCM_NONCE_LENGTH || record.captchaKeyCiphertext == [] then
        Some(InvalidAccessRecord)
      else if verify(token) then None
      else Some(CaptchaRejected)
    else if record.captchaKeyNonce != [] || record.captchaKeyCiphertext != [] then Some(InvalidAccessRecord)
    else None
  }

  /** What the access returns once it has its record; whether CAPTCHA is enabled was decided before Consume. */
  function Release(w: KeyWrapper, key: Key, record: Record, captcha: bool): AccessResult {
    if !captcha then Granted(record, None)
    else
      match Unwrap(w, key, record.captchaKeyNonce, record.captchaKeyCiphertext)
      case None => Refused(InvalidWrappedKey)
      case Some(captchaKey) => Granted(record, Some(captchaKey))
  }

  /** Whether the request's context has ended when the access comes to each of its store operations. */
  datatype Cancellation = Cancellation(atGet: bool, atConsume: bool)

  const NEVER := Cancellation(false, false)

  /** An access that found the store as `atGet` and, when it came to consume, as `before`: the store it leaves and
      its result. */
  function AccessBetween(atGet: Records, before: Records, cancelled: Cancellation, key: Key, now: Time, token: string,
                         configured: bool, verify: string -> bool, w: KeyWrapper): (Records, AccessResult)
  {
    if cancelled.atGet then (before, Refused(StoreFailed(Cancelled)))
    else if !IsLive(atGet, key, now) then (before, Refused(StoreFailed(NotFound)))
    else
      var seen := atGet[key];
      var objection := Objection(seen, token, configured, verify);
      if objection.Some? then (before, Refused(objection.value))
      else if !BurnAfterRead(seen) then (before, Release(w, key, seen, NeedsCaptcha(seen)))
      else if cancelled.atConsume then (before, Refused(StoreFailed(Cancelled)))
      else if !IsLive(before, key, now) then (before, Refused(StoreFailed(NotFound)))
      else (before - {key}, Release(w, key, before[key], NeedsCaptcha(seen)))
  }

  /** An access that no other caller interferes with, and whose context does not end. */
  function AccessAlone(records: Records, key: Key, now: Time, token: string, configured: bool, verify: string -> bool,
                       w: KeyWrapper): (Records, AccessResult)
  {
    AccessBetween(records, records, NEVER, key, now, token, configured, verify, w)
  }

  /** Whatever other callers may do to the store between two steps; nothing when the access runs alone. */
  method OtherCallers(repository: MemoryRepository, ghost alone: bool)
    modifies repository
    ensures alone ==> repository.records == old(repository.records)
  {
  }

  /** Bit 0 of the flags asks for a CAPTCHA, bit 2 burns the record. */
  lemma FlagsOfRecord(record: Record)
    ensures NeedsCaptcha(record) <==> record.featureFlags % 2 == 1
    ensures BurnAfterRead(record) <==> record.featureFlags / 4 % 2 == 1
  {
  }

  /** The wrapped CAPTCHA key of a record is there, with a nonce of the right length. */
  predicate HasWrappedKey(record: Record) {
    |record.captchaKeyNonce| == 12 && record.captchaKeyCiphertext != []
  }

  /** The first of these that holds is how an access ends. Nothing but the last two touches the store, and a record
      leaves it exactly when it is handed out to be burned. */
  lemma AccessEnds(atGet: Records, before: Records, cancelled: Cancellation, key: Key, now: Time, token: string,
                   configured: bool, verify: string -> bool, w: KeyWrapper)
    ensures var (after, r) := AccessBetween(atGet, before, cancelled, key, now, token, configured, verify, w);
            var captcha := key in atGet && atGet[key].featureFlags % 2 == 1;
            var burn := key in atGet && atGet[key].featureFlags / 4 % 2 == 1;
            if cancelled.atGet then (after, r) == (before, Refused(StoreFailed(Cancelled)))
            else if !IsLive(atGet, key, now) then (after, r) == (before, Refused(StoreFailed(NotFound)))
            else if !captcha && !burn then (after, r) == (before, Refused(InvalidAccessRecord))
            else if !captcha && token != "" then (after, r) == (before, Refused(InvalidAccessRecord))
            else if captcha && !(configured && HasWrappedKey(atGet[key])) then
              (after, r) == (before, Refused(InvalidAccessRecord))
            else if captcha && !verify(token) then (after, r) == (before, Refused(CaptchaRejected))
            else if !captcha && (atGet[key].captchaKeyNonce != [] || atGet[key].captchaKeyCiphertext != []) then
              (after, r) == (before, Refused(InvalidAccessRecord))
            else if burn && cancelled.atConsume then (after, r) == (before, Refused(StoreFailed(Cancelled)))
            else if burn && !IsLive(before, key, now) then (after, r) == (before, Refused(StoreFailed(NotFound)))
            else
              var record := if burn then before[key] else atGet[key];
              && after == (if burn then before - {key} else before)
              && (if !captcha then r == Granted(record, None)
                  else r == Refused(InvalidWrappedKey) || (r.Granted? && r.record == record && r.captchaKey.Some?))
  {
    hide Unwrap;
    if key in atGet {
      FlagsOfRecord(atGet[key]);
    }
    hide NeedsCaptcha, BurnAfterRead;
  }

  /** Whatever others do, the result depends on the store at Get and the store just before Consume only. A record is
      granted only if it was live at Get with one of the two flags, and, if it has CAPTCHA, only after the provider
      accepted the token; a token that is rejected changes nothing. */
  method Access(repository: MemoryRepository, cancelled: Cancellation, key: Key, now: Time, token: string,
                configured: bool, verify: string -> bool, w: KeyWrapper, ghost alone: bool)
    returns (r: AccessResult, ghost atGet: Records, ghost before: Records)
    modifies repository
    ensures (repository.records, r) ==
      AccessBetween(atGet, before, cancelled, key, now, token, configured, verify, w)
    ensures alone ==> atGet == before == old(repository.records)
    ensures r.Granted? ==>
      && IsLive(atGet, key, now)
      && (atGet[key].featureFlags % 2 == 1 || atGet[key].featureFlags / 4 % 2 == 1)
      && (atGet[key].featureFlags % 2 == 1 ==> configured && verify(token))
    ensures !cancelled.atGet && IsLive(atGet, key, now) && atGet[key].featureFlags % 2 == 1 && !verify(token) ==>
      r.Refused? && repository.records == atGet
      && (configured && HasWrappedKey(atGet[key]) ==> r == Refused(CaptchaRejected))
  {
    hide Release, HasFlag;
    OtherCallers(repository, alone);
    atGet, before := repository.records, repository.records;
    var got := repository.Get(cancelled.atGet, key, now);
    if got.Failed? {
      return Refused(StoreFailed(got.error)), atGet, before;
    }
    var record := got.value;
    var captchaEnabled, burnAfterRead := NeedsCaptcha(record), BurnAfterRead(record);
    FlagsOfRecord(record);
    if !captchaEnabled && !burnAfterRead {
      return Refused(InvalidAccessRecord), atGet, before;
    }
    if !captchaEnabled && token != "" {
      return Refused(InvalidAccessRecord), atGet, before;
    }
    if captchaEnabled {
      if !configured || |record.captchaKeyNonce| != GCM_NONCE_LENGTH || |record.captchaKeyCiphertext| == 0 {
        return Refused(InvalidAccessRecord), atGet, before;
      }
      if !verify(token) {
        return Refused(CaptchaRejected), atGet, before;
      }
    } else if |record.captchaKeyNonce| != 0 || |record.captchaKeyCiphertext| != 0 {
      return Refused(InvalidAccessRecord), atGet, before;
    }
    OtherCallers(repository, alone);
    before := repository.records;
    if burnAfterRead {
      var consumed := repository.Consume(cancelled.atConsume, key, now);
      if consumed.Failed? {
        return Refused(StoreFailed(consumed.error)), atGet, before;
      }
      record := consumed.value;
    }
    r := Release(w, key, record, captchaEnabled);
  }

  // ----- What a create stores -----

  datatype CreateInput = CreateInput(
    metadata: Bytes, envelope: Bytes, requestHash: Bytes, etag: string, featureFlags: Uint32,
    expiresAt: Option<Time>, captchaKey: Option<Bytes>)

  /** What validation leaves through to the store: a CAPTCHA key exactly when the flag asks for one. */
  predicate IsValidInput(input: CreateInput) {
    && HasFlag(input.featureFlags, CAPTCHA_FLAG) == input.captchaKey.Some?
    && (input.captchaKey.Some? ==> |input.captchaKey.value| == KEY_LENGTH)
  }

  /** The record the create handler stores; the CAPTCHA key only in wrapped form. */
  function RecordOf(w: KeyWrapper, key: Key, input: CreateInput, nonce: Bytes): Record {
    var wrapped := input.captchaKey.Some?;
    Record(input.metadata, input.envelope, input.requestHash, input.etag, input.featureFlags, input.expiresAt,
      if wrapped then nonce else [],
      if wrapped then w.seal(nonce, input.captchaKey.value, WrapAad(key)) else [])
  }

  /** Whatever record ends up being released: a key comes out only if it was supplied for that very record, and
      nothing comes out exactly when a key was due that the record does not have. */
  lemma ReleasedKeyIsSupplied(w: KeyWrapper, key: Key, input: CreateInput, nonce: Bytes, captcha: bool)
    requires WrapperLaws(w) && IsValidInput(input) && |nonce| == GCM_NONCE_LENGTH
    ensures var record := RecordOf(w, key, input, nonce);
            && (Release(w, key, record, captcha).Granted?
                ==> Release(w, key, record, captcha) == Granted(record, if captcha then input.captchaKey else None))
            && (Release(w, key, record, captcha).Granted? <==> (captcha ==> NeedsCaptcha(record)))
  {
  }

  /** Alone, an access to a stored record that passes the checks gives back its CAPTCHA key, and a burned record
      cannot be accessed again. */
  lemma AccessAloneGrants(w: KeyWrapper, records: Records, key: Key, now: Time, token: string, verify: string -> bool,
                          input: CreateInput, nonce: Bytes)
    requires WrapperLaws(w) && IsValidInput(input) && |nonce| == GCM_NONCE_LENGTH
    requires IsLive(records, key, now) && records[key] == RecordOf(w, key, input, nonce)
    requires NeedsCaptcha(records[key]) || BurnAfterRead(records[key])
    requires if NeedsCaptcha(records[key]) then verify(token) else token == ""
    ensures var (after, r) := AccessAlone(records, key, now, token, true, verify, w);
            && r == Granted(records[key], input.captchaKey)
            && after == (if BurnAfterRead(records[key]) then records - {key} else records)
    ensures BurnAfterRead(records[key]) ==>
      AccessAlone(records - {key}, key, now, token, true, verify, w)
      == (records - {key}, Refused(StoreFailed(NotFound)))
  {
    ReleasedKeyIsSupplied(w, key, input, nonce, NeedsCaptcha(records[key]));
  }
}
