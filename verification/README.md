# SecURL: a verified model

SecURL is a zero-knowledge link and paste service: a browser encrypts, a server stores sealed envelopes under keys it
cannot connect to their content. This project models the parts whose correctness is hardest to see from one function
and proves what they promise. `dafny verify dfyconfig.toml` checks everything (Dafny 4.11).

| file | what it models |
|---|---|
| `Common`, `Wire`, `Messages`, `Marshal`, `Unmarshal`, `Canonical`, `RequestDecoder` | the strict protobuf codec: back-to-front encoders over a presized array, forward decoders, and the rule that only bodies which re-encode to themselves are accepted |
| `FieldOrder`, `MergeLaws` | what stands in an encoding record by record, and how decoding merges |
| `RequestIdentity` | request validation and the bytes that identify a create request |
| `Padding`, `Protocol`, `ProtocolBuffers`, `SizeBudget`, `EnvelopeFacts`, `KeyBinding` | the envelope protocol: padding, up to three AEAD layers on values, the same over buffers that alias and are zeroed, the size limits of client, server and database, what an envelope carries and what it is bound to |
| `CacheModel`, `Cache`, `CacheHits` | the Safe Browsing cache: recency list, map and list in step, and lookups through it |
| `ProtoWire`, `WireLimits`, `HashResponse`, `HashResults` | the hand-written decoder of hash search responses |
| `SqlSplitter`, `SqlResplit`, `SqlTexts`, `Migrations`, `MigrationRunner` | the SQL statement splitter and the migration runners without a lock |
| `Repository`, `Access`, `AccessRuns` | storage, protected access, and interleaved callers |
| `CreateRetry`, `CreateHandler` | the create handler's lookup, checks and create, the client's create loop over a lossy network, and what a decoded request stores |
| `LinkRoundTrip` | all of it together: from the sealed content to whoever opens the link |
| `Shutdown` | admission, sealing, waiting and closing |
| `Identifiers`, `UrlText`, `UrlTextFacts` | identifier and URL text codecs |

Code that changes state step by step is a method over arrays, classes or local variables, proved against a function;
protocols of several callers are state machines whose runs are arbitrary lists of atomic steps. Code that only computes
is a function.

## How to read the model

- A Go slice is shorter than 2^63 and a typed array shorter than 2^53; these are the only bounds on inputs.
- Decoders collapse their error values to one, because no caller tells them apart. The client protocol keeps its
  distinct failures.
- Integers are unbounded unless the code depends on a width; then the width is written out (`ToInt32`, `% TWO64`).
- AEAD, HKDF and key wrapping are arbitrary functions with stated laws; `Protocol.LawsAreConsistent` and
  `Access.WrapperLawsAreConsistent` show that the laws can be met; `KeyBinding` assumes more of two keys or contexts at a
  time, which `KeyBinding.SeparationIsConsistent` shows can be met. Random bytes, the clock, the network, verdicts of
  CAPTCHA providers and interference by others are parameters. `OtherLookups`, `OtherCallers`, `OtherClients` and
  `OtherRunners` stand for steps of others: their bodies do nothing, but callers only know their contracts, which allow
  any change that keeps the invariant.
- `ghost alone` marks a call nobody interferes with, whose new state is then an exact function of the old one. All
  interleavings of several callers are in `AccessRuns`, `Migrations` and `Shutdown`.
- `ProtocolBuffers.Arena` registers every buffer that held plaintext, a key or an intermediate ciphertext, so that
  zeroing can be stated for all of them at once.
- protohelpers, protowire, container/list, sort.Slice and the browser's protobuf runtime are libraries; they are
  modelled from the Protocol Buffers encoding rules (sections "Base 128 Varints" and "Message Structure") and their
  documented contracts. The position a view has in its buffer is left to the library: any position with the right bytes.
- A plain URL, a token and other strings that cross the wire are their UTF-8 bytes; SQL text is a sequence of Unicode
  characters; URL text is UTF-16 code units.

Where the code differs from what one may expect, the code was followed:

- `parsePayload` cuts a URL at its first NUL. `Protocol.RecoveredIsWhole` says exactly when the round trip is complete,
  `Protocol.UrlWithNulIsCut` gives a URL for which it is not.
- `takeRandomBytes` returns a copy, and only the copy of the padding choice is zeroed. When no random source is passed,
  the buffer the choice was drawn into keeps it, and the zeroing results except that one buffer.
  `ProtocolBuffers.DrawsChoice` is the exact condition, `ProtocolBuffers.EmptyUrlLeavesItsChoice` an input. Nonces are
  drawn in the same way; they are public and not registered.
- Access decides whether a CAPTCHA key is due from what Get returned, and Consume may hand out a later incarnation of
  the same storage key. Two things follow, each with its exact condition and a run: a record with CAPTCHA may be
  released without its key (`AccessRuns.ReleasedAsCreated`, `AccessRuns.RecreationLosesKey`), and a record without
  CAPTCHA may be consumed and lost (`AccessRuns.AnsweredUnlessKeyIsMissing`, `AccessRuns.RecreationLosesRecord`).
- A lookup whose least remaining time reaches 4294967295 seconds, the number its minimum starts from, reports zero
  seconds. `Cache.Cache.Lookup` states the condition, `Cache.LongestDurationIsReportedAsZero` a lookup, and
  `HashResponse.LongestDurationIsAccepted` shows that upstream can send that duration.
- After a transport error the second request's error, a conflict included, ends `createWithCollisionRetries`, although
  a conflict alone is retried. `CreateRetry.CreateWithCollisionRetries` states the condition,
  `CreateRetry.TransportErrorThenConflictThrows` the input, `CreateRetry.ConflictAloneIsRetried` the contrast.

## Model

| member | source | states |
|---|---|---|
| `Wire.VarintSize` | gen/go/securl/v1/api_vtproto.pb.go:896-902 | the encoding of a number as base-128 groups has exactly the size computed beforehand |
| `Wire.TakeVarintInverts` | gen/go/securl/v1/envelope_vtproto.pb.go:754-767 | reading a number's groups gives the number and leaves what follows, whenever it fits the groups the decoder allows |
| `Wire.TakeBytesInverts` | gen/go/securl/v1/envelope_vtproto.pb.go:781-806 | a length-delimited record is read back with exactly its bytes, whatever follows |
| `Wire.TakeInt32Inverts` | gen/go/securl/v1/envelope_vtproto.pb.go:849-863 | a negative enum value, written as a 64-bit varint, is read back as the same 32-bit value |
| `Wire.TakeUnknown` | gen/go/securl/v1/envelope_vtproto.pb.go:864-878 | an unknown record is cut off the front without losing or changing a byte, groups included |
| `Messages.PasswordSize` | gen/go/securl/v1/envelope_vtproto.pb.go:624-643 | the strict encoding of a password layer has the announced size |
| `Messages.CaptchaSize` | gen/go/securl/v1/envelope_vtproto.pb.go:645-657 | the strict encoding of a CAPTCHA layer has the announced size |
| `Messages.MetadataSize` | gen/go/securl/v1/envelope_vtproto.pb.go:659-691 | the strict encoding of envelope metadata, nested layers included, has the announced size |
| `Messages.EnvelopeSize` | gen/go/securl/v1/envelope_vtproto.pb.go:693-709 | the strict encoding of an envelope has the announced size |
| `Messages.PayloadSize` | gen/go/securl/v1/envelope_vtproto.pb.go:711-747 | the strict encoding of a payload has the announced size, an empty oneof member included |
| `Messages.RequestSize` | gen/go/securl/v1/api_vtproto.pb.go:1135-1159 | the strict encoding of a create request has the announced size |
| `Marshal.WriteVarint` | gen/go/securl/v1/api_vtproto.pb.go:896-902 | the loop fills exactly the announced bytes just before its offset with the number's groups and writes nothing else |
| `Marshal.MarshalPassword` | gen/go/securl/v1/envelope_vtproto.pb.go:338-370 | fills exactly the announced size before `end` with the strict encoding and leaves every other byte |
| `Marshal.MarshalCaptcha` | gen/go/securl/v1/envelope_vtproto.pb.go:390-410 | the same for a CAPTCHA layer |
| `Marshal.MarshalMetadata` | gen/go/securl/v1/envelope_vtproto.pb.go:430-490 | the same for metadata, with every nested length prefix right |
| `Marshal.MarshalEnvelope` | gen/go/securl/v1/envelope_vtproto.pb.go:510-540 | the same for an envelope |
| `Marshal.MarshalPayload` | gen/go/securl/v1/envelope_vtproto.pb.go:560-623 | the same for a payload and its oneof members |
| `Marshal.MarshalRequest` | gen/go/securl/v1/api_vtproto.pb.go:596-640 | the same for a create request |
| `Marshal.MarshalStrictMetadata` | gen/go/securl/v1/envelope_vtproto.pb.go:412-423 | the buffer presized by the size function is filled completely, front included |
| `Marshal.MarshalStrictEnvelope` | gen/go/securl/v1/envelope_vtproto.pb.go:492-503 | the same for an envelope |
| `Marshal.MarshalStrictPayload` | gen/go/securl/v1/envelope_vtproto.pb.go:542-553 | the same for a payload |
| `Marshal.MarshalStrictRequest` | gen/go/securl/v1/api_vtproto.pb.go:578-589 | the same for a create request |
| `Unmarshal.ReadVarint` | gen/go/securl/v1/envelope_vtproto.pb.go:754-767 | the inlined varint loop keeps the number modulo the machine width and fails exactly on overlong or truncated input |
| `Unmarshal.Skip` | gen/go/securl/v1/envelope_vtproto.pb.go:864-878 | the skipper ends where one complete record, with all groups it opens, ends |
| `Unmarshal.UnmarshalPassword` | gen/go/securl/v1/envelope_vtproto.pb.go:748-885 | the decoder loop computes the decoding function on the bytes and message it is given, errors included |
| `Unmarshal.UnmarshalCaptcha` | gen/go/securl/v1/envelope_vtproto.pb.go:886-969 | the same for a CAPTCHA layer |
| `Unmarshal.UnmarshalMetadata` | gen/go/securl/v1/envelope_vtproto.pb.go:971-1202 | the same for metadata; a repeated layer is merged into the one already read |
| `Unmarshal.UnmarshalEnvelope` | gen/go/securl/v1/envelope_vtproto.pb.go:1204-1323 | the same for an envelope |
| `Unmarshal.UnmarshalRequest` | gen/go/securl/v1/api_vtproto.pb.go:1349-1534 | the same for a create request |
| `RequestDecoder.DecodeCanonical` | internal/httpapi/protobuf.go:62-77 | decode, refuse unknown fields, re-encode and compare: equals the acceptance function on every body |
| `RequestDecoder.DecodeStoredEnvelope` | internal/httpapi/handlers.go:273-277 | the same check on an envelope read back from the store |
| `Canonical.MetadataRoundTrip` | gen/go/securl/v1/envelope_vtproto.pb.go:430-490 | decoding the strict encoding of metadata without unknown fields gives it back |
| `Canonical.EnvelopeRoundTrip` | gen/go/securl/v1/envelope_vtproto.pb.go:510-540 | the same for an envelope |
| `Canonical.PayloadRoundTrip` | gen/go/securl/v1/envelope_vtproto.pb.go:560-623 | the same for a payload |
| `Canonical.RequestRoundTrip` | gen/go/securl/v1/api_vtproto.pb.go:596-640 | the same for a create request |
| `Canonical.RequestAcceptedIffCanonical` | internal/httpapi/protobuf.go:62-77 | a body is accepted with a message if and only if that message has no unknown fields and the body is its strict encoding |
| `Canonical.EnvelopeAcceptedIffCanonical` | internal/httpapi/handlers.go:273-277 | the same for stored envelopes |
| `Canonical.MetadataAcceptedIffCanonical` | internal/httpapi/handlers.go:241-245 | the same for stored metadata |
| `Canonical.EncodingIsInjective` | internal/httpapi/protobuf.go:62-77 | no message has two accepted bodies and no body carries two messages |
| `Canonical.DuplicateFieldRefused` | internal/httpapi/protobuf.go:73-75 | a body with a second storage key decodes, and is refused |
| `Canonical.ReorderedFieldRefused` | internal/httpapi/protobuf.go:73-75 | a body whose fields are swapped decodes to the same message, and is refused |
| `Canonical.ForeignTagRefused` | internal/httpapi/protobuf.go:73-75 | a body whose first tag is any other encoding of the same field decodes to the same message, and is refused |
| `Canonical.NonMinimalVarintRefused` | internal/httpapi/protobuf.go:73-75 | a tag varint with a redundant group decodes, and is refused |
| `Canonical.TruncatedFieldNumberRefused` | gen/go/securl/v1/api_vtproto.pb.go:1369-1376 | a field number that only equals a known one after it is cut to 32 bits decodes, and is refused |
| `FieldOrder.PasswordInOrder` | gen/go/securl/v1/envelope_vtproto.pb.go:338-370 | read record by record, the encoding of a password layer holds the salt as field 1, the nonce as 2 and the profile as 3, each unless empty or zero, in this order |
| `FieldOrder.CaptchaInOrder` | gen/go/securl/v1/envelope_vtproto.pb.go:390-410 | a CAPTCHA layer holds its nonce as field 1 |
| `FieldOrder.MetadataInOrder` | gen/go/securl/v1/envelope_vtproto.pb.go:430-490 | metadata holds version, flags, TTL, nonce, password layer, CAPTCHA layer and kind as fields 1 to 7, strictly ascending |
| `FieldOrder.EnvelopeInOrder` | gen/go/securl/v1/envelope_vtproto.pb.go:510-540 | an envelope holds its metadata as field 1 and the ciphertext as 2 |
| `FieldOrder.PayloadInOrder` | gen/go/securl/v1/envelope_vtproto.pb.go:560-623 | a payload holds a URL as field 1 or a paste as 2, and the padding as 3 |
| `FieldOrder.RequestInOrder` | gen/go/securl/v1/api_vtproto.pb.go:596-640 | a create request holds storage key, envelope, CAPTCHA key and token as fields 1 to 4, strictly ascending |
| `FieldOrder.AcceptedIsOrdered` | internal/httpapi/protobuf.go:62-77 | in every accepted body, and in every message inside it, the field numbers strictly ascend |
| `MergeLaws.PasswordConcatenation` | gen/go/securl/v1/envelope_vtproto.pb.go:748-885 | decoding two encodings one behind the other is decoding the second into the message of the first |
| `MergeLaws.CaptchaConcatenation` | gen/go/securl/v1/envelope_vtproto.pb.go:886-969 | the same for a CAPTCHA layer |
| `MergeLaws.MetadataConcatenation` | gen/go/securl/v1/envelope_vtproto.pb.go:971-1202 | the same for metadata |
| `MergeLaws.EnvelopeConcatenation` | gen/go/securl/v1/envelope_vtproto.pb.go:1204-1323 | the same for an envelope |
| `MergeLaws.RequestConcatenation` | gen/go/securl/v1/api_vtproto.pb.go:1349-1534 | the same for a create request |
| `MergeLaws.RepeatedMessagesMerge` | gen/go/securl/v1/envelope_vtproto.pb.go:1091-1163 | an embedded message that comes twice is read like one that holds both contents |
| `MergeLaws.WireTypesAreChecked` | gen/go/securl/v1/api_vtproto.pb.go:1379-1381 | a known field with another wire type than its own is an error, in each of the six messages |
| `MergeLaws.UnknownByType` | gen/go/securl/v1/envelope_vtproto.pb.go:864-878 | what an unknown record takes, by its wire type: 8 or 4 bytes, or a whole group; an end without a start and the types 6 and 7 are errors |
| `RequestIdentity.IdentityIsInjective` | internal/httpapi/handlers.go:92-148 | valid requests whose bytes before hashing are equal have the same storage key, envelope and CAPTCHA key |
| `RequestIdentity.ReplayIsSameRequest` | internal/httpapi/handlers.go:141-151 | unless the hash collides on the two, valid requests have equal request hashes exactly when they have the same storage key, envelope and CAPTCHA key |
| `Padding.VarintLength` | frontend/src/lib/crypto/protocol.ts:135-142 | the loop counts the bytes of the varint |
| `Padding.MarkdownPaddingLength` | frontend/src/lib/crypto/protocol.ts:149-160 | ends within two boundaries with the padding that reaches the smallest reachable multiple of 1024; boundaries 1, 2 and 130 bytes away roll to the next |
| `Padding.MarkdownPaddingIsUnique` | frontend/src/lib/crypto/protocol.ts:144-148 | no other padding length reaches that total |
| `Padding.MarkdownPaddingBound` | frontend/src/lib/crypto/protocol.ts:144-160 | the framed total is at most 1154 bytes longer, attained exactly when 130 bytes are missing |
| `Padding.UrlPaddingFits` | frontend/src/lib/crypto/protocol.ts:106-127 | for every URL length and random byte the padding is at most 128, aligns the URL to 32 bytes and keeps it within 4096 |
| `Padding.CandidatesAre` | frontend/src/lib/crypto/protocol.ts:106-114 | the paddings that fit and align: at most 128 bytes, within 4096, to a multiple of 32; five of them exactly if the URL is aligned and has at most 3968 bytes |
| `Padding.UrlPaddingIsUniform` | frontend/src/lib/crypto/protocol.ts:113-127 | exactly the paddings that fit and align are reached, and over all random bytes their frequencies differ by at most one |
| `Protocol.LawsAreConsistent` | frontend/src/lib/crypto/protocol.ts:299-323 | the laws assumed of the AEAD and HKDF can be met |
| `Protocol.RecoveredIsWhole` | frontend/src/lib/crypto/protocol.ts:184-195 | a round trip gives the content back unchanged if and only if it is a paste or a URL without NUL |
| `Protocol.PayloadIsRecovered` | frontend/src/lib/crypto/protocol.ts:162-195 | parsing what was serialized and padded gives the content up to the first NUL of a URL |
| `Protocol.DrawnMetadataIsValid` | frontend/src/lib/crypto/protocol.ts:346-375 | the metadata of a new envelope passes validation, has no unknown fields and says which layers there are |
| `Protocol.AadBindsMetadata` | frontend/src/lib/crypto/protocol.ts:375-379 | the associated data determines the metadata, so no field of it can change under a sealed text |
| `Protocol.LayersAreUndone` | frontend/src/lib/crypto/protocol.ts:379-391 | opening the CAPTCHA, password and payload layers with matching keys undoes sealing them; each layer adds a 16-byte tag |
| `Protocol.SealsExactly` | frontend/src/lib/crypto/protocol.ts:331-377 | under a source that returns what it is asked for, encryptEnvelope succeeds if and only if keys, salt and identifier have their lengths, the TTL fits 32 bits, and the URL is within its limit or the paste is not empty |
| `Protocol.OpenedUndoesSealed` | frontend/src/lib/crypto/protocol.ts:325-449 | for every content, every combination of password, CAPTCHA and burn options and every random source, decryptEnvelope gives back what encryptEnvelope sealed |
| `Protocol.UrlWithNulIsCut` | frontend/src/lib/crypto/protocol.ts:187-189 | a URL with a NUL in it is sealed, and comes back cut off there |
| `EnvelopeFacts.UpToFirstNul` | frontend/src/lib/crypto/protocol.ts:188-189 | what stands before the first NUL of a URL is kept, whatever follows |
| `EnvelopeFacts.ParsedByKind` | frontend/src/lib/crypto/protocol.ts:184-195 | a payload is parsed as its kind says; one of the other kind, or of none, is a mismatch |
| `EnvelopeFacts.SealedCarries` | frontend/src/lib/crypto/protocol.ts:346-375 | every field of a new envelope's metadata: version 2, a bit for each option, the TTL, the salt, the nonces in the order they are drawn, profile and kind |
| `EnvelopeFacts.PasteLengthIsBucketed` | frontend/src/lib/crypto/protocol.ts:144-182 | apart from 16 bytes a layer, the ciphertext of a paste is a multiple of 1024 bytes long |
| `EnvelopeFacts.UrlLengthIsAligned` | frontend/src/lib/crypto/protocol.ts:106-129 | that of a URL is as long as for a text of a multiple of 32 bytes, at most 128 more than the URL has |
| `EnvelopeFacts.SealingThrows` | frontend/src/lib/crypto/protocol.ts:331-377 | what encryptEnvelope throws is decided by the first of eleven conditions that holds; if none holds it returns an envelope |
| `EnvelopeFacts.OpeningThrows` | frontend/src/lib/crypto/protocol.ts:402-420 | the same for decryptEnvelope up to the first layer; after that only the four failures of opening and parsing are left |
| `EnvelopeFacts.ServerAcceptsWhatClientsDraw` | internal/httpapi/handlers.go:50-80 | the server's validation accepts metadata if and only if some client draws it for a new envelope and its TTL is allowed |
| `EnvelopeFacts.RequestIsValidIff` | internal/httpapi/handlers.go:92-121 | a request is valid if and only if it has a 16-byte storage key, such metadata, some ciphertext, and a 32-byte CAPTCHA key or none, as the metadata says |
| `KeyBinding.SeparationIsConsistent` | frontend/src/lib/crypto/protocol.ts:299-323 | the laws used for the next two can be met, for any two contexts and any two inputs of HKDF |
| `KeyBinding.OtherSecretFails` | frontend/src/lib/crypto/protocol.ts:227-242 | an envelope does not open with another identifier or other key material, all layer keys being right, unless HKDF collides on the two or the AEAD opens under another key |
| `KeyBinding.OtherMetadataFails` | frontend/src/lib/crypto/protocol.ts:375-391 | a ciphertext does not open behind other metadata, whatever keys are used, unless the AEAD opens under other associated data |
| `Protocol.WrongPasswordThenRight` | frontend/src/lib/crypto/protocol.ts:428-436 | a password key that does not open its layer is reported as an incorrect password, and the same envelope opens under the right keys afterwards |
| `ProtocolBuffers.TakeRandomBytes` | frontend/src/lib/crypto/protocol.ts:87-93 | returns a copy of the random bytes; without a given source, the buffer they were drawn into stays behind and keeps them |
| `ProtocolBuffers.PadDestinationUrl` | frontend/src/lib/crypto/protocol.ts:95-133 | returns the padded URL and leaves every buffer it made zero, the copied random choice included, except the buffer the choice was drawn into, which is left exactly when there are several candidates and no source is given |
| `ProtocolBuffers.SerializePayload` | frontend/src/lib/crypto/protocol.ts:162-182 | the returned new buffer holds the payload's strict encoding; every other buffer made is zero, except that of a choice drawn without a source |
| `ProtocolBuffers.SealAll` | frontend/src/lib/crypto/protocol.ts:379-391 | the result is the sealed text; payload, final key and intermediate ciphertexts are zero |
| `ProtocolBuffers.EncryptEnvelope` | frontend/src/lib/crypto/protocol.ts:325-394 | computes the sealing function, errors included; on every exit every buffer made is zero except the returned ciphertext and, exactly when a padding choice was drawn without a given source, the buffer it was drawn into |
| `ProtocolBuffers.EmptyUrlLeavesItsChoice` | frontend/src/lib/crypto/protocol.ts:87-93 | sealing the empty URL without a given source leaves the buffer its padding choice was drawn into |
| `ProtocolBuffers.DeflatedIsSlice` | frontend/src/lib/crypto/protocol.ts:440-443 | decoded paste bytes stand in the payload buffer itself, so a view of it can alias them |
| `ProtocolBuffers.ParsePayloadBuffer` | frontend/src/lib/crypto/protocol.ts:184-195 | a parsed paste is a view into the buffer with exactly its bytes |
| `ProtocolBuffers.PeelLayer` | frontend/src/lib/crypto/protocol.ts:424-432 | a layer that opens zeroes its input and hands over one new buffer; one that does not changes nothing |
| `ProtocolBuffers.OpenAll` | frontend/src/lib/crypto/protocol.ts:422-444 | the try block computes the opening function and leaves nothing but its last buffer and the returned copy not zero |
| `ProtocolBuffers.DecryptEnvelope` | frontend/src/lib/crypto/protocol.ts:396-449 | computes the opening function, errors included; the ciphertext is unchanged, the returned bytes are new and intact, every other buffer made is zero |
| `SizeBudget.SealedSize` | frontend/src/lib/crypto/protocol.ts:325-394 | the exact size of a new envelope in terms of its metadata, payload and number of layers |
| `SizeBudget.UrlEnvelopeFits` | docs/configuration.md:56 | every URL envelope whose TTL the configuration allows serializes to at most 4263 bytes |
| `SizeBudget.UrlEnvelopeBoundIsAttained` | docs/configuration.md:56 | a 4096-byte URL under both layers and a long TTL serializes to exactly 4263 bytes |
| `SizeBudget.UrlEnvelopeBoundIsReached` | docs/configuration.md:56 | such an envelope exists |
| `SizeBudget.PasteEnvelopeFits` | docs/configuration.md:57 | every paste of deflated size D within the limit serializes to at most D + 2048 bytes and at most 1 MiB |
| `SizeBudget.CreateRequestFits` | internal/httpapi/router.go:42-64 | a create request with an envelope within the limits and a token of up to 4096 bytes fits the body limit |
| `SizeBudget.ClientRequestIsAccepted` | internal/httpapi/handlers.go:88-132 | under every configuration that admits the protocol's URL envelopes, a request for content within the configured limits fits the body limit, is decoded as built, and passes validation and the limit on envelopes of its kind |
| `SizeBudget.LargePasteIsRefused` | internal/httpapi/handlers.go:122-132 | a paste of at least the configured size plus 2048 deflated bytes exceeds the limit, so the configured size cannot be left out |
| `CacheModel.RemainingSeconds` | internal/safebrowsing/cache.go:49-58 | whole seconds up to the expiry: never past it, zero from then on, exact below the 32-bit maximum |
| `CacheModel.RecencyOrder` | internal/safebrowsing/cache.go:60-102 | after every run of get and put no prefix occurs twice and the list is ordered by last touch |
| `CacheModel.WithinBounds` | internal/safebrowsing/cache.go:96-101 | after every run the cache holds at most its limit |
| `CacheModel.EvictsLeastRecent` | internal/safebrowsing/cache.go:96-101 | what a put evicts was touched before everything it keeps |
| `CacheModel.UniqueIsSet` | internal/safebrowsing/client.go:346-360 | deduplication keeps exactly the prefixes, each once |
| `CacheModel.GetKeepsLive` | internal/safebrowsing/cache.go:60-80 | a get does not change which prefixes are live |
| `CacheModel.PartsAreWhole` | internal/safebrowsing/cache.go:135-146 | an answer without foreign hashes is the sum of the parts stored for the asked prefixes |
| `CacheModel.RefinesStableUpstream` | internal/safebrowsing/cache.go:104-155 | while upstream's answers do not change, a lookup returns, up to order, exactly what upstream has for its prefixes |
| `Cache.DeduplicatePrefixes` | internal/safebrowsing/client.go:346-360 | an error exactly outside 1 to 30 prefixes, otherwise the first occurrences in order |
| `Cache.GroupByPrefix` | internal/safebrowsing/cache.go:130-141 | an error exactly when a hash was not asked for, otherwise each prefix's hashes in order |
| `Cache.Cache.constructor` | internal/safebrowsing/cache.go:27-38 | an empty cache whose map and list agree; a limit that is not positive becomes 4096 |
| `Cache.Cache.Get` | internal/safebrowsing/cache.go:60-80 | keeps map and list in bijection; drops an expired entry, moves a live one to the front and returns its hashes with the seconds left |
| `Cache.Cache.Put` | internal/safebrowsing/cache.go:82-102 | keeps map and list in bijection; the entry is in front and at most the last one is evicted |
| `Cache.Cache.Evict` | internal/safebrowsing/cache.go:96-101 | the loop cuts the list to the limit and the map with it |
| `Cache.Cache.CollectHits` | internal/safebrowsing/cache.go:109-123 | whatever other lookups do in between, each found prefix has an upstream answer that has not expired, and the rest is missing |
| `Cache.Cache.StoreAnswer` | internal/safebrowsing/cache.go:142-145 | each missing prefix is stored with its part of the answer and the answer's expiry |
| `Cache.Cache.Lookup` | internal/safebrowsing/cache.go:104-155 | the returned hashes are a permutation of what upstream answered for the deduplicated prefixes, each answer unexpired at the lookup; the reported seconds are the least left if and only if that is not 2^32 - 1, and zero if it is; each hash comes with the seconds its source has left; alone, only missing prefixes are asked and a foreign hash stores nothing |
| `CacheModel.SecondsLeft` | internal/safebrowsing/cache.go:49-58 | an entry stays for its seconds, and the whole seconds it has left are reported, saturated at 2^32 - 1 |
| `CacheModel.PutEvictsOne` | internal/safebrowsing/cache.go:82-102 | a put evicts one other entry at most, the last one, and only when the cache is full and its own prefix is new |
| `CacheHits.NothingIsAsked` | internal/safebrowsing/cache.go:113-125 | when all prefixes are live upstream is not asked |
| `CacheHits.SecondLookupAsksNothing` | internal/safebrowsing/cache.go:104-155 | with room in the cache a successful lookup leaves all its prefixes live, so that the same lookup again asks upstream nothing as long as the answers last |
| `Cache.LongestDurationIsReportedAsZero` | internal/safebrowsing/cache.go:151-153 | when upstream answers with 2^32 - 1 seconds the entry stays that long and zero is reported |
| `ProtoWire.VarintIsTaken` | internal/safebrowsing/client.go:137-140 | a varint is consumed exactly when a valid encoding of at most ten bytes stands in front |
| `ProtoWire.VarintFits64` | internal/safebrowsing/client.go:137-140 | a consumed varint is a 64-bit number |
| `ProtoWire.FieldIsTaken` | internal/safebrowsing/client.go:114-120 | a field is consumed exactly when its own encoding stands in front, nested groups within the recursion limit included |
| `ProtoWire.FieldsAreTaken` | internal/safebrowsing/client.go:286-295 | a byte string reads as a list of fields if and only if these are well formed and it is their encoding |
| `HashResponse.DecodeCacheDuration` | internal/safebrowsing/client.go:243-284 | the loop computes the whole seconds of a valid duration, and fails on every other one |
| `HashResponse.LongestDurationIsAccepted` | internal/safebrowsing/client.go:280-283 | a response with no hashes and a duration of 2^32 - 1 seconds is accepted, with that duration |
| `HashResults.NumberIsRead` | internal/safebrowsing/client.go:133-139 | the shortest varint of a 64-bit number is read as that number |
| `WireLimits.TagsAre` | internal/safebrowsing/client.go:124-128 | a tag carries a field number from 1 to 2147483647 and the wire type in its low three bits |
| `WireLimits.GroupsNest` | internal/safebrowsing/client.go:114-120 | up to 10001 groups may stand in one another in an unknown field |
| `HashResults.ValuesOfMore` | internal/safebrowsing/client.go:122-186 | more fields add their threat types, attributes and bodies behind those before them |
| `HashResults.PackedInOrder` | internal/safebrowsing/client.go:160-174 | a packed list is its varints in order |
| `HashResults.DetailIs` | internal/safebrowsing/client.go:88-188 | a detail means something if and only if it has a threat type, all threat types are 1 to 4 and all attributes 1 or 2; it carries the name of the last threat type and the names of all attributes in order, by the two tables |
| `HashResults.HashIsLast` | internal/safebrowsing/client.go:203-213 | a full hash message carries its last hash; one that does not have 32 bytes is an error |
| `HashResults.HashIsNeeded` | internal/safebrowsing/client.go:237-239 | a full hash message without a hash is an error |
| `HashResults.DurationIs` | internal/safebrowsing/client.go:280-283 | a duration is accepted exactly from 0 to 4294967295 seconds with less than a second of nanoseconds that do not point the other way |
| `HashResults.BadFieldIsError` | internal/safebrowsing/client.go:122-344 | one bad field anywhere makes its message an error, and with it every message around it |
| `HashResults.DurationIsNeeded` | internal/safebrowsing/client.go:338-340 | a response without a duration is an error |
| `HashResponse.DecodePackedAttributes` | internal/safebrowsing/client.go:159-176 | the packed loop gives the names of the known values in order and tells whether all are known |
| `HashResponse.DecodeHashDetail` | internal/safebrowsing/client.go:122-189 | a detail means something exactly when it has a threat type and all its values are known; its last threat type and all attributes in order |
| `HashResponse.DecodeFullHash` | internal/safebrowsing/client.go:191-241 | the last 32-byte hash and the meaningful details in order, an error on any malformed field |
| `HashResponse.DecodeSearchHashesResponse` | internal/safebrowsing/client.go:286-344 | terminates on every input with the meaning of the response; the triples of hash, threat type and attributes are, in order, each full hash message's hash with each of its details, all with the seconds of the response |
| `HashResponse.ResponseIffEncoded` | internal/safebrowsing/client.go:286-344 | a response is read from a byte string if and only if that is an encoding of fields with this meaning |
| `HashResponse.MessagesOfEncoded` | internal/safebrowsing/client.go:122-344 | the same for the messages inside, at every level |
| `HashResponse.UnknownFieldsAreIgnored` | internal/safebrowsing/client.go:180-186 | unknown fields, anywhere and of any shape, change no meaning |
| `HashResults.WrittenResponseIsRead` | internal/safebrowsing/client.go:286-344 | what a server lists, hashes with details by number and a duration, is what the decoder returns, by name and in order |
| `SqlSplitter.DollarQuoteTagAt` | db/postgres/migrations/embed.go:124-140 | the loop finds exactly the dollar-quote tag that starts at the index, if there is one |
| `SqlSplitter.Scan` | db/postgres/migrations/embed.go:151-229 | each turn advances within bounds and moves between the modes as the lexical grammar says |
| `SqlSplitter.SplitMigrationStatements` | db/postgres/migrations/embed.go:142-237 | the splitter equals the declarative lexer: the trimmed non-empty pieces between top-level semicolons, in order |
| `SqlResplit.PiecesCoverText` | db/postgres/migrations/embed.go:219-224 | the pieces and the semicolons between them are the whole text |
| `SqlResplit.FailsIffUnterminated` | db/postgres/migrations/embed.go:230-232 | the splitter fails if and only if a quote, block comment or dollar quote that opens at the top level does not close |
| `SqlResplit.DollarEndIsFirst` | db/postgres/migrations/embed.go:152-158 | a dollar quote ends at the first later occurrence of its tag |
| `SqlTexts.DollarQuoteIsOneStatement` | db/postgres/migrations/embed.go:124-158 | with a tag of ASCII letters, digits and underscores, a dollar-quoted text is one statement with every semicolon in it, up to the first repetition of the tag |
| `SqlTexts.OtherDollarIsPlain` | db/postgres/migrations/embed.go:124-140 | a dollar sign behind which any other character comes before the next dollar sign opens nothing |
| `SqlTexts.SingleQuotesAreOne` | db/postgres/migrations/embed.go:174-186 | text in single quotes is one construct: doubled quotes, backslashes with what follows them, and any other characters |
| `SqlTexts.DoubleQuotesAreOne` | db/postgres/migrations/embed.go:187-197 | the same for double quotes, where a backslash has no meaning |
| `SqlTexts.BlockCommentIsOne` | db/postgres/migrations/embed.go:164-173 | a block comment with any comments nested in it is one construct |
| `SqlTexts.LineCommentIsOne` | db/postgres/migrations/embed.go:159-163 | a line comment runs through the end of its line or of the text |
| `SqlTexts.ConstructIsOneStatement` | db/postgres/migrations/embed.go:219-236 | a construct alone is one statement, and a semicolon behind it ends that statement |
| `SqlTexts.BlankCharacters` | db/postgres/migrations/embed.go:219-236 | the single characters that are no statement are the semicolon and the 25 white space characters |
| `SqlResplit.ResplitGivesSameStatements` | db/postgres/migrations/embed.go:142-237 | joining the statements by newline, semicolon, newline and splitting again gives the same list |
| `Migrations.RetryIsDetermined` | db/postgres/migrations/embed.go:295-315 | what the attempts and the pauses bring decides how many attempts there are and what they come to |
| `Migrations.RunIsValid` | db/postgres/migrations/embed.go:239-293 | the invariant of all runners, the version table and the log of executed statements holds after every run |
| `Migrations.RecordedIsPrefix` | db/postgres/migrations/embed.go:250-292 | with any number of runners, crashes, restarts and retries the recorded versions are a prefix of the sorted files |
| `Migrations.RecordedIsExecuted` | db/postgres/migrations/embed.go:275-291 | each recorded version had all its statements succeed, each once and in order, within one runner |
| `Migrations.AppliedMeansAllRecorded` | db/postgres/migrations/embed.go:250-293 | a runner that reports success leaves every version recorded |
| `Migrations.RecordedStays` | db/postgres/migrations/embed.go:283-288 | no step of any runner removes a recorded version |
| `Migrations.RecordedIsSkipped` | db/postgres/migrations/embed.go:258-274 | a file that is recorded before a runner starts is never executed by that runner |
| `Migrations.StartAndStop` | db/postgres/migrations/embed.go:239-250 | a runner starts with five tries at its first operation, and one that has stopped never goes on |
| `MigrationRunner.OthersLeaveRunner` | db/postgres/migrations/embed.go:239-293 | steps of other runners, any number of them, leave a runner where it is |
| `MigrationRunner.Database.Attempt` | db/postgres/migrations/embed.go:241-288 | one attempt is one step of the interleaved runs and moves no other runner; only an insert that takes effect changes the version table |
| `MigrationRunner.Database.Perform` | db/postgres/migrations/embed.go:295-315 | retrying one operation of a runner uses the network exactly as retrying is specified, and leaves the runner behind that operation on success and stopped otherwise |
| `MigrationRunner.Database.ExecuteAll` | db/postgres/migrations/embed.go:275-282 | the statements of a file are executed in order and the next thing is to record it; it stops only where a statement fails for good |
| `MigrationRunner.Database.ApplyFile` | db/postgres/migrations/embed.go:250-291 | a file is skipped if recorded, otherwise executed and recorded; it stops only where an operation fails for good or the file cannot be split |
| `MigrationRunner.Database.ApplyCockroach` | db/postgres/migrations/embed.go:239-293 | each step is a step of the interleaved runs; success means that every version is recorded, failure that an operation failed after all its attempts or a file cannot be split; it succeeds when every attempt does and every file can be split |
| `Repository.MemoryRepository.Create` | internal/store/memory/repository.go:43-76 | stores a new record, replays an equal request hash, and changes nothing otherwise |
| `Repository.MemoryRepository.Get` | internal/store/memory/repository.go:99-114 | returns exactly a stored record that has not expired |
| `Repository.MemoryRepository.Consume` | internal/store/memory/repository.go:116-132 | removes and returns exactly such a record, and otherwise changes nothing |
| `Repository.ExpiredIff` | internal/store/memory/repository.go:104-112 | a record lives up to its expiry and not at it; cleanup and reads agree on that |
| `Repository.MemoryRepository.CollectExpired` | internal/store/memory/repository.go:152-157 | collects each expired record once, whatever the map's order |
| `Repository.SortByExpiry` | internal/store/memory/repository.go:158-160 | a sorted permutation |
| `Repository.MemoryRepository.DeleteExpired` | internal/store/memory/repository.go:134-168 | removes the batch size or all expired records, whichever is less, none of which expired later than an expired one it leaves |
| `Repository.CleanupExpired` | securl.go:105-139 | a memory store is refused; with E records expired and no other writers the loop ends after E / batch + 1 passes with total E and keeps exactly the others; at the first cancelled pass it ends with an error and the total of the full batches before it; the store is closed in every case, and a failing close is an error too |
| `Access.Access` | internal/access/service.go:34-84 | whatever others do in between, result and store are the access function of the store at Get, the store before Consume and the cancellation seen at each, errors included; a record is granted only if it was live with one of the two flags and, if it has CAPTCHA, only after the provider accepted the token, and a rejected token leaves the store as it was; alone both stores are the one it was called on |
| `Access.AccessEnds` | internal/access/service.go:34-84 | how an access ends is decided by the first of nine conditions that holds; only then is a record handed out, and only a burn record leaves the store |
| `Access.UnwrapsExactly` | internal/captcha/wrapper.go:66-81 | a key is unwrapped if and only if the nonce has 12 bytes and 32 bytes open under it, bound to the storage key and version 2 |
| `Access.ReleasedKeyIsSupplied` | internal/captcha/wrapper.go:50-81 | unwrapping a record's key gives the key it was created with, whichever record ends up being released, and fails exactly when a key is due that the record does not have |
| `Access.AccessAloneGrants` | internal/access/service.go:34-84 | alone, an access that passes the checks returns the record with its CAPTCHA key; a burned record cannot be accessed again |
| `Access.WrapperLawsAreConsistent` | internal/captcha/wrapper.go:50-81 | the laws assumed of the key wrapper can be met |
| `AccessRuns.StepsAreAccess` | internal/access/service.go:40-83 | the atomic steps of one access, with anything in between, leave the store and grant what the access method does |
| `AccessRuns.RunIsValid` | internal/access/service.go:34-84 | the invariant of store, callers and answers holds after every interleaving |
| `AccessRuns.BurnedAtMostOnce` | internal/store/memory/repository.go:116-132 | an incarnation with the burn flag is released by at most one access and is no longer stored once it is |
| `AccessRuns.PlainReadsAreUnprotected` | internal/httpapi/handlers.go:262-272 | a plain read never returns a record with the burn or CAPTCHA flag |
| `AccessRuns.PlainReadIs` | internal/httpapi/handlers.go:262-272 | a plain read returns a live record if and only if neither flag is set, and changes nothing |
| `AccessRuns.CaptchaComesFirst` | internal/access/service.go:52-59 | over all runs, a caller that saw a record with CAPTCHA is past the checks, or answered, only after the provider accepted its token |
| `AccessRuns.TakenAfterCaptcha` | internal/access/service.go:52-69 | and only then takes a record out of the store; nothing but its own Consume does that |
| `AccessRuns.ReleasedAsCreated` | internal/access/service.go:64-83 | a released CAPTCHA key is the one supplied for that very incarnation; the key comes with the record if and only if Get saw CAPTCHA or the released record has none, so always when both are the same incarnation |
| `AccessRuns.AnsweredUnlessKeyIsMissing` | internal/access/service.go:71-82 | an access that holds its record answers if and only if not (Get saw CAPTCHA and the record held has none); otherwise a burn record is consumed, no longer stored, and not answered |
| `AccessRuns.RecreationLosesKey` | internal/access/service.go:64-83 | a run in which the key is re-created with CAPTCHA in between releases that record without its key |
| `AccessRuns.RecreationLosesRecord` | internal/access/service.go:64-83 | a run in which it is re-created without CAPTCHA ends with the record consumed, unanswered and the store empty |
| `AccessRuns.OnlyConsumeChangesStore` | internal/access/service.go:40-69 | an access that fails before Consume leaves the store unchanged; Consume removes only the record it hands out |
| `AccessRuns.CreateKeepsStored` | internal/store/memory/repository.go:58-63 | no create changes a stored record |
| `AccessRuns.StepsAreRepositoryOperations` | internal/store/memory/repository.go:43-132 | the steps of a run that change the store are the repository's operations |
| `CreateRetry.CreateAloneIsHandle` | internal/httpapi/handlers.go:150-199 | nothing is lost by taking lookup and create as one step: a create does what the whole handler does at that instant |
| `CreateRetry.Server.HandleRequest` | internal/httpapi/handlers.go:149-213 | with anything between lookup, CAPTCHA check and create, the request takes effect as one step at the last of them it reaches; one that is refused there changes nothing, and one that the lookup answers is not checked |
| `CreateRetry.RefusedOrHandled` | internal/httpapi/handlers.go:150-199 | only a request its lookup does not answer can be refused by the checks before its create; a refusal changes nothing, and without one the request is handled |
| `CreateRetry.HandleFacts` | internal/httpapi/handlers.go:149-213 | a create request adds at most its own record, accepts exactly when its hash is stored afterwards, and a conflict means another one is |
| `CreateRetry.ResubmissionIsReplayed` | internal/httpapi/handlers.go:150-161 | handling the same request again changes nothing and is answered as a replay |
| `CreateRetry.CreateWithCollisionRetries` | frontend/src/lib/api/create.ts:22-38 | at most five builds and six requests; the next artifact is built exactly after a conflict, the same one is sent again exactly after a transport error, it returns exactly on an accepted reply, with the last artifact built and stored; a client whose last reply is a conflict throws, at its fifth artifact or after a transport error; without interference requests, result and store are an exact function |
| `CreateRetry.StoresAtMostOne` | frontend/src/lib/api/create.ts:26-37 | however many requests and answers are lost, the store gains at most the last artifact built |
| `CreateRetry.LostAnswerIsReplayed` | frontend/src/lib/api/create.ts:31-33 | after a lost answer the same artifact is answered as a replay, stored once, and returned |
| `CreateRetry.TransportErrorThenConflictThrows` | frontend/src/lib/api/create.ts:31-33 | a lost request followed by a conflict ends the client after one build |
| `CreateRetry.ConflictAloneIsRetried` | frontend/src/lib/api/create.ts:34-35 | the same conflict without the transport error is retried with the next artifact |
| `CreateHandler.ValidRequestIsStorable` | internal/httpapi/handlers.go:92-209 | validation lets nothing through that the store would refuse |
| `CreateHandler.RecordCarries` | internal/httpapi/handlers.go:134-209 | every field of the stored record: metadata and envelope readable as they came, hash, entity tag, flags, the end of the TTL, and the CAPTCHA key wrapped for this storage key and version 2 |
| `CreateHandler.ReplayedIffSameRequest` | internal/httpapi/handlers.go:137-213 | once a valid request is stored, another one under its storage key is answered as a replay if it has the same envelope and CAPTCHA key and as a conflict if not, and the store does not change |
| `LinkRoundTrip.VisitGives` | internal/httpapi/handlers.go:249-272 | whoever visits a stored link in time, and passes its CAPTCHA if it has one, is given the record that was created with the CAPTCHA key that came with it; a burn record is gone afterwards |
| `LinkRoundTrip.SharedContentIsRead` | internal/httpapi/handlers.go:88-280 | end to end: what the client seals is decoded as sent, passes validation and is stored; whoever then visits the link, with the CAPTCHA key the server releases and the password of the link, opens exactly the sealed content up to the first NUL of a URL; the link is gone afterwards if and only if it burns |
| `LinkRoundTrip.ExpiredLinkIsGone` | internal/store/memory/repository.go:104-112 | a link is gone once its TTL is over, to the nanosecond |
| `LinkRoundTrip.CaptchaIsNeeded` | internal/access/service.go:52-59 | nobody is given a link with CAPTCHA without passing it, and the record stays |
| `Shutdown.RunIsValid` | securl.go:48-68 | the invariant of mutex, seal, wait group, worker and closer holds after every interleaving |
| `Shutdown.ClosedOnceAndLast` | securl.go:268-341 | on every path the repository is closed at most once, and neither an admitted handler nor the worker runs when it is |
| `Shutdown.ClosedForGood` | securl.go:268-341 | nothing that could use the repository starts after it was closed |
| `Shutdown.AdmittedBeforeSealAndWait` | securl.go:48-64 | a handler is admitted only before the seal, and every Add comes before any Wait |
| `Shutdown.WaitedMeansGone` | securl.go:299-317 | a Wait that returns, on either path, leaves no admitted handler and none follows |
| `Shutdown.GracefulRunCloses` | securl.go:299-301 | the safety claims are not empty: a graceful run that closes the repository exists |
| `Shutdown.ForcedRunCloses` | securl.go:302-318 | and so does a forced one |
| `Shutdown.HandlersRunAndClose` | securl.go:48-68 | a run in which an admitted handler finishes while it is waited for, a later one is rejected, and the repository is closed behind both |
| `Shutdown.WorkerStopsWhenCancelled` | securl.go:268-301 | over all runs the worker stops only after it was cancelled |
| `Identifiers.ElevenDigitsFit` | frontend/src/lib/crypto/id.ts:2-5 | 62^10 < 2^64 < 62^11 |
| `Identifiers.DigitsAreAlphabet` | frontend/src/lib/crypto/id.ts:1-5 | the 62 digits are 0-9, A-Z, a-z in this order, and no other character is a digit |
| `Identifiers.HighByte` | frontend/src/lib/crypto/id.ts:16-19 | the bytes of an identifier are read with the last one weighing most |
| `Identifiers.InverseBijections` | frontend/src/lib/crypto/id.ts:11-58 | decoding gives an identifier if and only if the text is that identifier's encoding |
| `Identifiers.EncodeId` | frontend/src/lib/crypto/id.ts:11-28 | the loops and the zero padding give the eleven Base62 digits of the little-endian value |
| `Identifiers.DecodeId` | frontend/src/lib/crypto/id.ts:30-58 | succeeds exactly on eleven Base62 characters below 2^64, so the final canonical check never rejects |
| `UrlText.PercentDecodeRepeatedly` | frontend/src/lib/safe-browsing/url-hash.ts:17-26 | terminates, and no %hh is left |
| `UrlTextFacts.HexDigitsAre` | frontend/src/lib/safe-browsing/url-hash.ts:20-22 | the hexadecimal digits are the sixteen characters in either case, written in capitals |
| `UrlTextFacts.EscapeIsDecoded` | frontend/src/lib/safe-browsing/url-hash.ts:20-22 | %hh is replaced by its byte |
| `UrlTextFacts.OthersAreKept` | frontend/src/lib/safe-browsing/url-hash.ts:20-22 | and nothing else is replaced |
| `UrlText.EscapeUnsafe` | frontend/src/lib/safe-browsing/url-hash.ts:90-107 | the loop over characters computes the escaping function, surrogate pairs and lone surrogates included |
| `UrlTextFacts.LatinIsEscaped` | frontend/src/lib/safe-browsing/url-hash.ts:94-101 | up to U+00FF exactly printable ASCII other than # and % stays, everything else becomes %HH |
| `UrlTextFacts.OthersAreEscaped` | frontend/src/lib/safe-browsing/url-hash.ts:102-104 | above that, a pair of surrogates is escaped as one character, any other unit by itself |
| `UrlTextFacts.PairIsOneCharacter` | frontend/src/lib/safe-browsing/url-hash.ts:92-93 | the pair's character determines both surrogates, and they it |
| `UrlTextFacts.Utf8Is` | frontend/src/lib/safe-browsing/url-hash.ts:102-104 | its bytes are those RFC 3629 gives the character, and those of U+FFFD for a lone surrogate |
| `UrlTextFacts.BytesArePercented` | frontend/src/lib/safe-browsing/url-hash.ts:102-104 | each byte becomes %HH, in order |
| `UrlText.DecodeOnceUndoesEscape` | frontend/src/lib/safe-browsing/url-hash.ts:90-107 | decoding once undoes the escaping of bytes |
| `UrlText.CanonicalIsFixpoint` | frontend/src/lib/safe-browsing/url-hash.ts:113-149 | decoding and then escaping twice is the same as once |
| `UrlText.NormalizePath` | frontend/src/lib/safe-browsing/url-hash.ts:71-88 | the push and pop loop computes the normalized path |
| `UrlTextFacts.SplitCutsAtSlashes` | frontend/src/lib/safe-browsing/url-hash.ts:76 | a path is cut at every slash and only there |
| `UrlTextFacts.OneMoreSegment` | frontend/src/lib/safe-browsing/url-hash.ts:76-83 | one more segment: nothing and `.` leave what there is, `..` takes the last one back, any other is added |
| `UrlTextFacts.SlashesCollapse` | frontend/src/lib/safe-browsing/url-hash.ts:72 | slashes in a row count as one |
| `UrlTextFacts.MissingSlashIsAdded` | frontend/src/lib/safe-browsing/url-hash.ts:72 | a path without a leading slash is normalized as if it had one |
| `UrlTextFacts.NormalizedPathIs` | frontend/src/lib/safe-browsing/url-hash.ts:71-88 | a path is its resolved segments behind slashes, with a slash behind exactly if there are segments and it ended in a slash or a dot segment |
| `UrlText.NormalizedIsNormal` | frontend/src/lib/safe-browsing/url-hash.ts:71-88 | the result consists of segments that are not empty, not `.`, not `..`, with or without a slash behind |
| `UrlText.NormalizePathIsIdempotent` | frontend/src/lib/safe-browsing/url-hash.ts:71-88 | normalizing twice is the same as once |

## Left out

- HTTP transport, routing, CORS, security headers, logging and static files: plumbing around the modelled handlers.
- PostgreSQL and MariaDB drivers and generated SQL bindings: the memory repository's contract stands for the store.
- `applyPostgres` and the MariaDB runner: one transaction or one lock, so there is no interleaving to reason about.
- Argon2, SHA, XChaCha20-Poly1305, AES-GCM and DEFLATE themselves: abstract functions with round-trip laws.
- Browser URL parsing, IDNA and hostname normalization, and the assembly of a canonical URL from its parts: their
  behaviour is that of a library.
- Markdown rendering and sanitizing, Svelte components, CAPTCHA widgets, the Node launcher: user interface and glue.
- Environment parsing apart from the TTL and paste bounds: only easy members.
- Non-strict marshalling, protobuf descriptors and reflection: the server uses the strict form. The messages besides
  metadata, envelope, payload and create request have the same generated shape.
- The HTTP fetch around the hash response decoder, and the semaphore in front of it.
- Hash expressions and `findBlockingMatch`: a list of candidate strings.
- Unwrapping and wrapping zero their temporary keys in Go; only the client's buffers are modelled with zeroing. The
  salt and the associated data, which the client does not zero, are values.
- CreateRetry.Server.HandleRequest: the verdict of the CAPTCHA check is a parameter, and an ended request context, which
  makes lookup or create fail, is not modelled here; `Repository.MemoryRepository` states what each operation does then.
- Cache.Cache.Get: does not model the copies of attribute slices that keep callers from sharing them; hashes are values.
- Repository.MemoryRepository.Get: does not model the copies of byte slices, for the same reason.
- Shutdown.ClosedOnceAndLast: claims safety only; the code does not promise that the repository is closed eventually.
- Migrations.RecordedIsPrefix: starts from an empty version table; a table with other contents is outside the claim.
- ProtocolBuffers.ParsePayloadBuffer: decodes with the generated Go decoder's rules, which agree with the browser's
  runtime on the strict encodings the protocol produces.
