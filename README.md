# atopio-extra: claims extraction and record-id codecs, in Dafny

This project models the core of the `atopio-extra` crate. The crate has three parts.

- `decode_payload_insecurely` reads the claims of a SurrealDB token. It checks no signature, no issuer and no timestamp. It takes the second `.`-separated part of the token, decodes it as unpadded base64url, and parses the bytes as JSON into the claims record.
- `SurrealJWTClaims<T>` is that record. It has nine fields and a derived serde mapping. Five fields keep their names on the wire; `ns`, `db`, `ac` and `id` are renamed to `NS`, `DB`, `AC` and `ID`. The access claims `ac` have a caller-chosen type `T`.
- `record_id_full` writes a record id as the string `table:key` and reads it back. `record_id_naked` writes only the key.

All of the core is pure code. Each part is a datatype plus functions, with lemmas about them.

| file | module | models |
|---|---|---|
| `wrappers.dfy` | `Wrappers` | `Option` and `Result` with early return (Rust's `?`) |
| `json.dfy` | `Json` | the JSON value the payload is parsed into |
| `split.dfy` | `Segments` | `str::split` on a `char` |
| `base64url.dfy` | `Base64Url` | the `URL_SAFE_NO_PAD` decoder, plus its encoder as a companion |
| `claims.dfy` | `Types` | `SurrealJWTClaims<T>`, its wire keys, and its derived `Deserialize` and `Serialize` |
| `extractor.dfy` | `Extractor` | `decode_payload_insecurely` |
| `record_id.dfy` | `RecordIds` | `record_id_full` and `record_id_naked` |

Three parts of the behaviour come from libraries and are passed in as parameters:

- `parseJson` parses JSON text. It maps bytes to a JSON value, or fails.
- `decodeAc` and `encodeAc` are `T`'s own codec. `decodeAc` receives `None` when the `AC` key is absent. serde lets `T` decide that case, so an optional `T` can accept it.
- `allowTrailingBits` says whether the base64 engine accepts non-zero unused bits in the last character. The extractor fixes it to `false`, because the `base64` crate's standard engines reject such text.

The extractor's doc comment (src/lib.rs:13) says a token must have three parts. The code does not check this: it only asks for a second part (src/lib.rs:22-24). So `header.payload`, with no signature part, is accepted. The model follows the code; `Extractor.PayloadSegmentOf` states it.

## Model

| member | source | states |
|---|---|---|
| Segments.Split | src/lib.rs:22 | there is more than one part exactly when the string holds the separator, and no part contains the separator |
| Segments.SplitCount | src/lib.rs:22 | `n` separators give `n + 1` parts |
| Segments.JoinSplit | src/lib.rs:22 | splitting loses nothing: the parts joined with the separator give back the token |
| Segments.SplitWithoutSeparator | src/lib.rs:22-24 | a token without a `.` is a single part, so it has no second part |
| Segments.SplitAtFirstSeparator | src/lib.rs:22-24 | the first part ends at the first separator, and the rest is split on its own |
| Base64Url.CharOf | src/lib.rs:4 | each 6-bit value is written as a character of the RFC 4648 section 5 alphabet |
| Base64Url.ValueOf | src/lib.rs:4 | each of the 64 characters of the RFC 4648 section 5 alphabet has a 6-bit value that maps back to that character |
| Base64Url.ValueOfCharOf | src/lib.rs:4 | the alphabet is a bijection between 6-bit values and characters |
| Base64Url.Encode | src/lib.rs:4 | the companion encoder writes only alphabet characters and never `=` padding |
| Base64Url.EncodedLength | src/lib.rs:4 | encoding writes `ceil(4n/3)` characters, never a length that is 1 more than a multiple of 4 |
| Base64Url.DecodeRejectsForeignChar | src/lib.rs:26 | a character outside the alphabet anywhere in the text (`=`, `+` and `/` included) makes decoding fail |
| Base64Url.DecodeRejectsLengthOneModFour | src/lib.rs:26 | text whose length is 1 more than a multiple of 4 never decodes |
| Base64Url.DecodeFinal | src/lib.rs:26 | a final group of two or three characters gives one or two bytes, or nothing |
| Base64Url.Decode | src/lib.rs:26 | successful decoding of `n` characters gives `floor(3n/4)` bytes |
| Base64Url.DecodedTextIsWellFormed | src/lib.rs:26 | whatever decodes uses only alphabet characters and has an admissible length |
| Base64Url.QuadRoundTrip | src/lib.rs:26 | the four characters written for three bytes decode back to those bytes |
| Base64Url.QuadCanonical | src/lib.rs:26 | every group of four alphabet characters is the encoding of the three bytes it decodes to |
| Base64Url.FinalRoundTrip | src/lib.rs:26 | a final group of two or three characters decodes back to its one or two bytes |
| Base64Url.FinalCanonical | src/lib.rs:26 | strict decoding accepts a final group only when its unused bits are zero, that is, only the canonical text |
| Base64Url.DecodeQuadStep | src/lib.rs:26 | decoding a leading group of four characters gives its three bytes before the bytes of the rest, and fails when the rest fails |
| Base64Url.DecodeEncode | src/lib.rs:26 | decoding the encoding of any byte string gives back that byte string, in either mode |
| Base64Url.EncodeDecode | src/lib.rs:26 | whatever strict decoding accepts is exactly the encoding of its result, so strict decoding and encoding are inverse bijections |
| Base64Url.StrictDecodeRefinesLenient | src/lib.rs:4 | accepting trailing bits only widens what decodes; where strict decoding succeeds, both modes agree |
| Base64Url.TrailingBitsMatter | src/lib.rs:4 | the modes differ: `QR` is refused when strict and read as byte 65 when lenient, and `QQ` is the canonical text of 65 |
| Types.WireKey | src/types.rs:26-33 | the keys of `ns`, `db`, `ac` and `id` start with an upper-case letter, and the keys of the five registered claims do not |
| Types.FieldListed | src/types.rs:20-34 | the record has exactly the nine fields, in declaration order |
| Types.FieldOfKey | src/types.rs:26-33 | a key names a field exactly when it equals that field's wire key, and otherwise names none |
| Types.FieldOfKeyWireKey | src/types.rs:26-33 | each field is found again under its own wire key |
| Types.WireKeyInjective | src/types.rs:26-33 | no two fields share a wire key |
| Types.KeysAreCaseSensitive | src/types.rs:26-33 | `ns`, `Db` and `IAT` name no field |
| Types.AsU64 | src/types.rs:21-23 | a timestamp is accepted exactly when it is a number in `[0, 2^64)`; negative and too-large numbers are refused |
| Types.AsString | src/types.rs:24-33 | a text field is accepted exactly when the value is a JSON string |
| Types.CollectMembers | src/types.rs:3 | reading more members keeps every field recorded before, with its value |
| Types.FromSlots | src/types.rs:20-34 | a record is built only when every field other than `ac` was read with the record's value, and `ac` is what `T`'s decoder gives for the `AC` member or for its absence |
| Types.FromSequence | src/types.rs:3 | an array is read only when it has nine elements and is the record's sequence form, with `ac` decoded from the eighth |
| Types.FromJson | src/types.rs:3 | only an object, or an array of exactly nine elements, can decode to a record |
| Types.CollectedMembers | src/types.rs:3 | reading an object records every member whose key names a field, with its value, and that field had not been seen before |
| Types.CollectedOnlyNamed | src/types.rs:3 | nothing is recorded but the fields seen before and the fields some member names |
| Types.CollectedDistinct | src/types.rs:3 | reading succeeds only when no two members name the same field |
| Types.CollectSucceeds | src/types.rs:3 | reading succeeds whenever no key that names a field repeats and none was seen before; unknown keys never make it fail |
| Types.MissingFieldRejected | src/types.rs:20-34 | an object without some field's key is refused; none of the nine fields has a default |
| Types.WrongShapeRejected | src/types.rs:21-33 | a field with the wrong shape, wherever it stands, makes the object be refused |
| Types.DuplicateFieldRejected | src/types.rs:3 | a field's key that appears twice makes the object be refused |
| Types.FieldMembers | src/types.rs:3 | serializing writes one member per field, in declaration order, under the field's wire key |
| Types.ToJson | src/types.rs:3 | serializing gives an object that carries the record: each field's key once, with the field's value |
| Types.FieldMembersCarryRecord | src/types.rs:3 | the serialized members name each field once and hold each field's value |
| Types.FromSlotsComplete | src/types.rs:20-34 | a record is rebuilt from any collection holding each field's value |
| Types.FromJsonCarried | src/types.rs:3 | any object in which each field's key appears once with the field's value decodes to the record, in any member order and whatever other keys it holds, provided `T`'s codec round-trips |
| Types.FromJsonObjectSound | src/types.rs:3 | conversely, an object decodes to a record only when no field's key repeats and each field other than `ac` has a member holding the record's value |
| Types.FromJsonToJson | src/types.rs:3-4 | serializing a record and deserializing the result gives back the record, provided `T`'s codec round-trips |
| Types.FromJsonSequence | src/types.rs:3 | the nine field values as an array, in declaration order, also decode to the record |
| Types.NoCrossFieldCheck | src/types.rs:7-9 | a record with `nbf` after `exp` decodes like any other, so no cross-field invariant is enforced |
| Types.AccessClaimsAreOpaque | src/types.rs:30-31 | the record never looks into `ac`: two decoders for `T` give records that agree on every other field |
| Extractor.PayloadSegment | src/lib.rs:22-24 | a payload part exists exactly when the token contains a `.`, and it contains no `.` |
| Extractor.ParseClaims | src/lib.rs:28 | parsing succeeds exactly when the bytes are JSON that reads as a record; every failure is a schema mismatch |
| Extractor.DecodePayloadInsecurely | src/lib.rs:16-31 | the first failing stage decides the error: no `.` gives `MissingPayload`, a payload that is not base64url gives `InvalidEncoding`, otherwise the result is the claims parse of the decoded bytes |
| Extractor.PayloadSegmentOf | src/lib.rs:22-24 | the payload is exactly the text between the first and second `.`; a token of two parts has one |
| Extractor.PayloadSegmentShape | src/lib.rs:22-24 | every token with a payload is a first part, a `.`, the payload, then nothing or a `.` and the rest |
| Extractor.HeaderAndSignatureIgnored | src/lib.rs:22-24 | the first part and everything after the payload are never looked at |
| Extractor.ForeignCharRejected | src/lib.rs:26 | a payload character outside the alphabet gives `InvalidEncoding`, whatever the JSON would say |
| Extractor.LengthOneModFourRejected | src/lib.rs:26 | a payload whose length is 1 more than a multiple of 4 gives `InvalidEncoding` |
| Extractor.EncodedPayloadReachesParser | src/lib.rs:22-28 | any bytes, base64url-encoded as the payload, reach the JSON parser unchanged |
| Extractor.ExtractsEncodedClaims | src/lib.rs:16-31 | a token whose payload is any JSON object carrying a record yields that record, whatever its member order, its other claims, its header, its signature and its timestamps |
| Extractor.ExtractsSerializedClaims | src/lib.rs:16-31 | in particular a token whose payload is the serialized record yields that record |
| RecordIds.Render | src/lib.rs:46 | in the text form of a simple id, the last `:` stands right after the table |
| RecordIds.Parse | src/lib.rs:65 | a string is read as an id only when it is that simple id's `table:key` form |
| RecordIds.SerializeFull | src/lib.rs:42-47 | the full form never fails and is a JSON string holding the separator |
| RecordIds.DeserializeFull | src/lib.rs:60-66 | a value that is not a string (`null` included) gives `NotAString`; a success is a simple id whose full form is the input |
| RecordIds.SerializeNaked | src/lib.rs:77-83 | the naked form never fails and is a JSON string: the full form with the table and its `:` removed, that is the key; for a simple id it holds no `:` |
| RecordIds.ParseRender | src/lib.rs:65 | splitting a simple id's text form at its last `:` recovers the id |
| RecordIds.FullRoundTrip | src/lib.rs:49-66 | writing a simple id in full and reading it back gives the same id |
| RecordIds.DeserializeFullExactly | src/lib.rs:60-66 | a string is read as an id exactly when it is that simple id's full form |
| RecordIds.NakedIgnoresTable | src/lib.rs:71-83 | two ids have the same naked form exactly when their keys are equal |
| RecordIds.NakedHasNoInverse | src/lib.rs:71-83 | no reader undoes the naked form: `person:john` and `user:john` are both written `"john"` |

## Left out

- JSON text is not modelled. serde_json's parser is the parameter `parseJson`, and serialization stops at the JSON value, not text.
- Floating-point JSON numbers are not represented. serde refuses them for a `u64` field, and a `parseJson` that meets one can be read as yielding a value of the wrong shape.
- `T`'s serde implementation is the pair of parameters `decodeAc` and `encodeAc`.
- The record-id grammar of the `surrealdb` crate is not part of this model. This covers numeric, UUID, array, object and range keys, and the `⟨…⟩` escaping. Ids here are simple: a table and a key, each a non-empty run of ASCII letters, digits and `_`, which are read and written without escaping.
- RecordIds.Parse: reads only simple ids. What `RecordId::from_str` does with other text (escaped parts, numeric keys, other characters) is not modelled, so the model refuses such text.
- RecordIds.Render: writes any id as table, `:`, key, with no escaping. The `surrealdb` crate escapes some parts that the model writes plainly, such as a string key made only of digits. A text made only of digits is a numeric key there; here it is a string key.
- Types.FromJson: its own contract says only which shapes can decode. What an object decodes to is stated by Types.FromJsonCarried and Types.FromJsonObjectSound, and what an array decodes to by Types.FromSequence.
- The error messages and the `Box<dyn Error>` type are not modelled. Only the three failure kinds and their order are kept.
- The `base64` engine's trailing-bits setting is not in src/lib.rs. It is the parameter `allowTrailingBits`, fixed to `false` by the extractor.
- The token is modelled as a sequence of characters. The `base64` crate reads its bytes, but every non-ASCII character is outside the alphabet either way.
- The optional record-id codecs and the naked-form reader used in tests/mod.rs do not exist in src/lib.rs. They are not modelled.
- Signature, expiry and issuer checks are absent. The source does none, so the model adds none.
