# kafcars: versioned Kafka codec and connection dispatch

kafcars is an unfinished Kafka client written in Rust. This project models its logic that works on byte
sequences. It does not model the async runtime around that logic.

**Primitive codec** (`wire.dfy`, `serializer.dfy`, `deserializer.dfy`)
- Booleans are one byte.
- The integers `i8`, `i16`, `i32`, `u32` and `i64` are fixed-width and big-endian.
- The unsigned varint is base-128: seven payload bits per byte, low group first.
- The encoder masks the original value rather than the shifted remainder. Every byte it writes therefore carries
  `val % 128` as its low bits. The decoder reads back the number whose groups all equal `val % 128`, truncated to
  64 bits. That is `val` itself for every value below 128 and for a value such as 129 (two groups of 1), but not
  for 128.
- A compact string is `varint(len + 1)` followed by the bytes.
- Writers and readers are classes:
  - a `Writer` appends to its `bytes`;
  - a `Reader` consumes its `remaining` input.
- Every reading or writing method is proved against a pure function on sequences.

**Tagged-field container** (`messages.dfy`)
- The encoder writes a count and then `(tag, length, payload)` entries, in the order the map iterates.
- The decoder is modelled as written:
  - a count of 0 yields the empty map;
  - any other count N reads N + 1 entries;
  - each tag must exceed the previous one;
  - each payload is stored as `size` zero bytes followed by the (possibly shorter) bytes actually read;
  - the duplicate-tag error cannot occur.
- As a consequence, a non-empty map whose tags and payload lengths are below 128, written in ascending tag order,
  never decodes from its own encoding.

**Derived codecs** (`common.dfy`, `versioned.dfy`, `kafka_request.dfy`, `field_codecs.dfy`)
- The derive macros are modelled by the meaning of the code they generate, not by token manipulation:
  - `DeriveSchemaDef` turns a struct description into a schema: its maximum version and, per field, the version
    window, whether the field is an `Option`, and its `serialize_with` hook.
  - `Encode` and `Decode` interpret such a schema over per-type codecs.
  - A per-type codec or hook yields the bytes it wrote into the shared writer together with the error it returned,
    if any. A codec that fails part way, such as a nested struct failing on an inner field, leaves its partial
    output in the writer, and the generated code returns the error without removing it.
  - `SerializeVersioned` and `DeserializeVersioned` are the generated methods. They run over a `Writer` or a
    `Reader`, one field at a time.
- `#[derive(KafkaRequest)]` derives the constants `API_KEY`, `API_VERSION_RANGE` and `TAGGED_FIELDS_MIN_VERSION`.
- `option_type` recognises `Option<T>` on a small model of `syn` paths.

**Messages** (`header.dfy`, `version.dfy`)
- `RequestHeader`, `ResponseHeader` and `ApiVersionsRequest` are instances of the interpreter.
- Each instance comes with its derived schema and lemmas giving its exact byte layout at every version.

**Connection** (`connection.dfy`)
- `match_versions`.
- Version negotiation and the two tagged-field flags of `send_request_with_version_ranges`.
- The wrapping `i32` correlation-id counter.
- `read_with_raw_response_message`, over a pending table `map<Int32, ActiveRequest>`. Each frame either serves
  exactly one pending request or leaves the table unchanged with an error. Over any sequence of frames, each
  request is served at most once.
- `ConnectionStream` is a class holding the counter, the pending table and the outcomes delivered so far.

**Unseen code is a parameter**
- The codec of `ApiKey` (`Encoder<Value>`).
- `serialize_nullable_string` (`Hook<Value>`).
- The default codec of `String`, which a hook always replaces.
- The iteration order of a `HashMap` (`Iteration`: any function listing every key exactly once).

## Model

| member | source | states |
|---|---|---|
| Wire.Zeros | kafcars/src/protocol/messages/mod.rs:76 | the pre-filled payload vector: `n` bytes, all zero |
| Wire.Writer.WriteAll | kafcars/src/protocol/messages/mod.rs:50 | `write_all` appends exactly the given bytes and changes nothing else |
| Wire.Reader.constructor | kafcars/src/protocol/deserializer.rs:45-47 | a cursor over a frame starts with the whole frame remaining |
| Wire.Reader.ReadExact | kafcars/src/protocol/deserializer.rs:53-54 | `read_exact` yields the next n bytes and consumes them; with fewer than n left it is an `UnexpectedEof` I/O error |
| Wire.Reader.ReadUpTo | kafcars/src/protocol/messages/mod.rs:77-78 | `take(size)` then `read_to_end` yields at most `size` bytes, fewer when the input ends, without error |
| Serializer.EncodeBool | kafcars/src/protocol/serializer.rs:31-35 | a bool is one byte: 1 exactly for true, 0 exactly for false |
| Serializer.BigEndian | kafcars/src/protocol/serializer.rs:37-65 | the big-endian digits of x fill exactly n bytes |
| Serializer.TwosComplement | kafcars/src/protocol/serializer.rs:37-65 | a representable value maps below 2^(8·width), and a non-negative value maps to itself |
| Serializer.EncodeInt | kafcars/src/protocol/serializer.rs:37-65 | `to_be_bytes` of i8/i16/i32/u32/i64 is exactly 1/2/4/4/8 bytes; the inverse is Deserializer.DecodeIntRoundTrip |
| Serializer.VarIntLength | kafcars/src/protocol/serializer.rs:75-88 | the loop writes at least one byte |
| Serializer.VarIntLengthBounds | kafcars/src/protocol/serializer.rs:75-88 | the number of bytes written is the number of 7-bit groups of the value: v < 128^n, and 128^(n-1) ≤ v when n > 1 |
| Serializer.VarIntBytesFromShape | kafcars/src/protocol/serializer.rs:76-88 | from any remainder `curr`, the loop writes one byte per remaining group; each carries `val % 128`, and the continuation bit is set on all but the last |
| Serializer.EncodeVarIntShape | kafcars/src/protocol/serializer.rs:74-90 | `serialize_unsigned_var_int` writes VarIntLength(val) bytes; every byte's low 7 bits are `val & 0x7f` (the mask uses `val`), and 0x80 is set on every byte but the last |
| Serializer.EncodeVarIntSmall | kafcars/src/protocol/serializer.rs:74-90 | a value below 128 (0 included) is the single byte equal to it |
| Serializer.EncodeCompactString | kafcars/src/protocol/serializer.rs:67-72 | the only failure is `Overflow`, when len + 1 does not fit in a u64 |
| Serializer.CompactStringLayout | kafcars/src/protocol/serializer.rs:67-72 | below that bound the result is Ok and equals EncodeVarInt(len + 1) followed by the raw bytes, so its length is VarIntLength(len + 1) + len |
| Serializer.SerializeBool | kafcars/src/protocol/serializer.rs:31-35 | appends EncodeBool(b) to the writer |
| Serializer.SerializeInt | kafcars/src/protocol/serializer.rs:37-65 | appends EncodeInt(kind, x), whatever the version argument |
| Serializer.SerializeUnsignedVarInt | kafcars/src/protocol/serializer.rs:74-90 | the loop over `curr` appends exactly EncodeVarInt(val) |
| Serializer.SerializeCompactString | kafcars/src/protocol/serializer.rs:67-72 | on success appends EncodeCompactString(s); on `Overflow` writes nothing |
| Deserializer.DecodeBool | kafcars/src/protocol/deserializer.rs:51-61 | one byte is consumed: 0 gives false, 1 gives true, any other byte `UnknownValue`, no byte an `UnexpectedEof` I/O error |
| Deserializer.DecodeBoolRoundTrip | kafcars/src/protocol/deserializer.rs:51-61 | decoding an encoded bool gives it back and leaves the rest of the input |
| Deserializer.FromBigEndian | kafcars/src/protocol/deserializer.rs:63-101 | the value of n big-endian bytes is below 256^n |
| Deserializer.DecodeInt | kafcars/src/protocol/deserializer.rs:63-101 | fails, with an `UnexpectedEof` I/O error, exactly when fewer than width bytes remain; otherwise consumes exactly width bytes and yields a value of the type |
| Deserializer.BigEndianRoundTrip | kafcars/src/protocol/deserializer.rs:63-101 | reading back n big-endian bytes of x gives x |
| Deserializer.FromBigEndianRoundTrip | kafcars/src/protocol/deserializer.rs:63-101 | writing back the value of any byte string gives the same bytes |
| Deserializer.DecodeIntRoundTrip | kafcars/src/protocol/deserializer.rs:71-101 | each fixed-width decoder inverts its encoder: decode(encode(x) + rest) = (x, rest) |
| Deserializer.DecodeIntInverse | kafcars/src/protocol/deserializer.rs:63-101 | whatever a fixed-width decoder reads, re-encoding the value gives back the bytes it consumed |
| Deserializer.DecodeVarIntFrom | kafcars/src/protocol/deserializer.rs:107-124 | the loop consumes at least one byte, yields a u64, and fails only with `UnexpectedEof` or the overflow `Malformed` |
| Deserializer.DecodeVarInt | kafcars/src/protocol/deserializer.rs:103-126 | the same for `deserialize_unsigned_var_int`, which starts with shift 0 and result 0 |
| Deserializer.StopIndex | kafcars/src/protocol/deserializer.rs:115-117 | the first byte with its high bit clear: every earlier byte has it set |
| Deserializer.AccumulateIsGroupSum | kafcars/src/protocol/deserializer.rs:111-112 | OR-ing `(c & 0x7f) << shift` into the result adds the groups times powers of 2^7 |
| Deserializer.DecodeVarIntFromClosedForm | kafcars/src/protocol/deserializer.rs:107-124 | from a shift, the loop yields (acc + ΣGroups·2^shift) mod 2^64 when it stops in range, overflows once the shift passes 63, and runs out of input otherwise |
| Deserializer.DecodeVarIntClosedForm | kafcars/src/protocol/deserializer.rs:103-126 | the result is Σ(b_i & 0x7f)·2^(7i) mod 2^64 up to the first stop byte; `Malformed` when ten bytes all have the continuation bit; `UnexpectedEof` when the input ends first |
| Deserializer.DecodeVarIntReadsAtMostTen | kafcars/src/protocol/deserializer.rs:118-123 | only the first ten bytes decide the outcome and the value; a failure there is the overflow `Malformed` |
| Deserializer.DecodeVarIntSingleByte | kafcars/src/protocol/deserializer.rs:107-117 | a byte below 0x80 decodes to itself and consumes only that byte |
| Deserializer.VarIntLengthAtMostTen | kafcars/src/protocol/serializer.rs:74-90 | a u64 is written in at most ten bytes |
| Deserializer.StopIndexAt | kafcars/src/protocol/deserializer.rs:115-117 | the stop byte is the first one with the high bit clear |
| Deserializer.DecodeEncodeVarInt | kafcars/src/protocol/deserializer.rs:103-126 | decoding what the encoder wrote yields the repeated group `val % 128` summed over all bytes, mod 2^64, and consumes exactly the encoding |
| Deserializer.VarIntRoundTripBelow128 | kafcars/src/protocol/deserializer.rs:107-117 | below 128 the varint round-trips: decode(encode(v) + rest) = (v, rest) |
| Deserializer.VarIntRoundTripFailsAt128 | kafcars/src/protocol/serializer.rs:77 | 128 is written as [0x80, 0x00] and read back as 0 |
| Deserializer.VarIntRoundTripExactly | kafcars/src/protocol/deserializer.rs:107-117 | decode(encode(v) + rest) = (v, rest) exactly when v equals the number whose groups all hold v % 128, truncated to 64 bits |
| Deserializer.VarIntRoundTrip129 | kafcars/src/protocol/serializer.rs:77 | 129 is written as [0x81, 0x01] and read back as 129 |
| Deserializer.DeserializeBool | kafcars/src/protocol/deserializer.rs:51-61 | the reader method yields DecodeBool's result and consumes what it consumes |
| Deserializer.DeserializeInt | kafcars/src/protocol/deserializer.rs:63-101 | the same for DecodeInt, whatever the version argument |
| Deserializer.DeserializeUnsignedVarInt | kafcars/src/protocol/deserializer.rs:103-126 | the byte-at-a-time loop over `res` and `shift` yields DecodeVarInt's result and consumes what it consumes |
| Messages.DecodeEntries | kafcars/src/protocol/messages/mod.rs:66-84 | the entry loop never grows the input, and fails only with an I/O error or `Malformed` |
| Messages.DecodeEntryTag | kafcars/src/protocol/messages/mod.rs:67-73 | one tag read consumes input; its errors are I/O or `Malformed`; a tag varint that fails is that error, and any tag not above the previous one is `Malformed(OutOfOrderTag(tag))` |
| Messages.DecodeEntryPayload | kafcars/src/protocol/messages/mod.rs:75-83 | one size and payload read consumes input; its errors are I/O or `Malformed`; a size varint that fails is that error, and a tag already in the map is `Malformed(DuplicateTag(tag))` |
| Messages.TruncatedPayloadAccepted | kafcars/src/protocol/messages/mod.rs:75-78 | for any input, a size beyond the remaining bytes is no error: the entry is stored as `size` zeros followed by every remaining byte, and all input is consumed |
| Messages.DecodeTaggedFields | kafcars/src/protocol/messages/mod.rs:57-88 | decoding consumes at least the count byte, and fails only with an I/O error or `Malformed` |
| Messages.EncodeEntriesAppend | kafcars/src/protocol/messages/mod.rs:47-51 | the entries of two orders written one after the other are their concatenation |
| Messages.EncodeEmptyTaggedFields | kafcars/src/protocol/messages/mod.rs:41-55 | the empty map is the single byte 0 |
| Messages.DecodeZeroCount | kafcars/src/protocol/messages/mod.rs:59-62 | a zero count gives the empty map and consumes only the count |
| Messages.DecodeCountErrorPropagates | kafcars/src/protocol/messages/mod.rs:59 | a bad count varint is the decoder's error |
| Messages.DecodeOneEntry | kafcars/src/protocol/messages/mod.rs:66-84 | one encoded entry whose tag and payload length are below 128 and whose tag is above the previous one is stored padded, and the loop continues with one iteration fewer and that tag as previous |
| Messages.DecodeEncodedEntries | kafcars/src/protocol/messages/mod.rs:66-84 | a run of encoded entries in ascending tag order, with tags and payload lengths below 128, is read entry by entry, each payload stored padded |
| Messages.InsertPaddedContents | kafcars/src/protocol/messages/mod.rs:76-79 | the inserted entries are exactly the visited tags, each with its payload padded, plus the earlier ones |
| Messages.DecodeTaggedFieldsCount | kafcars/src/protocol/messages/mod.rs:59-66 | for a map of 1 to 127 entries, the decoder reads count + 1 entries (the inclusive range) |
| Messages.DecodeEncodedTaggedFields | kafcars/src/protocol/messages/mod.rs:41-88 | for a map of 1 to 127 entries with tags and payload lengths below 128, decoding its encoding in ascending order reads all of it with every payload padded and still expects one more entry |
| Messages.EncodedTaggedFieldsDoNotDecode | kafcars/src/protocol/messages/mod.rs:41-88 | a non-empty map with tags and payload lengths below 128, written in ascending tag order, never decodes from its own encoding: the extra iteration runs out of input |
| Messages.DecodeReadsOneEntryMore | kafcars/src/protocol/messages/mod.rs:66 | for a map of 1 to 127 entries with tags and payload lengths below 128, its ascending encoding followed by one more entry with a higher tag below 128 and a payload shorter than 128 decodes to N + 1 entries, every payload zero-padded |
| Messages.EmptyTaggedFieldsRoundTrip | kafcars/src/protocol/messages/mod.rs:41-62 | the empty map round-trips |
| Messages.SingleEntryRoundTripFails | kafcars/src/protocol/messages/mod.rs:41-88 | {1: [7]} is written as [1, 1, 1, 7], and reading that is an `UnexpectedEof` I/O error |
| Messages.DecodeRejectsDescendingOrder | kafcars/src/protocol/messages/mod.rs:65-73 | for a map of fewer than 128 entries with tags and payload lengths below 128, an encoding whose order first descends at some position is rejected with `Malformed` naming that tag |
| Messages.DecodeEntriesRejectsTag | kafcars/src/protocol/messages/mod.rs:68-72 | an encoded tag below 128 that is not above the previous one is rejected with `Malformed`; for any input the rule is `DecodeEntryTag`'s own check |
| Messages.RepeatedTagRejected | kafcars/src/protocol/messages/mod.rs:68-72 | a repeated tag and a smaller tag are both rejected by the ordering check |
| Messages.ShortPayloadAccepted | kafcars/src/protocol/messages/mod.rs:75-78 | a payload of size 3 with one byte left is accepted, stored as three zeros followed by that byte |
| Messages.DecodeEntriesZeroPrefixed | kafcars/src/protocol/messages/mod.rs:76-78 | every payload the loop stores begins with zeros covering at least half of it |
| Messages.DecodedPayloadsZeroPrefixed | kafcars/src/protocol/messages/mod.rs:75-78 | every payload the decoder returns begins with zeros covering at least half of it |
| Messages.DecodeEntriesNeverDuplicate | kafcars/src/protocol/messages/mod.rs:79-83 | while every stored tag is at most the previous tag, the loop never reports a duplicate |
| Messages.DecodeNeverReportsDuplicate | kafcars/src/protocol/messages/mod.rs:68-83 | the duplicate-tag branch is unreachable: no input makes the decoder report it |
| Messages.SerializeEntry | kafcars/src/protocol/messages/mod.rs:48-50 | one entry appends varint(tag), varint(length) and the payload |
| Messages.SerializeTaggedFields | kafcars/src/protocol/messages/mod.rs:41-55 | the loop over the map appends the encoding of the map in some order listing every tag exactly once |
| Messages.DeserializeTaggedFields | kafcars/src/protocol/messages/mod.rs:57-88 | the reader method yields DecodeTaggedFields' result and consumes what it consumes |
| Common.OptionType | kafcars-inner-macros/src/common.rs:37-69 | a result only for a path type without qualified self, whose last segment is `Option` with the returned type as its one argument |
| Common.OptionTypeShape | kafcars-inner-macros/src/common.rs:37-69 | whatever is accepted is `Option<T>`, `std::option::Option<T>` or `core::option::Option<T>` and nothing else |
| Common.OptionTypeAccepts | kafcars-inner-macros/src/common.rs:49-68 | each of those three shapes is accepted and yields its argument |
| Common.OptionTypeRejects | kafcars-inner-macros/src/common.rs:38-47 | a qualified-self path, an empty path or one not ending in `Option` gives None |
| Common.OptionTypeRejectsExamples | kafcars-inner-macros/src/common.rs:49-63 | a lower-case `option` prefix, two generic arguments and a bare `Option` all give None |
| Versioned.WindowOfMeaning | kafcars-inner-macros/src/versioned_serialize.rs:89-103 | a field is emitted at v iff min ≤ v (when given) and v ≤ max (when given); only a field with neither bound is ungated |
| Versioned.FieldDefOf | kafcars-inner-macros/src/versioned_serialize.rs:59-88 | a field whose attributes do not parse is an error; otherwise it is marked `Option` exactly when `option_type` recognises its type |
| Versioned.FieldDefs | kafcars-inner-macros/src/versioned_serialize.rs:57-115 | the field loop succeeds exactly when every field's attributes parse, and keeps declaration order |
| Versioned.DeriveSchemaDef | kafcars-inner-macros/src/versioned_serialize.rs:18-133 | only structs with named fields derive (enums, tuple and unit structs are the three errors); the schema keeps `max_version` |
| Versioned.TagVersionUnused | kafcars-inner-macros/src/versioned_serialize.rs:9-45 | `tag_version` does not affect what is derived |
| Versioned.UnusedFieldOptions | kafcars-inner-macros/src/common.rs:7-22 | `tag`, `default` and `deserialize_with` do not affect what is derived |
| Versioned.EmitField | kafcars-inner-macros/src/versioned_serialize.rs:63-113 | a field outside its window, or an `Option` field holding None, writes nothing |
| Versioned.EncodeRejectsNewerVersion | kafcars-inner-macros/src/versioned_serialize.rs:36-41 | above `max_version` the result is `UnsupportedVersion(max, v)` and nothing is written |
| Versioned.EmitFromConcatenates | kafcars-inner-macros/src/versioned_serialize.rs:130-133 | when every field succeeds, the output is their outputs concatenated in declaration order |
| Versioned.EmitFromStopsAtFailure | kafcars-inner-macros/src/versioned_serialize.rs:105-113 | the first failing field ends the output with its error, after what the earlier fields wrote and what the failing field wrote before it failed |
| Versioned.EmitFromIgnoresFieldsOutsideWindow | kafcars-inner-macros/src/versioned_serialize.rs:89-113 | the values of fields outside their windows never influence the output |
| Versioned.EncodeIgnoresFieldsOutsideWindow | kafcars-inner-macros/src/versioned_serialize.rs:89-113 | the same for the whole message |
| Versioned.HookIgnoresVersion | kafcars-inner-macros/src/versioned_serialize.rs:64-66 | a `serialize_with` hook replaces the codec and sees no version: the output is the same at every admitted version |
| Versioned.DecodeField | kafcars-inner-macros/src/versioned_deserialize.rs:67-93 | outside its window a field is None and consumes nothing; inside it is Some and decoded with the field's codec |
| Versioned.PrependValuesStep | kafcars-inner-macros/src/versioned_deserialize.rs:114-119 | collecting one more decoded field is the same as prefixing it to the rest |
| Versioned.DecodeFrom | kafcars-inner-macros/src/versioned_deserialize.rs:82-119 | the remaining fields decode in order to one value each, Some exactly inside the window |
| Versioned.Decode | kafcars-inner-macros/src/versioned_deserialize.rs:33-45 | above `max_version` it is `UnsupportedVersion` before anything is read; otherwise one value per field, Some exactly inside its window |
| Versioned.Project | kafcars-inner-macros/src/versioned_deserialize.rs:82-89 | what decoding can recover: the value inside the window, None outside |
| Versioned.FieldRoundTrip | kafcars-inner-macros/src/versioned_deserialize.rs:67-93 | a field written by an inverse codec under the same window decodes back to the projected value |
| Versioned.DecodeFromEmitted | kafcars-inner-macros/src/versioned_deserialize.rs:67-119 | for the remaining fields, decoding what was written gives the projected values |
| Versioned.EncodeDecodeRoundTrip | kafcars-inner-macros/src/versioned_deserialize.rs:67-81 | with matching windows, Option-typed gated fields present inside their windows, no hooks and inverse codecs, decode(encode(x) + rest, v) = (x with out-of-window fields None, rest) |
| Versioned.WriteField | kafcars-inner-macros/src/versioned_serialize.rs:64-87 | calls the hook, or else the codec with the version; the writer gains exactly what that call wrote, including any partial output before an error, and the call's error is returned |
| Versioned.SerializeOneField | kafcars-inner-macros/src/versioned_serialize.rs:73-113 | one generated field statement appends whatever EmitField wrote, partial output included, and returns EmitField's error if it has one |
| Versioned.SerializeVersioned | kafcars-inner-macros/src/versioned_serialize.rs:33-43 | the generated method appends exactly what the schema emits up to the first failure and returns that failure or Ok |
| Versioned.ReadWith | kafcars-inner-macros/src/versioned_deserialize.rs:85 | a nested decoder call yields the decoder's result and consumes what it consumes |
| Versioned.DeserializeOneField | kafcars-inner-macros/src/versioned_deserialize.rs:82-93 | one generated `let` yields DecodeField's result and consumes what it consumes |
| Versioned.DeserializeVersioned | kafcars-inner-macros/src/versioned_deserialize.rs:33-45 | the generated method yields Decode's result and consumes what it consumes |
| KafkaRequestDerive.FirstTaggedField | kafcars-inner-macros/src/kafka_request.rs:72-82 | None exactly when no field has parsable attributes, a `min_version`, a name and a path type ending in `TaggedFields` |
| KafkaRequestDerive.FirstTaggedFieldIsFirstMatch | kafcars-inner-macros/src/kafka_request.rs:72-82 | the search returns the `min_version` and name of the first such field |
| KafkaRequestDerive.OptionTaggedFieldsNotFound | kafcars-inner-macros/src/kafka_request.rs:78 | a field typed `Option<TaggedFields>` is not recognised |
| KafkaRequestDerive.DeriveKafkaRequest | kafcars-inner-macros/src/kafka_request.rs:24-64 | serializer errors come first, then a missing `response`, then a missing `api_key`; on success the range is (min_version or 0, max_version), the key and response are as given, and the serializer has the same `max_version` |
| KafkaRequestDerive.TaggedFieldsMinVersionOfDerived | kafcars-inner-macros/src/kafka_request.rs:48-52 | `TAGGED_FIELDS_MIN_VERSION` is the first marking field's `min_version`, or None |
| KafkaRequestDerive.InvertedRangeAccepted | kafcars-inner-macros/src/kafka_request.rs:46-47 | min > max is derived as given: (5, 2) |
| FieldCodecs.IntCodecInverse | kafcars/src/protocol/deserializer.rs:63-101 | each integer decoder reads back what its encoder wrote |
| FieldCodecs.Enumerate | kafcars/src/protocol/messages/mod.rs:47 | every map has an order listing each key exactly once |
| FieldCodecs.TaggedCodecNotInverse | kafcars/src/protocol/messages/mod.rs:41-88 | the `TaggedFields` codec is not self-inverse, whatever the iteration order |
| Header.RequestHeaderDerived | kafcars/src/protocol/messages/header.rs:5-13 | the derive gives max version 2, three ungated fields, then `client_id` from version 1 with its hook |
| Header.RequestHeaderSchema | kafcars/src/protocol/messages/header.rs:5-13 | the generated serializer realises that derived schema |
| Header.RequestHeaderValues | kafcars/src/protocol/messages/header.rs:7-13 | no field is an `Option`: all four values are present |
| Header.RequestHeaderLayout | kafcars/src/protocol/messages/header.rs:5-13 | above 2 `UnsupportedVersion(2, v)`; otherwise api version, key and correlation id in order, then `client_id` only from version 1 |
| Header.RequestHeaderKeyFailure | kafcars/src/protocol/messages/header.rs:8-9 | a failing key codec stops the header with its error, after the api version bytes and whatever the key codec wrote before failing |
| Header.RequestHeaderVersionsOneAndTwoAgree | kafcars/src/protocol/messages/header.rs:6-13 | versions 1 and 2 write the same bytes |
| Header.ResponseHeaderDerived | kafcars/src/protocol/messages/header.rs:15-21 | the derive gives max version 1: the correlation id, then the tagged fields from version 1 |
| Header.ResponseHeaderSchema | kafcars/src/protocol/messages/header.rs:15-21 | the generated deserializer realises that derived schema, decoding `Option<TaggedFields>` with the `TaggedFields` codec |
| Header.ReadResponseHeader | kafcars/src/protocol/messages/header.rs:15-21 | the tagged fields are present exactly from version 1 |
| Header.ResponseHeaderDecode | kafcars/src/protocol/messages/header.rs:15-21 | the interpreter on the derived schema is the hand-written reading: unsupported above 1, a big-endian i32, then a container from version 1 |
| Header.DeserializeResponseHeader | kafcars/src/protocol/messages/header.rs:15-21 | the reader method yields ReadResponseHeader's result and consumes what it consumes |
| Header.ResponseHeaderVersion0 | kafcars/src/protocol/messages/header.rs:18 | at version 0 exactly four bytes are read, and there are no tagged fields |
| Header.ResponseHeaderVersion1 | kafcars/src/protocol/messages/header.rs:18-20 | at version 1 the id is followed by a container; an empty one gives Some(empty map) |
| Header.ResponseHeaderTooShort | kafcars/src/protocol/messages/header.rs:18 | fewer than four bytes is an `UnexpectedEof` I/O error |
| VersionMessage.ApiVersionsRequestDerived | kafcars/src/protocol/messages/version.rs:6-15 | range (0, 4), key `ApiVersions`, response `ApiVersionsResponse`, and no tagged-field threshold, since the field is `Option<TaggedFields>` |
| VersionMessage.ApiVersionsRequestSchema | kafcars/src/protocol/messages/version.rs:8-15 | the generated serializer realises the derived schema |
| VersionMessage.ApiVersionsRequestValues | kafcars/src/protocol/messages/version.rs:8-15 | each field value is present exactly when the struct's `Option` is Some |
| VersionMessage.ApiVersionsRequestLayout | kafcars/src/protocol/messages/version.rs:6-15 | above 4 `UnsupportedVersion(4, v)`; below 3 empty; at 3 and 4 the compact name, the compact version and the container, each only when Some |
| VersionMessage.SyncRequestLayout | kafcars/src/client/stream.rs:174-178 | the request `sync_versions` builds is, at version 3, two compact strings followed by the byte 0 |
| Connection.MatchVersions | kafcars/src/client/stream.rs:220-226 | Some exactly when min0 ≤ max1 and min1 ≤ max0, and then the smaller of the two maxima |
| Connection.MatchVersionsIsGreatestCommon | kafcars/src/client/stream.rs:220-226 | for well-formed ranges the result lies in both ranges and is at least every common version |
| Connection.MatchVersionsExactlyWhenCommon | kafcars/src/client/stream.rs:220-226 | for well-formed ranges there is a result exactly when the ranges share a version |
| Connection.MatchVersionsSymmetric | kafcars/src/client/stream.rs:220-226 | the argument order does not matter |
| Connection.InvertedRangeMatchesOutside | kafcars/src/client/stream.rs:220-226 | an inverted range (5, 2) against (0, 10) negotiates 2, a version outside it |
| Connection.NegotiateVersion | kafcars/src/client/stream.rs:196-201 | `NoVersionMatch(key)` exactly when the key is missing from the server table or the ranges do not overlap; otherwise `match_versions`' value, the smaller maximum |
| Connection.NegotiatedVersionIsGreatestCommon | kafcars/src/client/stream.rs:196-201 | for ranges that are not inverted, the negotiated version lies in both and is at least every common version, so negotiation succeeds whenever one is shared |
| Connection.UseTaggedFieldsMonotone | kafcars/src/client/stream.rs:203-208 | a flag set at one version stays set at every later version; no threshold means never set |
| Connection.PlanExchange | kafcars/src/client/stream.rs:196-208 | fails exactly as negotiation does; otherwise each flag is set iff its own type's threshold is reached by the negotiated version |
| Connection.RequestAndResponseMayDisagree | kafcars/src/client/stream.rs:203-208 | the two flags are independent: tagged request, untagged response at version 4 |
| Connection.NoThresholdNoTaggedRequest | kafcars/src/client/stream.rs:203-205 | a request type without a threshold never sends tagged fields |
| Connection.WrapI32 | kafcars/src/client/stream.rs:210 | the wrapped value is an i32 congruent to the input modulo 2^32 |
| Connection.WrapI32Edges | kafcars/src/client/stream.rs:210 | i32 values are unchanged, and i32::MAX + 1 wraps to i32::MIN |
| Connection.CorrelationIdsDistinct | kafcars/src/client/stream.rs:210 | any 2^32 consecutive ids are distinct, and after 2^32 requests the id repeats |
| Connection.HandleFrame | kafcars/src/client/stream.rs:126-162 | on error the table is unchanged and nothing is delivered; on success exactly the served entry is removed and one outcome goes to its channel |
| Connection.ShortFrameInvalidHeader | kafcars/src/client/stream.rs:130-131 | a frame shorter than four bytes is `InvalidHeader` |
| Connection.UnknownIdRefused | kafcars/src/client/stream.rs:132-139 | an id not pending is `UnknownRequest(id)` |
| Connection.MatchingFrameServed | kafcars/src/client/stream.rs:132-159 | a pending id is removed and every other entry is kept; its waiter gets Ok(header, rest) without tagged fields, and with them either the decoded map and what follows it or ReadError when the container fails |
| Connection.EmptyTaggedContainerDelivered | kafcars/src/client/stream.rs:140-159 | with tagged fields in use, an empty container gives the header Some(empty map) and the payload after it |
| Connection.EachRequestServedAtMostOnce | kafcars/src/client/stream.rs:112-139 | over any sequence of frames, the served ids are distinct pending ids and are exactly the ids removed from the table |
| Connection.ConnectionStream.constructor | kafcars/src/client/stream.rs:86-98 | the counter starts at 0 with nothing pending or delivered |
| Connection.ConnectionStream.NextCorrelationId | kafcars/src/client/stream.rs:210 | `fetch_add(1)`: returns the current id and advances it by one, wrapping |
| Connection.ConnectionStream.SendRequestWithVersionRanges | kafcars/src/client/stream.rs:187-210 | returns PlanExchange's result and takes a correlation id only when negotiation succeeds |
| Connection.ConnectionStream.ReadWithRawResponseMessage | kafcars/src/client/stream.rs:126-162 | the table and the delivered outcomes change exactly as HandleFrame says; the counter is untouched |

## Left out

- The tokio plumbing of `ConnectionStream` is not modelled: the TCP halves, `stream_reader_task`, `FramedRead`
  with `LengthDelimitedCodec`, `try_for_each_concurrent`, the `Arc<Mutex<…>>` locking and the `JoinHandle`. These
  are I/O and concurrency. Frames arrive as byte sequences, one at a time.
- The oneshot channel is a recorded `Delivery` (channel id and outcome). A failed send is ignored in the source
  (`.ok()`), and the model does not represent it.
- `sync_versions` is not modelled. Its inner loop is empty and never ends. Only the request it builds is
  described, by SyncRequestLayout.
- Connection.ConnectionStream.SendRequestWithVersionRanges covers negotiation, the flags and the counter only. The
  header construction after that is truncated in the source, and nothing in the source inserts into the pending
  table, so the model registers nothing either.
- `client/mod.rs`, `client/broker.rs`, `lib.rs` and `metadata.rs` are not part of this model. They hold TCP
  connects, a random shuffle, stubs, and declarations without codec.
- The token generation of the derive macros (`syn`, `quote`, `darling`, `darling_to_syn`, `to_compile_errors`) is
  not modelled. A derive is modelled by the schema it yields. A field whose attributes fail to parse is one
  `InvalidAttributes` error rather than darling's message. An absent `max_version` is the caller passing 0.
- The `VersionedSerializer` and `VersionedDeserializer` tokio_serde adapters are not modelled, and neither is the
  conversion of `io::Error` into `SerializationError`. A write never fails, and a short read is the one I/O error
  `UnexpectedEof`.
- `Malformed` carries a reason datatype instead of the formatted message.
- The `ApiKey` codec, `serialize_nullable_string` and the default `String` codec are not visible in the source. They
  are parameters of the header and ApiVersions instances.
- The iteration order of `HashMap` is a parameter (`Iteration`), constrained only to list every key once.
- The generated non-`Option` hook call names the field without `self.`. It is modelled as the hook applied to the
  field's value.
- A field value of the wrong case of `Value` gets `UnknownValue` from the codecs. The Rust types rule this out.
- An empty path in `find_tagged_field_version`, where `unwrap` would panic, is read as not matching. `syn` never
  builds one.
- What a reader has consumed when a decoder fails is left unspecified. The callers drop the reader after an error.
- Allocating `size` bytes for a huge tagged-field size, which would abort the process, is not modelled. Those
  payloads are ordinary sequences.
- Messages.SerializeTaggedFields: requires the map's size and every payload length to be below 2^64. The source
  casts with `as u64`, which cannot truncate for a map held in memory.
